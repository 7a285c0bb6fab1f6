/** Calls end and objects can be let go: from every reachable state the handle protocol can be wound up. */
module HandleProgress {
  import opened Common
  import opened Handles
  import opened HandleSafety
  import Cursor

  /** What the engine, the caller's request and the object system decide during one step. */
  datatype Outcome = Outcome(ok: bool, scaled: bool, loop: bool, frameCount: nat)

  /** The step a running call takes next, unless it applies another setter. */
  function Next(t: nat, c: Call, r: Outcome): Action {
    match c
    case Attaching(_, _) => Attach(t, r.ok)
    case Taking(_) => TakeLoader(t)
    case Configuring(_, _) => RunLoad(t, r.ok)
    case Modifying(_, _) => EndModify(t)
    case Inspecting(_, _) => Inspect(t, r.ok, r.frameCount)
    case Deciding(_) => Decide(t, r.scaled, r.loop, r.ok)
    case Advancing(_, _) => Advance(t)
    case Extracting(_, _) => Extract(t, r.ok)
    case Finishing(_) => Finish(t)
  }

  /** A bound on the steps a call still has to take. */
  function Remaining(c: Call): nat {
    match c
    case Finishing(_) => 1
    case Attaching(_, _) => 2
    case Extracting(_, _) => 3
    case Advancing(_, _) => 4
    case Inspecting(_, _) => 5
    case Configuring(_, _) => 6
    case _ => 7
  }

  /** The call whose step an action is, if it is one. */
  function Caller(a: Action): Option<nat> {
    match a
    case Attach(t, _) => Some(t)
    case TakeLoader(t) => Some(t)
    case BeginModify(t) => Some(t)
    case EndModify(t) => Some(t)
    case RunLoad(t, _) => Some(t)
    case Inspect(t, _, _) => Some(t)
    case Decide(t, _, _, _) => Some(t)
    case Advance(t) => Some(t)
    case Extract(t, _) => Some(t)
    case Finish(t) => Some(t)
    case _ => None
  }

  /** Call `t` is nearer its end in `s'`, and the other calls are where they were. */
  predicate Shortened(s: State, s': State, t: nat)
    requires t in s.calls
  {
    s'.calls - {t} == s.calls - {t} && (t in s'.calls ==> Remaining(s'.calls[t]) < Remaining(s.calls[t]))
  }

  lemma HandleStepShortens(s: State, t: nat, r: Outcome)
    requires t in s.calls && (s.calls[t].Configuring? || s.calls[t].Modifying? || s.calls[t].Inspecting?)
    ensures Shortened(s, Step(s, Next(t, s.calls[t], r)), t)
  {
    hide Allocate, Use, Free, TakeInner, PutInner, Consume;
  }

  lemma ObjectStepShortens(s: State, t: nat, r: Outcome)
    requires t in s.calls && (s.calls[t].Taking? || s.calls[t].Deciding? || s.calls[t].Advancing?)
    requires var o := Pin(s.calls[t]).value; o in s.objects && PinFits(s.calls[t], s.objects[o].state)
    ensures Shortened(s, Step(s, Next(t, s.calls[t], r)), t)
  {
    hide Allocate, Use;
  }

  lemma LastStepShortens(s: State, t: nat, r: Outcome)
    requires t in s.calls && (s.calls[t].Attaching? || s.calls[t].Extracting? || s.calls[t].Finishing?)
    requires s.calls[t].Extracting? ==>
               s.calls[t].image in s.objects && PinFits(s.calls[t], s.objects[s.calls[t].image].state)
    ensures Shortened(s, Step(s, Next(t, s.calls[t], r)), t)
  {
    hide Use, DropState, Collect;
  }

  /** A running call is never stuck: whatever comes of its next step, fewer remain, and no other call is touched. */
  lemma CallAdvances(s: State, t: nat, r: Outcome)
    requires Inv(s) && t in s.calls
    ensures Shortened(s, Step(s, Next(t, s.calls[t], r)), t)
  {
    hide InvBy, Step;
    var owner :| InvBy(s, owner);
    if Pin(s.calls[t]).Some? {
      PinnedObject(s, owner, t);
    }
    match s.calls[t]
    case Configuring(_, _) | Modifying(_, _) | Inspecting(_, _) => HandleStepShortens(s, t, r);
    case Taking(_) | Deciding(_) | Advancing(_, _) => ObjectStepShortens(s, t, r);
    case _ => LastStepShortens(s, t, r);
  }

  /** Nothing but its own steps moves a running call. */
  lemma OthersLeaveAlone(s: State, a: Action, t: nat)
    requires t in s.calls && Caller(a) != Some(t)
    ensures t in Step(s, a).calls && Step(s, a).calls[t] == s.calls[t]
  {
    hide Allocate, Use, Free, TakeInner, PutInner, Consume, DropState, Collect;
  }

  // ----- Winding up -----

  lemma {:induction false} RunConcat(s: State, a: seq<Action>, b: seq<Action>)
    ensures Run(s, a + b) == Run(Run(s, a), b)
    decreases |a|
  {
    if |a| == 0 {
      assert a + b == b;
    } else {
      assert (a + b)[1..] == a[1..] + b;
      RunConcat(Step(s, a[0]), a[1..], b);
    }
  }

  lemma RunOne(s: State, a: Action, rest: seq<Action>)
    ensures Run(s, [a] + rest) == Run(Step(s, a), rest)
  {
    assert ([a] + rest)[1..] == rest;
  }

  /** One call, left to itself, ends, whatever each of its steps meets. */
  lemma {:induction false} EndCall(s: State, t: nat, f: (State, nat) -> Outcome) returns (actions: seq<Action>)
    requires Inv(s) && t in s.calls
    ensures Inv(Run(s, actions)) && Run(s, actions).calls == s.calls - {t}
    ensures |actions| <= Remaining(s.calls[t])
    decreases Remaining(s.calls[t])
  {
    hide Inv, Step;
    var a := Next(t, s.calls[t], f(s, t));
    var s' := Step(s, a);
    CallAdvances(s, t, f(s, t));
    StepKeeps(s, a);
    var rest := [];
    if t in s'.calls {
      rest := EndCall(s', t, f);
    } else {
      assert s'.calls == s'.calls - {t};
      assert Run(s', []) == s';
    }
    actions := [a] + rest;
    RunOne(s, a, rest);
  }

  lemma {:induction false} EndCalls(s: State, f: (State, nat) -> Outcome) returns (actions: seq<Action>)
    requires Inv(s)
    ensures Inv(Run(s, actions)) && Run(s, actions).calls == map[]
    decreases |s.calls|
  {
    hide Inv, Step;
    actions := [];
    if s.calls != map[] {
      var t :| t in s.calls;
      var first := EndCall(s, t, f);
      var rest := EndCalls(Run(s, first), f);
      RunConcat(s, first, rest);
      actions := first + rest;
    }
  }

  lemma IdleReferenced(s: State, o: nat)
    requires Inv(s) && s.calls == map[] && o in s.objects
    ensures s.objects[o].refs > 0 && !Pinned(s, o)
  {
    var owner :| InvBy(s, owner);
    assert !Pinned(s, o);
  }

  /** Giving up one reference of an object no call uses. */
  lemma UnrefIdle(s: State, o: nat)
    requires Inv(s) && s.calls == map[] && o in s.objects
    ensures s.objects[o].refs > 0
    ensures var s' := Step(s, Unref(o));
            && s'.calls == map[] && s'.objects - {o} == s.objects - {o}
            && (o in s'.objects <==> s.objects[o].refs > 1)
            && (o in s'.objects ==> s'.objects[o].refs == s.objects[o].refs - 1)
  {
    hide Inv, DropState;
    IdleReferenced(s, o);
    var u := s.(objects := s.objects[o := s.objects[o].(refs := s.objects[o].refs - 1)]);
    assert Step(s, Unref(o)) == Collect(u, o) && !Pinned(u, o);
  }

  lemma {:induction false} ReleaseObject(s: State, o: nat) returns (actions: seq<Action>)
    requires Inv(s) && s.calls == map[] && o in s.objects
    ensures var s' := Run(s, actions); Inv(s') && s'.calls == map[] && s'.objects == s.objects - {o}
    decreases s.objects[o].refs
  {
    hide Inv, Step;
    var s' := Step(s, Unref(o));
    UnrefIdle(s, o);
    StepKeeps(s, Unref(o));
    var rest := [];
    if o in s'.objects {
      rest := ReleaseObject(s', o);
    } else {
      assert s'.objects == s'.objects - {o};
      assert Run(s', []) == s';
    }
    actions := [Unref(o)] + rest;
    RunOne(s, Unref(o), rest);
  }

  lemma {:induction false} ReleaseObjects(s: State) returns (actions: seq<Action>)
    requires Inv(s) && s.calls == map[]
    ensures var s' := Run(s, actions); s'.calls == map[] && s'.objects == map[]
    decreases |s.objects|
  {
    hide Inv, Step;
    actions := [];
    if s.objects != map[] {
      var o :| o in s.objects;
      var first := ReleaseObject(s, o);
      var rest := ReleaseObjects(Run(s, first));
      RunConcat(s, first, rest);
      actions := first + rest;
    }
  }

  /**
   From every reachable state, whatever outcome `f` each step of the calls still running meets, some continuation
   ends them all, destroys every object and has released every handle exactly once.
   */
  lemma CanWindUp(actions: seq<Action>, f: (State, nat) -> Outcome) returns (more: seq<Action>)
    ensures var s := Run(INITIAL, actions + more);
            && s.calls == map[] && s.objects == map[]
            && forall h :: 0 <= h < |s.handles| ==> !s.handles[h].live && s.handles[h].released == 1
  {
    InitialInv();
    RunKeeps(INITIAL, actions);
    var s := Run(INITIAL, actions);
    var ends := EndCalls(s, f);
    var releases := ReleaseObjects(Run(s, ends));
    more := ends + releases;
    RunConcat(s, ends, releases);
    RunConcat(INITIAL, actions, more);
    NothingLeaks(actions + more);
  }
}
