/** What every interleaving of the handle protocol keeps. */
module HandleSafety {
  import opened Common
  import opened Handles
  import Cursor

  /** Who is responsible for a live handle. */
  datatype Owner = ByObject(o: nat) | ByCall(t: nat)

  function CallHeld(c: Call): Option<nat> {
    match c
    case Attaching(p, _) => Held(p)
    case Configuring(_, h) => Some(h)
    case Modifying(_, h) => Some(h)
    case Inspecting(_, h) => Some(h)
    case _ => None
  }

  function CallKind(c: Call): Kind {
    match c
    case Attaching(p, _) => HeldKind(p)
    case Inspecting(_, _) => ImageHandle
    case _ => LoaderHandle
  }

  /** The kind of object a call refers to. */
  predicate PinFits(c: Call, p: Payload) {
    match c
    case Taking(_) => p.Loader?
    case Configuring(job, _) => if job.LoadJob? then p.Loader? else p.Image?
    case Modifying(job, _) => if job.LoadJob? then p.Loader? else p.Image?
    case Inspecting(job, _) => if job.LoadJob? then p.Loader? else p.Image?
    case Deciding(_) => p.Image?
    case Advancing(_, _) => p.Image?
    case Extracting(_, i) => p.Image? && i < p.frameCount
    case _ => true
  }

  /** A handle a loader call holds is emptied only while that call is inside a setter. */
  predicate HandleFits(e: Handle, kind: Kind, modifying: bool) {
    e.live && e.kind == kind && (kind == LoaderHandle ==> e.inner == !modifying)
  }

  // ----- The invariant -----

  ghost predicate Sound(s: State) {
    && !s.fault && !s.refused
  }

  /** Live handles are the owned ones; every other handle was released exactly once. */
  ghost predicate Accounted(s: State, owner: map<nat, Owner>) {
    && (forall h :: h in owner ==> h < |s.handles|)
    && forall h :: 0 <= h < |s.handles| ==>
                     && (s.handles[h].live <==> h in owner)
                     && s.handles[h].released == if h in owner then 0 else 1
  }

  /** Objects own what their state names, and own nothing else. */
  ghost predicate ObjectsOwn(s: State, owner: map<nat, Owner>) {
    && (forall o :: o in s.objects && Held(s.objects[o].state).Some? ==>
                      var h := Held(s.objects[o].state).value;
                      && h in owner && owner[h] == ByObject(o) && h < |s.handles|
                      && HandleFits(s.handles[h], HeldKind(s.objects[o].state), false))
    && forall h :: h in owner && owner[h].ByObject? ==>
                     owner[h].o in s.objects && Held(s.objects[owner[h].o].state) == Some(h)
  }

  ghost predicate CallsOwn(s: State, owner: map<nat, Owner>) {
    && (forall t :: t in s.calls && CallHeld(s.calls[t]).Some? ==>
                      var h := CallHeld(s.calls[t]).value;
                      && h in owner && owner[h] == ByCall(t) && h < |s.handles|
                      && HandleFits(s.handles[h], CallKind(s.calls[t]), s.calls[t].Modifying?))
    && forall h :: h in owner && owner[h].ByCall? ==>
                     owner[h].t in s.calls && CallHeld(s.calls[owner[h].t]) == Some(h)
  }

  /** Objects in use by a call exist and are of the right kind. */
  ghost predicate PinsFit(s: State) {
    forall t :: t in s.calls && Pin(s.calls[t]).Some? ==>
                  var o := Pin(s.calls[t]).value;
                  o in s.objects && PinFits(s.calls[t], s.objects[o].state)
  }

  /** Every object not spared has some reference left. */
  ghost predicate NoneIdle(s: State, spared: set<nat>) {
    forall o :: o in s.objects && o !in spared ==> s.objects[o].refs > 0 || Pinned(s, o)
  }

  ghost predicate Referenced(s: State, spared: set<nat>) {
    PinsFit(s) && NoneIdle(s, spared) && forall o :: o in s.objects ==> o < s.nextObject
  }

  ghost predicate PayloadFits(p: Payload) {
    p.Image? ==> p.cursor <= p.frameCount
  }

  ghost predicate PayloadsFit(s: State) {
    && (forall o :: o in s.objects ==> PayloadFits(s.objects[o].state))
    && (forall t :: t in s.calls && s.calls[t].Attaching? ==> PayloadFits(s.calls[t].state))
    && (forall t :: t in s.calls && s.calls[t].Attaching? && s.calls[t].state.Loader? ==>
                      s.calls[t].state.inner.Some?)
  }

  /** A loader object has lost its handle exactly if a load obtained it, and no load obtains one twice. */
  ghost predicate TakenOnce(s: State) {
    && (forall i, j :: 0 <= i < j < |s.taken| ==> s.taken[i] != s.taken[j])
    && (forall o :: o in s.taken ==> o < s.nextObject)
    && (forall o :: o in s.objects && s.objects[o].state.Loader? ==>
                      (s.objects[o].state.inner.None? <==> o in s.taken))
  }

  /** The part about who owns which handle. */
  ghost predicate Owned(s: State, owner: map<nat, Owner>) {
    Accounted(s, owner) && ObjectsOwn(s, owner) && CallsOwn(s, owner)
  }

  /** The part that does not look at the handles. */
  ghost predicate WellFormed(s: State, spared: set<nat>) {
    Sound(s) && Referenced(s, spared) && PayloadsFit(s) && TakenOnce(s)
  }

  ghost predicate InvExcept(s: State, owner: map<nat, Owner>, spared: set<nat>) {
    Owned(s, owner) && WellFormed(s, spared)
  }

  ghost predicate InvBy(s: State, owner: map<nat, Owner>) {
    InvExcept(s, owner, {})
  }

  /** Responsibility for the live handles can be assigned so that all of the above holds. */
  ghost predicate Inv(s: State) {
    exists owner: map<nat, Owner> :: InvBy(s, owner)
  }

  lemma InitialInv()
    ensures Inv(INITIAL)
  {
    var owner: map<nat, Owner> := map[];
    assert InvBy(INITIAL, owner);
  }

  // ----- Building blocks -----

  lemma PinsKept(s: State, s': State)
    requires forall t :: t in s.calls && Pin(s.calls[t]).Some? ==> t in s'.calls && Pin(s'.calls[t]) == Pin(s.calls[t])
    ensures forall o: nat :: Pinned(s, o) ==> Pinned(s', o)
  {
    forall o: nat | Pinned(s, o)
      ensures Pinned(s', o)
    {
      var t :| t in s.calls && Pin(s.calls[t]) == Some(o);
      assert t in s'.calls && Pin(s'.calls[t]) == Some(o);
    }
  }

  /** The pin of `c` exists, and is what `t` had pinned before. */
  ghost predicate Continues(s: State, t: nat, c: Call) {
    && (t in s.calls ==> Pin(s.calls[t]) == Pin(c))
    && (Pin(c).Some? ==> Pin(c).value in s.objects && PinFits(c, s.objects[Pin(c).value].state))
    && (c.Attaching? ==> PayloadFits(c.state) && (c.state.Loader? ==> c.state.inner.Some?))
  }

  /** Objects stay in use while calls keep their pins and references are not given up. */
  lemma NoneIdleKept(s: State, s': State)
    requires NoneIdle(s, {})
    requires forall t :: t in s.calls && Pin(s.calls[t]).Some? ==> t in s'.calls && Pin(s'.calls[t]) == Pin(s.calls[t])
    requires forall o :: o in s'.objects ==>
                           s'.objects[o].refs > 0 || (o in s.objects && s.objects[o].refs == s'.objects[o].refs)
    ensures NoneIdle(s', {})
  {
    PinsKept(s, s');
  }

  /** A call's object is there for it. */
  lemma PinnedObject(s: State, owner: map<nat, Owner>, t: nat)
    requires InvBy(s, owner) && t in s.calls && Pin(s.calls[t]).Some?
    ensures var o := Pin(s.calls[t]).value; o in s.objects && PinFits(s.calls[t], s.objects[o].state)
  {
  }

  lemma HeldLive(s: State, owner: map<nat, Owner>, o: nat)
    requires Owned(s, owner) && o in s.objects && Held(s.objects[o].state).Some?
    ensures Live(s, Held(s.objects[o].state).value)
  {
  }

  lemma CallHeldLive(s: State, owner: map<nat, Owner>, t: nat)
    requires Owned(s, owner) && t in s.calls && CallHeld(s.calls[t]).Some?
    ensures Live(s, CallHeld(s.calls[t]).value)
  {
  }

  /** Moving one call on, whatever happens to the handles meanwhile. */
  lemma GotoWellFormed(s: State, s': State, t: nat, c: Call)
    requires WellFormed(s, {}) && Continues(s, t, c)
    requires s' == Goto(s, t, c).(handles := s'.handles)
    ensures WellFormed(s', {})
  {
    PinsKept(s, s');
  }

  /** A call that owns nothing moves on and still owns nothing. */
  lemma MoveOn(s: State, owner: map<nat, Owner>, t: nat, c: Call)
    requires InvBy(s, owner) && Continues(s, t, c)
    requires (t in s.calls ==> CallHeld(s.calls[t]).None?) && CallHeld(c).None?
    ensures InvBy(Goto(s, t, c), owner)
  {
    GotoWellFormed(s, Goto(s, t, c), t, c);
  }

  lemma ObtainAccounted(s: State, owner: map<nat, Owner>, t: nat, c: Call, kind: Kind)
    requires Accounted(s, owner)
    ensures Accounted(Goto(Allocate(s, kind), t, c), owner[|s.handles| := ByCall(t)])
  {
  }

  lemma ObtainObjectsOwn(s: State, owner: map<nat, Owner>, t: nat, c: Call, kind: Kind)
    requires Accounted(s, owner) && ObjectsOwn(s, owner)
    ensures ObjectsOwn(Goto(Allocate(s, kind), t, c), owner[|s.handles| := ByCall(t)])
  {
  }

  lemma ObtainCallsOwn(s: State, owner: map<nat, Owner>, t: nat, c: Call, kind: Kind)
    requires Owned(s, owner)
    requires t in s.calls ==> CallHeld(s.calls[t]).None?
    requires CallHeld(c) == Some(|s.handles|) && CallKind(c) == kind && !c.Modifying?
    ensures CallsOwn(Goto(Allocate(s, kind), t, c), owner[|s.handles| := ByCall(t)])
  {
  }

  /** A call that owns nothing obtains a fresh handle. */
  lemma Obtain(s: State, owner: map<nat, Owner>, t: nat, c: Call, kind: Kind)
    requires InvBy(s, owner) && Continues(s, t, c)
    requires t in s.calls ==> CallHeld(s.calls[t]).None?
    requires CallHeld(c) == Some(|s.handles|) && CallKind(c) == kind && !c.Modifying?
    ensures InvBy(Goto(Allocate(s, kind), t, c), owner[|s.handles| := ByCall(t)])
  {
    GotoWellFormed(s, Goto(Allocate(s, kind), t, c), t, c);
    ObtainAccounted(s, owner, t, c, kind);
    ObtainObjectsOwn(s, owner, t, c, kind);
    ObtainCallsOwn(s, owner, t, c, kind);
  }

  /** A call frees the handle it owns. */
  lemma Release(s: State, owner: map<nat, Owner>, t: nat, c: Call)
    requires InvBy(s, owner) && t in s.calls && Continues(s, t, c)
    requires CallHeld(s.calls[t]).Some? && CallHeld(c).None?
    ensures var h := CallHeld(s.calls[t]).value; InvBy(Goto(Free(s, h), t, c), owner - {h})
  {
    var h := CallHeld(s.calls[t]).value;
    var s' := Goto(Free(s, h), t, c);
    GotoWellFormed(s, s', t, c);
    assert Accounted(s', owner - {h});
    ReleaseObjectsOwn(s, owner, t, c);
    ReleaseCallsOwn(s, owner, t, c);
  }

  lemma ReleaseObjectsOwn(s: State, owner: map<nat, Owner>, t: nat, c: Call)
    requires Owned(s, owner) && t in s.calls && CallHeld(s.calls[t]).Some?
    ensures var h := CallHeld(s.calls[t]).value; ObjectsOwn(Goto(Free(s, h), t, c), owner - {h})
  {
  }

  lemma ReleaseCallsOwn(s: State, owner: map<nat, Owner>, t: nat, c: Call)
    requires Owned(s, owner) && t in s.calls && CallHeld(s.calls[t]).Some? && CallHeld(c).None?
    ensures var h := CallHeld(s.calls[t]).value; CallsOwn(Goto(Free(s, h), t, c), owner - {h})
  {
  }

  /** A call keeps its handle and goes on with it. */
  lemma Carry(s: State, owner: map<nat, Owner>, t: nat, c: Call)
    requires InvBy(s, owner) && t in s.calls && Continues(s, t, c)
    requires CallHeld(c) == CallHeld(s.calls[t]) != None && CallKind(c) == CallKind(s.calls[t])
    requires !c.Modifying? && !s.calls[t].Modifying?
    ensures InvBy(Goto(s, t, c), owner)
  {
    GotoWellFormed(s, Goto(s, t, c), t, c);
  }

  ghost predicate Collectable(s: State, o: nat) {
    o in s.objects && s.objects[o].refs == 0 && !Pinned(s, o)
  }

  ghost function CollectOwner(s: State, owner: map<nat, Owner>, o: nat): map<nat, Owner>
    requires o in s.objects
  {
    var held := Held(s.objects[o].state);
    if held.Some? then owner - {held.value} else owner
  }

  lemma CollectAccounted(s: State, owner: map<nat, Owner>, o: nat)
    requires Owned(s, owner) && Collectable(s, o)
    ensures Accounted(Collect(s, o), CollectOwner(s, owner, o))
    ensures Collect(s, o).fault == s.fault
  {
  }

  lemma CollectObjectsOwn(s: State, owner: map<nat, Owner>, o: nat)
    requires Owned(s, owner) && Collectable(s, o)
    ensures ObjectsOwn(Collect(s, o), CollectOwner(s, owner, o))
  {
  }

  lemma CollectCallsOwn(s: State, owner: map<nat, Owner>, o: nat)
    requires Owned(s, owner) && Collectable(s, o)
    ensures CallsOwn(Collect(s, o), CollectOwner(s, owner, o))
  {
  }

  lemma CollectWellFormed(s: State, s': State, o: nat)
    requires WellFormed(s, {o}) && Collectable(s, o)
    requires s' == s.(objects := s.objects - {o}, handles := s'.handles)
    ensures WellFormed(s', {})
  {
    forall t | t in s.calls
      ensures Pin(s.calls[t]) != Some(o)
    {
    }
    PinsKept(s, s');
  }

  lemma StillReferenced(s: State, o: nat)
    requires WellFormed(s, {o}) && !Collectable(s, o)
    ensures WellFormed(s, {})
  {
  }

  /** An object whose last reference went is destroyed, and its handle freed. */
  lemma CollectKeeps(s: State, owner: map<nat, Owner>, o: nat)
    requires InvExcept(s, owner, {o})
    ensures Inv(Collect(s, o))
  {
    hide Accounted, ObjectsOwn, CallsOwn, Referenced, PayloadsFit, TakenOnce;
    if Collectable(s, o) {
      CollectAccounted(s, owner, o);
      CollectObjectsOwn(s, owner, o);
      CollectCallsOwn(s, owner, o);
      CollectWellFormed(s, Collect(s, o), o);
      assert InvBy(Collect(s, o), CollectOwner(s, owner, o));
    } else {
      StillReferenced(s, o);
      assert InvBy(s, owner);
    }
  }

  // ----- Every step keeps the invariant -----

  lemma NewLoaderKeeps(s: State, t: nat, ok: bool)
    requires Inv(s)
    ensures Inv(StepNew(s, t, ok, LoaderHandle))
  {
    hide InvBy;
    var owner :| InvBy(s, owner);
    if t !in s.calls && ok {
      Obtain(s, owner, t, Attaching(Loader(Some(|s.handles|)), None), LoaderHandle);
    }
  }

  lemma NewCreatorKeeps(s: State, t: nat, ok: bool)
    requires Inv(s)
    ensures Inv(StepNew(s, t, ok, EncoderHandle))
  {
    hide InvBy;
    var owner :| InvBy(s, owner);
    if t !in s.calls && ok {
      Obtain(s, owner, t, Attaching(Creator(|s.handles|), None), EncoderHandle);
    }
  }

  ghost predicate CanAttach(s: State, t: nat) {
    t in s.calls && s.calls[t].Attaching?
  }

  /** The handle passes from the call to the new object. */
  ghost function AttachOwner(s: State, owner: map<nat, Owner>, t: nat): map<nat, Owner>
    requires CanAttach(s, t)
  {
    var held := Held(s.calls[t].state);
    if held.Some? then owner[held.value := ByObject(s.nextObject)] else owner
  }

  lemma AttachAccounted(s: State, owner: map<nat, Owner>, t: nat)
    requires Owned(s, owner) && CanAttach(s, t)
    ensures Accounted(StepAttach(s, t, true), AttachOwner(s, owner, t))
  {
    assert CallHeld(s.calls[t]) == Held(s.calls[t].state);
  }

  lemma AttachObjectsOwn(s: State, owner: map<nat, Owner>, t: nat)
    requires InvBy(s, owner) && CanAttach(s, t)
    ensures ObjectsOwn(StepAttach(s, t, true), AttachOwner(s, owner, t))
  {
    assert CallHeld(s.calls[t]) == Held(s.calls[t].state);
    assert s.nextObject !in s.objects;
  }

  /** A call that ends or owns nothing any more leaves the other calls' handles alone. */
  lemma CallLetsGo(s: State, s': State, owner: map<nat, Owner>, owner': map<nat, Owner>, t: nat)
    requires CallsOwn(s, owner) && s'.handles == s.handles
    requires s'.calls - {t} == s.calls - {t} && (t in s'.calls ==> CallHeld(s'.calls[t]).None?)
    requires forall h :: h in owner && owner[h] != ByCall(t) ==> h in owner' && owner'[h] == owner[h]
    requires forall h :: h in owner' && owner'[h].ByCall? ==> h in owner && owner[h] == owner'[h] != ByCall(t)
    ensures CallsOwn(s', owner')
  {
    forall k | k in s'.calls && k != t
      ensures k in s.calls && s'.calls[k] == s.calls[k]
    {
      assert k in s'.calls - {t};
    }
    forall k | k in s.calls && k != t
      ensures k in s'.calls
    {
      assert k in s.calls - {t};
    }
  }

  lemma AttachCallsOwn(s: State, owner: map<nat, Owner>, t: nat)
    requires Owned(s, owner) && CanAttach(s, t)
    ensures CallsOwn(StepAttach(s, t, true), AttachOwner(s, owner, t))
  {
    assert CallHeld(s.calls[t]) == Held(s.calls[t].state);
    CallLetsGo(s, StepAttach(s, t, true), owner, AttachOwner(s, owner, t), t);
  }

  lemma AttachReferenced(s: State, t: nat)
    requires Referenced(s, {}) && CanAttach(s, t)
    ensures Referenced(StepAttach(s, t, true), {})
  {
    hide NoneIdle;
    NoneIdleKept(s, StepAttach(s, t, true));
  }

  lemma AttachPayloadsFit(s: State, t: nat)
    requires PayloadsFit(s) && CanAttach(s, t)
    ensures PayloadsFit(StepAttach(s, t, true))
  {
  }

  lemma AttachTakenOnce(s: State, t: nat)
    requires PayloadsFit(s) && TakenOnce(s) && CanAttach(s, t)
    ensures TakenOnce(StepAttach(s, t, true))
  {
    assert s.nextObject !in s.taken;
  }

  lemma AttachWellFormed(s: State, t: nat)
    requires WellFormed(s, {}) && CanAttach(s, t)
    ensures WellFormed(StepAttach(s, t, true), {})
  {
    AttachReferenced(s, t);
    AttachPayloadsFit(s, t);
    AttachTakenOnce(s, t);
  }

  lemma AttachKeeps(s: State, t: nat)
    requires Inv(s)
    ensures Inv(StepAttach(s, t, true))
  {
    hide Accounted, ObjectsOwn, CallsOwn, Referenced, PayloadsFit, TakenOnce;
    var owner :| InvBy(s, owner);
    if CanAttach(s, t) {
      AttachAccounted(s, owner, t);
      AttachObjectsOwn(s, owner, t);
      AttachCallsOwn(s, owner, t);
      AttachWellFormed(s, t);
      assert InvBy(StepAttach(s, t, true), AttachOwner(s, owner, t));
    }
  }

  /** A call that pins nothing ends, owning nothing. */
  lemma End(s: State, owner: map<nat, Owner>, t: nat)
    requires InvBy(s, owner) && t in s.calls && Pin(s.calls[t]).None? && CallHeld(s.calls[t]).None?
    ensures Inv(s.(calls := s.calls - {t}))
  {
    var s' := s.(calls := s.calls - {t});
    PinsKept(s, s');
    CallLetsGo(s, s', owner, owner, t);
    assert InvBy(s', owner);
  }

  ghost function AfterFailedAttach(c: Call): Call
    requires c.Attaching?
  {
    if c.pin.Some? then Finishing(c.pin.value) else Attaching(Frame, None)
  }

  lemma FailedAttachShape(s: State, t: nat)
    requires CanAttach(s, t)
    ensures var c := s.calls[t];
            var u := Goto(DropState(s, c.state), t, AfterFailedAttach(c));
            StepAttach(s, t, false) == if c.pin.Some? then u else u.(calls := u.calls - {t})
  {
    var c := s.calls[t];
    var u := Goto(DropState(s, c.state), t, AfterFailedAttach(c));
    assert DropState(s, c.state).calls == s.calls;
    assert u.calls - {t} == s.calls - {t};
  }

  lemma DropKeeps(s: State, owner: map<nat, Owner>, t: nat) returns (owner': map<nat, Owner>)
    requires InvBy(s, owner) && CanAttach(s, t)
    ensures InvBy(Goto(DropState(s, s.calls[t].state), t, AfterFailedAttach(s.calls[t])), owner')
  {
    hide InvBy;
    var held := Held(s.calls[t].state);
    if s.calls[t].pin.Some? {
      PinnedObject(s, owner, t);
    }
    if held.Some? {
      Release(s, owner, t, AfterFailedAttach(s.calls[t]));
      owner' := owner - {held.value};
    } else {
      MoveOn(s, owner, t, AfterFailedAttach(s.calls[t]));
      owner' := owner;
    }
  }

  /** The state that could not be attached is dropped with its handle. */
  lemma AttachFailsKeeps(s: State, t: nat)
    requires Inv(s)
    ensures Inv(StepAttach(s, t, false))
  {
    hide InvBy;
    var owner :| InvBy(s, owner);
    if CanAttach(s, t) {
      var owner' := DropKeeps(s, owner, t);
      FailedAttachShape(s, t);
      if s.calls[t].pin.None? {
        End(Goto(DropState(s, s.calls[t].state), t, AfterFailedAttach(s.calls[t])), owner', t);
      }
    }
  }

  ghost function Unreferenced(s: State, o: nat): State
    requires o in s.objects && s.objects[o].refs > 0
  {
    s.(objects := s.objects[o := s.objects[o].(refs := s.objects[o].refs - 1)])
  }

  lemma UnrefOwned(s: State, owner: map<nat, Owner>, o: nat)
    requires Owned(s, owner) && o in s.objects && s.objects[o].refs > 0
    ensures Owned(Unreferenced(s, o), owner)
  {
  }

  lemma UnrefWellFormed(s: State, o: nat)
    requires WellFormed(s, {}) && o in s.objects && s.objects[o].refs > 0
    ensures WellFormed(Unreferenced(s, o), {o})
  {
    PinsKept(s, Unreferenced(s, o));
  }

  lemma UnrefKeeps(s: State, o: nat)
    requires Inv(s)
    ensures Inv(StepUnref(s, o))
  {
    hide Accounted, ObjectsOwn, CallsOwn, Referenced, PayloadsFit, TakenOnce;
    var owner :| InvBy(s, owner);
    if o in s.objects && s.objects[o].refs > 0 {
      UnrefOwned(s, owner, o);
      UnrefWellFormed(s, o);
      CollectKeeps(Unreferenced(s, o), owner, o);
    }
  }

  ghost function Ended(s: State, t: nat): State {
    s.(calls := s.calls - {t})
  }

  lemma FinishOwned(s: State, owner: map<nat, Owner>, t: nat)
    requires Owned(s, owner) && t in s.calls && s.calls[t].Finishing?
    ensures Owned(Ended(s, t), owner)
  {
    CallLetsGo(s, Ended(s, t), owner, owner, t);
  }

  lemma FinishWellFormed(s: State, t: nat)
    requires WellFormed(s, {}) && t in s.calls && s.calls[t].Finishing?
    ensures WellFormed(Ended(s, t), {s.calls[t].source})
  {
    var u := Ended(s, t);
    forall x | x in s.objects && x != s.calls[t].source && Pinned(s, x)
      ensures Pinned(u, x)
    {
      var k :| k in s.calls && Pin(s.calls[k]) == Some(x);
      assert k in u.calls && Pin(u.calls[k]) == Some(x);
    }
  }

  lemma FinishKeeps(s: State, t: nat)
    requires Inv(s)
    ensures Inv(StepFinish(s, t))
  {
    hide Accounted, ObjectsOwn, CallsOwn, Referenced, PayloadsFit, TakenOnce;
    var owner :| InvBy(s, owner);
    if t in s.calls && s.calls[t].Finishing? {
      var o := s.calls[t].source;
      FinishOwned(s, owner, t);
      FinishWellFormed(s, t);
      CollectKeeps(Ended(s, t), owner, o);
    }
  }

  lemma RefKeeps(s: State, o: nat)
    requires Inv(s)
    ensures Inv(StepRef(s, o))
  {
    hide Accounted, ObjectsOwn, CallsOwn, Referenced, PayloadsFit, TakenOnce;
    var owner :| InvBy(s, owner);
    RefOwned(s, owner, o);
    RefWellFormed(s, o);
    assert InvBy(StepRef(s, o), owner);
  }

  lemma RefWellFormed(s: State, o: nat)
    requires WellFormed(s, {})
    ensures WellFormed(StepRef(s, o), {})
  {
    PinsKept(s, StepRef(s, o));
  }

  lemma RefOwned(s: State, owner: map<nat, Owner>, o: nat)
    requires Owned(s, owner)
    ensures Owned(StepRef(s, o), owner)
  {
  }

  lemma EncodeKeeps(s: State, t: nat, o: nat, ok: bool)
    requires Inv(s)
    ensures Inv(StepEncode(s, t, o, ok))
  {
    hide Accounted, ObjectsOwn, CallsOwn, Referenced, PayloadsFit, TakenOnce;
    var owner :| InvBy(s, owner);
    if Callable(s, t, o) && s.objects[o].state.Creator? {
      HeldLive(s, owner, o);
      if ok {
        Obtain(s, owner, t, Attaching(Encoded(|s.handles|), Some(o)), EncodedHandle);
      } else {
        MoveOn(s, owner, t, Finishing(o));
      }
    }
  }

  /** The `take`: the handle passes from the object to the call, and cannot be taken again. */
  lemma TakeKeeps(s: State, t: nat)
    requires Inv(s)
    ensures Inv(StepTake(s, t))
  {
    hide Accounted, ObjectsOwn, CallsOwn, Referenced, PayloadsFit, TakenOnce;
    var owner :| InvBy(s, owner);
    if CanTake(s, t) {
      TakeAccounted(s, owner, t);
      TakeObjectsOwn(s, owner, t);
      TakeCallsOwn(s, owner, t);
      TakeWellFormed(s, t);
      assert InvBy(StepTake(s, t), TakeOwner(s, owner, t));
    } else if t in s.calls && s.calls[t].Taking? {
      PinnedObject(s, owner, t);
      MoveOn(s, owner, t, Finishing(s.calls[t].loader));
    }
  }

  ghost predicate CanTake(s: State, t: nat) {
    && t in s.calls && s.calls[t].Taking? && s.calls[t].loader in s.objects
    && s.objects[s.calls[t].loader].state.Loader? && s.objects[s.calls[t].loader].state.inner.Some?
  }

  ghost function TakeOwner(s: State, owner: map<nat, Owner>, t: nat): map<nat, Owner>
    requires CanTake(s, t)
  {
    owner[s.objects[s.calls[t].loader].state.inner.value := ByCall(t)]
  }

  lemma TakenFrom(s: State, owner: map<nat, Owner>, t: nat)
    requires ObjectsOwn(s, owner) && CanTake(s, t)
    ensures var o := s.calls[t].loader;
            var h := s.objects[o].state.inner.value;
            h in owner && owner[h] == ByObject(o) && h < |s.handles| && HandleFits(s.handles[h], LoaderHandle, false)
  {
    assert Held(s.objects[s.calls[t].loader].state).Some?;
  }

  lemma TakeAccounted(s: State, owner: map<nat, Owner>, t: nat)
    requires Owned(s, owner) && CanTake(s, t)
    ensures Accounted(StepTake(s, t), TakeOwner(s, owner, t))
  {
    TakenFrom(s, owner, t);
  }

  lemma TakeObjectsOwn(s: State, owner: map<nat, Owner>, t: nat)
    requires Owned(s, owner) && CanTake(s, t)
    ensures ObjectsOwn(StepTake(s, t), TakeOwner(s, owner, t))
  {
    TakenFrom(s, owner, t);
  }

  lemma TakeCallsOwn(s: State, owner: map<nat, Owner>, t: nat)
    requires Owned(s, owner) && CanTake(s, t)
    ensures CallsOwn(StepTake(s, t), TakeOwner(s, owner, t))
  {
    TakenFrom(s, owner, t);
    var s' := StepTake(s, t);
    assert CallHeld(s'.calls[t]) == s.objects[s.calls[t].loader].state.inner;
    assert forall k :: k in s'.calls && k != t ==> k in s.calls && s'.calls[k] == s.calls[k];
    assert s'.handles == s.handles;
  }

  lemma TakeReferenced(s: State, t: nat)
    requires Referenced(s, {}) && CanTake(s, t)
    ensures Referenced(StepTake(s, t), {})
  {
    hide NoneIdle;
    NoneIdleKept(s, StepTake(s, t));
  }

  lemma TakePayloadsFit(s: State, t: nat)
    requires PayloadsFit(s) && CanTake(s, t)
    ensures PayloadsFit(StepTake(s, t))
  {
  }

  lemma TakeTakenOnce(s: State, t: nat)
    requires Referenced(s, {}) && TakenOnce(s) && CanTake(s, t)
    ensures TakenOnce(StepTake(s, t))
  {
  }

  lemma TakeWellFormed(s: State, t: nat)
    requires WellFormed(s, {}) && CanTake(s, t)
    ensures WellFormed(StepTake(s, t), {})
  {
    TakeReferenced(s, t);
    TakePayloadsFit(s, t);
    TakeTakenOnce(s, t);
  }

  /** A loader call empties or refills the handle it owns. */
  ghost function WithInner(s: State, h: nat, inner: bool): State
    requires h < |s.handles|
  {
    s.(handles := s.handles[h := s.handles[h].(inner := inner)])
  }

  ghost predicate Refits(s: State, t: nat, c: Call, h: nat) {
    && t in s.calls && h < |s.handles|
    && CallHeld(s.calls[t]) == Some(h) == CallHeld(c) && CallKind(s.calls[t]) == CallKind(c) == LoaderHandle
  }

  lemma RefitOwned(s: State, owner: map<nat, Owner>, t: nat, c: Call, h: nat)
    requires Owned(s, owner) && Refits(s, t, c, h)
    ensures Accounted(Goto(WithInner(s, h, !c.Modifying?), t, c), owner)
    ensures ObjectsOwn(Goto(WithInner(s, h, !c.Modifying?), t, c), owner)
  {
  }

  lemma RefitCallsOwn(s: State, owner: map<nat, Owner>, t: nat, c: Call, h: nat)
    requires Owned(s, owner) && Refits(s, t, c, h)
    ensures CallsOwn(Goto(WithInner(s, h, !c.Modifying?), t, c), owner)
  {
  }

  lemma Refit(s: State, owner: map<nat, Owner>, t: nat, c: Call, h: nat)
    requires InvBy(s, owner) && Refits(s, t, c, h) && Continues(s, t, c)
    ensures InvBy(Goto(WithInner(s, h, !c.Modifying?), t, c), owner)
  {
    RefitOwned(s, owner, t, c, h);
    RefitCallsOwn(s, owner, t, c, h);
    GotoWellFormed(s, Goto(WithInner(s, h, !c.Modifying?), t, c), t, c);
  }

  lemma LoaderHeld(s: State, owner: map<nat, Owner>, t: nat)
    requires Owned(s, owner) && t in s.calls && (s.calls[t].Configuring? || s.calls[t].Modifying?)
    ensures var h := s.calls[t].handle; Live(s, h) && s.handles[h].inner == s.calls[t].Configuring?
  {
    assert CallHeld(s.calls[t]) == Some(s.calls[t].handle);
  }

  lemma BeginModifyKeeps(s: State, t: nat)
    requires Inv(s)
    ensures Inv(StepBeginModify(s, t))
  {
    hide Accounted, ObjectsOwn, CallsOwn, Referenced, PayloadsFit, TakenOnce;
    var owner :| InvBy(s, owner);
    if t in s.calls && s.calls[t].Configuring? {
      var h := s.calls[t].handle;
      var c := Modifying(s.calls[t].job, h);
      PinnedObject(s, owner, t);
      LoaderHeld(s, owner, t);
      Refit(s, owner, t, c, h);
      assert StepBeginModify(s, t) == Goto(WithInner(s, h, false), t, c);
    }
  }

  lemma EndModifyKeeps(s: State, t: nat)
    requires Inv(s)
    ensures Inv(StepEndModify(s, t))
  {
    hide Accounted, ObjectsOwn, CallsOwn, Referenced, PayloadsFit, TakenOnce;
    var owner :| InvBy(s, owner);
    if t in s.calls && s.calls[t].Modifying? {
      var h := s.calls[t].handle;
      var c := Configuring(s.calls[t].job, h);
      PinnedObject(s, owner, t);
      LoaderHeld(s, owner, t);
      Refit(s, owner, t, c, h);
      assert StepEndModify(s, t) == Goto(WithInner(s, h, true), t, c);
    }
  }

  lemma GotoTwice(s: State, t: nat, c: Call, d: Call, kind: Kind)
    ensures Goto(Allocate(Goto(s, t, c), kind), t, d) == Goto(Allocate(s, kind), t, d)
    ensures |Goto(s, t, c).handles| == |s.handles|
  {
  }

  lemma RunLoadShape(s: State, t: nat)
    requires t in s.calls && s.calls[t].Configuring?
    requires Live(s, s.calls[t].handle) && s.handles[s.calls[t].handle].inner
    ensures var job, h := s.calls[t].job, s.calls[t].handle;
            && StepRunLoad(s, t, false) == Goto(Free(s, h), t, Failed(job))
            && StepRunLoad(s, t, true) == Goto(Allocate(Free(s, h), ImageHandle), t, Inspecting(job, |s.handles|))
  {
    assert Consume(s, s.calls[t].handle) == Free(s, s.calls[t].handle);
  }

  /** A load freed its loader handle and was given an image instead. */
  lemma Exchange(s: State, owner: map<nat, Owner>, t: nat, job: Job)
    requires t in s.calls && s.calls[t] == Failed(job)
    requires InvBy(s, owner) && Continues(s, t, Inspecting(job, |s.handles|))
    ensures InvBy(Goto(Allocate(s, ImageHandle), t, Inspecting(job, |s.handles|)), owner[|s.handles| := ByCall(t)])
  {
    Obtain(s, owner, t, Inspecting(job, |s.handles|), ImageHandle);
  }

  /** The engine's load frees the loader handle, then perhaps hands out an image. */
  lemma RunLoadKeeps(s: State, t: nat, ok: bool)
    requires Inv(s)
    ensures Inv(StepRunLoad(s, t, ok))
  {
    hide Accounted, ObjectsOwn, CallsOwn, Referenced, PayloadsFit, TakenOnce;
    var owner :| InvBy(s, owner);
    if t in s.calls && s.calls[t].Configuring? {
      var job, h := s.calls[t].job, s.calls[t].handle;
      LoaderHeld(s, owner, t);
      RunLoadShape(s, t);
      PinnedObject(s, owner, t);
      Release(s, owner, t, Failed(job));
      if ok {
        Exchange(Goto(Free(s, h), t, Failed(job)), owner - {h}, t, job);
        GotoTwice(Free(s, h), t, Failed(job), Inspecting(job, |s.handles|), ImageHandle);
      }
    }
  }

  lemma InspectKeeps(s: State, t: nat, ok: bool, n: nat)
    requires Inv(s)
    ensures Inv(StepInspect(s, t, ok, n))
  {
    hide Accounted, ObjectsOwn, CallsOwn, Referenced, PayloadsFit, TakenOnce;
    var owner :| InvBy(s, owner);
    if t in s.calls && s.calls[t].Inspecting? {
      var h := s.calls[t].handle;
      PinnedObject(s, owner, t);
      CallHeldLive(s, owner, t);
      match s.calls[t].job {
        case LoadJob(o) =>
          Carry(s, owner, t, Attaching(Image(h, n, 0, ok), Some(o)));
        case RerenderJob(o, loop) =>
          Release(s, owner, t, if ok then Attaching(Frame, Some(o)) else Advancing(o, loop));
      }
    }
  }

  lemma DecideKeeps(s: State, t: nat, scaled: bool, loop: bool, ok: bool)
    requires Inv(s)
    ensures Inv(StepDecide(s, t, scaled, loop, ok))
  {
    hide Accounted, ObjectsOwn, CallsOwn, Referenced, PayloadsFit, TakenOnce;
    var owner :| InvBy(s, owner);
    if t in s.calls && s.calls[t].Deciding? && s.calls[t].image in s.objects {
      var o := s.calls[t].image;
      PinnedObject(s, owner, t);
      HeldLive(s, owner, o);
      if s.objects[o].state.rerender && scaled && ok {
        Obtain(s, owner, t, Configuring(RerenderJob(o, loop), |s.handles|), LoaderHandle);
      } else {
        MoveOn(s, owner, t, Advancing(o, loop));
      }
    }
  }

  /** The frame index handed to extraction exists, because the cursor never passes the last frame. */
  lemma AdvanceKeeps(s: State, t: nat)
    requires Inv(s)
    ensures Inv(StepAdvance(s, t))
  {
    hide Accounted, ObjectsOwn, CallsOwn, Referenced, PayloadsFit, TakenOnce;
    var owner :| InvBy(s, owner);
    if t in s.calls && s.calls[t].Advancing? {
      AdvanceOwned(s, owner, t);
      AdvanceWellFormed(s, t);
      assert InvBy(StepAdvance(s, t), owner);
    }
  }

  lemma AdvanceOwned(s: State, owner: map<nat, Owner>, t: nat)
    requires InvBy(s, owner) && t in s.calls && s.calls[t].Advancing?
    ensures Owned(StepAdvance(s, t), owner)
  {
    AdvanceObjectsOwn(s, owner, t);
    AdvanceCallsOwn(s, owner, t);
  }

  lemma AdvanceObjectsOwn(s: State, owner: map<nat, Owner>, t: nat)
    requires ObjectsOwn(s, owner) && t in s.calls && s.calls[t].Advancing?
    ensures ObjectsOwn(StepAdvance(s, t), owner)
  {
  }

  lemma AdvanceCallsOwn(s: State, owner: map<nat, Owner>, t: nat)
    requires CallsOwn(s, owner) && t in s.calls && s.calls[t].Advancing?
    ensures CallsOwn(StepAdvance(s, t), owner)
  {
  }

  lemma AdvanceReferenced(s: State, t: nat)
    requires Referenced(s, {}) && PayloadsFit(s) && t in s.calls && s.calls[t].Advancing?
    ensures Referenced(StepAdvance(s, t), {})
  {
    hide NoneIdle;
    var s' := StepAdvance(s, t);
    assert Pin(s.calls[t]) == Some(s.calls[t].image) == Pin(s'.calls[t]);
    NoneIdleKept(s, s');
    assert PinFits(s'.calls[t], s'.objects[s.calls[t].image].state);
  }

  lemma AdvanceWellFormed(s: State, t: nat)
    requires WellFormed(s, {}) && t in s.calls && s.calls[t].Advancing?
    ensures WellFormed(StepAdvance(s, t), {})
  {
    AdvanceReferenced(s, t);
    assert TakenOnce(StepAdvance(s, t));
  }

  lemma ExtractKeeps(s: State, t: nat, ok: bool)
    requires Inv(s)
    ensures Inv(StepExtract(s, t, ok))
  {
    hide Accounted, ObjectsOwn, CallsOwn, Referenced, PayloadsFit, TakenOnce;
    var owner :| InvBy(s, owner);
    if t in s.calls && s.calls[t].Extracting? {
      var o := s.calls[t].image;
      var c := if ok then Attaching(Frame, Some(o)) else Finishing(o);
      PinnedObject(s, owner, t);
      HeldLive(s, owner, o);
      MoveOn(s, owner, t, c);
      assert StepExtract(s, t, ok) == Goto(s, t, c);
    }
  }

  lemma RequestKeeps(s: State, t: nat)
    requires Inv(s)
    ensures Inv(StepRequest(s, t))
  {
    hide InvBy;
    var owner :| InvBy(s, owner);
    if t !in s.calls {
      MoveOn(s, owner, t, Attaching(Request, None));
    }
  }

  lemma StartLoadKeeps(s: State, t: nat, o: nat)
    requires Inv(s)
    ensures Inv(StepStartLoad(s, t, o))
  {
    hide InvBy;
    var owner :| InvBy(s, owner);
    if Callable(s, t, o) && s.objects[o].state.Loader? {
      MoveOn(s, owner, t, Taking(o));
    }
  }

  lemma StartFrameKeeps(s: State, t: nat, o: nat)
    requires Inv(s)
    ensures Inv(StepStartFrame(s, t, o))
  {
    hide InvBy;
    var owner :| InvBy(s, owner);
    if Callable(s, t, o) && s.objects[o].state.Image? {
      MoveOn(s, owner, t, Deciding(o));
    }
  }

  lemma UseObjectKeeps(s: State, o: nat)
    requires Inv(s)
    ensures StepUseObject(s, o) == s
  {
    var owner :| InvBy(s, owner);
  }

  lemma StepKeeps(s: State, a: Action)
    requires Inv(s)
    ensures Inv(Step(s, a))
  {
    hide Inv;
    match a
    case NewLoader(t, ok) => NewLoaderKeeps(s, t, ok);
    case NewRequest(t) => RequestKeeps(s, t);
    case NewCreator(t, ok) => NewCreatorKeeps(s, t, ok);
    case Attach(t, ok) =>
      if ok {
        AttachKeeps(s, t);
      } else {
        AttachFailsKeeps(s, t);
      }
    case Ref(o) => RefKeeps(s, o);
    case Unref(o) => UnrefKeeps(s, o);
    case UseObject(o) => UseObjectKeeps(s, o);
    case StartLoad(t, o) => StartLoadKeeps(s, t, o);
    case StartFrame(t, o) => StartFrameKeeps(s, t, o);
    case Encode(t, o, ok) => EncodeKeeps(s, t, o, ok);
    case TakeLoader(t) => TakeKeeps(s, t);
    case BeginModify(t) => BeginModifyKeeps(s, t);
    case EndModify(t) => EndModifyKeeps(s, t);
    case RunLoad(t, ok) => RunLoadKeeps(s, t, ok);
    case Inspect(t, ok, n) => InspectKeeps(s, t, ok, n);
    case Decide(t, scaled, loop, ok) => DecideKeeps(s, t, scaled, loop, ok);
    case Advance(t) => AdvanceKeeps(s, t);
    case Extract(t, ok) => ExtractKeeps(s, t, ok);
    case Finish(t) => FinishKeeps(s, t);
  }

  lemma {:induction false} RunKeeps(s: State, actions: seq<Action>)
    requires Inv(s)
    ensures Inv(Run(s, actions))
    decreases |actions|
  {
    if |actions| != 0 {
      StepKeeps(s, actions[0]);
      RunKeeps(Step(s, actions[0]), actions[1..]);
    }
  }

  /** Whatever the interleaving, somebody is responsible for every live handle. */
  lemma ReachedBy(actions: seq<Action>) returns (s: State, owner: map<nat, Owner>)
    ensures s == Run(INITIAL, actions) && InvBy(s, owner)
  {
    InitialInv();
    RunKeeps(INITIAL, actions);
    s := Run(INITIAL, actions);
    owner :| InvBy(s, owner);
  }

  // ----- What single steps do to a handle -----

  ghost predicate OnlyObjectHolds(s: State, h: nat, o: nat) {
    && (forall k :: k in s.objects ==> (Held(s.objects[k].state) == Some(h) <==> k == o))
    && (forall k :: k in s.calls ==> CallHeld(s.calls[k]) != Some(h))
  }

  ghost predicate OnlyCallHolds(s: State, h: nat, t: nat) {
    && (forall k :: k in s.objects ==> Held(s.objects[k].state) != Some(h))
    && (forall k :: k in s.calls ==> (CallHeld(s.calls[k]) == Some(h) <==> k == t))
  }

  /** Handle `h` goes from live to released, for the first time; the other handles stay. */
  ghost predicate Releases(s: State, s': State, h: nat) {
    && Live(s, h) && s.handles[h].released == 0
    && h < |s.handles| <= |s'.handles| && !s'.handles[h].live && s'.handles[h].released == 1
    && forall k :: 0 <= k < |s.handles| && k != h ==> s'.handles[k] == s.handles[k]
  }

  /** Holding a handle is owning it, so nobody else does. */
  lemma OwnerHolds(s: State, owner: map<nat, Owner>, h: nat)
    requires ObjectsOwn(s, owner) && CallsOwn(s, owner) && h in owner
    ensures owner[h].ByObject? ==> OnlyObjectHolds(s, h, owner[h].o)
    ensures owner[h].ByCall? ==> OnlyCallHolds(s, h, owner[h].t)
  {
  }

  lemma SoleObject(s: State, o: nat) returns (h: nat)
    requires Inv(s) && o in s.objects && Held(s.objects[o].state).Some?
    ensures Held(s.objects[o].state) == Some(h) && OnlyObjectHolds(s, h, o)
    ensures Live(s, h) && s.handles[h].released == 0
    ensures s.handles[h].kind == HeldKind(s.objects[o].state)
  {
    hide CallsOwn, WellFormed, OnlyObjectHolds, OnlyCallHolds;
    var owner :| InvBy(s, owner);
    h := Held(s.objects[o].state).value;
    OwnerHolds(s, owner, h);
  }

  lemma SoleCall(s: State, t: nat) returns (h: nat)
    requires Inv(s) && t in s.calls && CallHeld(s.calls[t]).Some?
    ensures CallHeld(s.calls[t]) == Some(h) && OnlyCallHolds(s, h, t)
    ensures Live(s, h) && s.handles[h].released == 0
    ensures HandleFits(s.handles[h], CallKind(s.calls[t]), s.calls[t].Modifying?)
  {
    hide ObjectsOwn, WellFormed, OnlyObjectHolds, OnlyCallHolds;
    var owner :| InvBy(s, owner);
    h := CallHeld(s.calls[t]).value;
    OwnerHolds(s, owner, h);
  }

  /** The locked `take`: the handle leaves the object for the call, untouched, and had never been taken. */
  lemma TakePassesHandle(s: State, t: nat) returns (h: nat)
    requires Inv(s) && CanTake(s, t)
    ensures var s', o := StepTake(s, t), s.calls[t].loader;
            && OnlyObjectHolds(s, h, o) && OnlyCallHolds(s', h, t)
            && s'.handles == s.handles && Live(s', h)
            && o !in s.taken && s'.taken == s.taken + [o]
  {
    hide Inv, InvBy, OnlyObjectHolds, OnlyCallHolds;
    h := SoleObject(s, s.calls[t].loader);
    NotYetTaken(s, t);
    TakeKeeps(s, t);
    var h' := SoleCall(StepTake(s, t), t);
  }

  lemma NotYetTaken(s: State, t: nat)
    requires Inv(s) && CanTake(s, t)
    ensures s.calls[t].loader !in s.taken
  {
    var owner :| InvBy(s, owner);
  }

  /** A setter empties a full handle that its own call alone holds, before and after. */
  lemma SetterAlone(s: State, t: nat)
    requires Inv(s) && t in s.calls && s.calls[t].Configuring?
    ensures var s', h := StepBeginModify(s, t), s.calls[t].handle;
            && OnlyCallHolds(s, h, t) && OnlyCallHolds(s', h, t)
            && Live(s, h) && s.handles[h].inner && s'.handles == s.handles[h := s.handles[h].(inner := false)]
            && StepEndModify(s', t) == s
  {
    hide Inv, InvBy, OnlyCallHolds;
    var h := SoleCall(s, t);
    var s' := StepBeginModify(s, t);
    BeginModifyKeeps(s, t);
    assert s' == Goto(WithInner(s, h, false), t, Modifying(s.calls[t].job, h));
    var h' := SoleCall(s', t);
    assert StepEndModify(s', t).handles == s.handles && StepEndModify(s', t).calls == s.calls;
  }

  /** State that could not be attached is gone, with the handle it owned. */
  lemma FailedAttachReleases(s: State, t: nat) returns (h: nat)
    requires Inv(s) && CanAttach(s, t) && Held(s.calls[t].state).Some?
    ensures var s' := StepAttach(s, t, false);
            && Held(s.calls[t].state) == Some(h) && OnlyCallHolds(s, h, t)
            && Releases(s, s', h) && s'.objects == s.objects
            && (t in s'.calls ==> CallHeld(s'.calls[t]).None?)
  {
    hide Inv, InvBy, OnlyCallHolds;
    assert CallHeld(s.calls[t]) == Held(s.calls[t].state);
    h := SoleCall(s, t);
  }

  /** The engine's load releases the loader handle; on success the call alone holds a fresh image. */
  lemma LoadExchanges(s: State, t: nat, ok: bool) returns (h: nat)
    requires Inv(s) && t in s.calls && s.calls[t].Configuring?
    ensures var s', job, image := StepRunLoad(s, t, ok), s.calls[t].job, |s.handles|;
            && s.calls[t].handle == h && OnlyCallHolds(s, h, t) && Releases(s, s', h)
            && (ok ==> && |s'.handles| == image + 1 && Live(s', image) && s'.handles[image].kind == ImageHandle
                       && OnlyCallHolds(s', image, t) && s'.calls[t] == Inspecting(job, image))
            && (!ok ==> && |s'.handles| == image
                        && s'.calls[t] == match job
                                          case LoadJob(o) => Finishing(o)
                                          case RerenderJob(o, loop) => Advancing(o, loop))
  {
    hide Inv, InvBy, OnlyCallHolds;
    h := SoleCall(s, t);
    RunLoadShape(s, t);
    RunLoadKeeps(s, t, ok);
    if ok {
      var image := SoleCall(StepRunLoad(s, t, ok), t);
    }
  }

  /** A re-rendered image is released whether or not it had a frame; a loaded one goes on, untouched, to be attached. */
  lemma InspectedImage(s: State, t: nat, ok: bool, n: nat) returns (h: nat)
    requires Inv(s) && t in s.calls && s.calls[t].Inspecting?
    ensures var s', job := StepInspect(s, t, ok, n), s.calls[t].job;
            && s.calls[t].handle == h && OnlyCallHolds(s, h, t)
            && (job.RerenderJob? ==> Releases(s, s', h) && CallHeld(s'.calls[t]).None?)
            && (job.LoadJob? ==> && s'.handles == s.handles && OnlyCallHolds(s', h, t)
                                 && s'.calls[t] == Attaching(Image(h, n, 0, ok), Some(job.source)))
  {
    hide Inv, InvBy, OnlyCallHolds;
    h := SoleCall(s, t);
    InspectKeeps(s, t, ok, n);
    if s.calls[t].job.LoadJob? {
      var h' := SoleCall(StepInspect(s, t, ok, n), t);
    }
  }

  /** What `Collect` does to an object, seen from outside. */
  ghost predicate Destroys(s: State, s': State, o: nat)
    requires o in s.objects
  {
    && s'.objects == s.objects - {o}
    && match Held(s.objects[o].state)
       case Some(h) => Releases(s, s', h)
       case None => s'.handles == s.handles
  }

  /** Giving up a reference destroys the object and releases its handle exactly when it was the last of both kinds. */
  lemma LastUnrefReleases(s: State, o: nat)
    requires Inv(s) && o in s.objects && s.objects[o].refs > 0
    ensures var s' := StepUnref(s, o);
            && (o !in s'.objects <==> s.objects[o].refs == 1 && !Pinned(s, o))
            && (o !in s'.objects ==> Destroys(s, s', o))
            && (o in s'.objects ==> s'.handles == s.handles && s'.objects[o].refs == s.objects[o].refs - 1)
  {
    hide Inv, InvBy;
    if Held(s.objects[o].state).Some? {
      var h := SoleObject(s, o);
    }
    var u := Unreferenced(s, o);
    assert Pinned(u, o) <==> Pinned(s, o);
    assert StepUnref(s, o) == Collect(u, o) && u.objects - {o} == s.objects - {o};
  }

  /** A call giving up the last reference destroys the object it used in the same way. */
  lemma LastFinishReleases(s: State, t: nat)
    requires Inv(s) && t in s.calls && s.calls[t].Finishing?
    ensures var s', o := StepFinish(s, t), s.calls[t].source;
            && o in s.objects && s'.calls == s.calls - {t}
            && (o !in s'.objects <==> s.objects[o].refs == 0 && !Pinned(Ended(s, t), o))
            && (o !in s'.objects ==> Destroys(s, s', o))
            && (o in s'.objects ==> s'.handles == s.handles && s'.objects == s.objects)
  {
    hide InvBy;
    var owner :| InvBy(s, owner);
    PinnedObject(s, owner, t);
    var o := s.calls[t].source;
    if Held(s.objects[o].state).Some? {
      var h := SoleObject(s, o);
    }
  }

  // ----- What holds after every run -----

  /** No handle is used or freed after its release, and no setter or load finds its loader emptied. */
  lemma NeverUsedAfterRelease(actions: seq<Action>)
    ensures var s := Run(INITIAL, actions);
            && !s.fault && !s.refused
            && forall h :: 0 <= h < |s.handles| ==> s.handles[h].released == if s.handles[h].live then 0 else 1
  {
    var s, owner := ReachedBy(actions);
  }

  /** Racing loads: each loader object gives its handle to one of them at most. */
  lemma OneLoadPerLoader(actions: seq<Action>)
    ensures var taken := Run(INITIAL, actions).taken;
            forall i, j :: 0 <= i < j < |taken| ==> taken[i] != taken[j]
  {
    var s, owner := ReachedBy(actions);
  }

  /** A load that comes to a loader already taken ends without a handle, and changes nothing else. */
  lemma LateLoadFails(actions: seq<Action>, t: nat)
    ensures var s := Run(INITIAL, actions);
            t in s.calls && s.calls[t].Taking? && s.calls[t].loader in s.taken ==>
              StepTake(s, t) == Goto(s, t, Finishing(s.calls[t].loader))
  {
    var s, owner := ReachedBy(actions);
    if t in s.calls && s.calls[t].Taking? {
      assert Pin(s.calls[t]) == Some(s.calls[t].loader);
    }
  }

  /** Frames are only ever extracted at an index the image has. */
  lemma FrameIndexExists(actions: seq<Action>)
    ensures var s := Run(INITIAL, actions);
            forall t :: t in s.calls && s.calls[t].Extracting? ==>
              var o := s.calls[t].image;
              o in s.objects && s.objects[o].state.Image? && s.calls[t].index < s.objects[o].state.frameCount
  {
    var s, owner := ReachedBy(actions);
    forall t | t in s.calls && s.calls[t].Extracting?
      ensures s.calls[t].image in s.objects && PinFits(s.calls[t], s.objects[s.calls[t].image].state)
    {
      assert Pin(s.calls[t]) == Some(s.calls[t].image);
    }
  }

  /** Conservation: once no call runs and no reference is held, every handle was released exactly once. */
  lemma NothingLeaks(actions: seq<Action>)
    ensures var s := Run(INITIAL, actions);
            s.calls == map[] && (forall o :: o in s.objects ==> s.objects[o].refs == 0) ==>
              && s.objects == map[]
              && forall h :: 0 <= h < |s.handles| ==> !s.handles[h].live && s.handles[h].released == 1
  {
    var s, owner := ReachedBy(actions);
    if s.calls == map[] && forall o :: o in s.objects ==> s.objects[o].refs == 0 {
      assert forall o: nat :: !Pinned(s, o);
      assert forall o: nat :: o !in s.objects;
      assert forall h: nat :: h !in owner;
    }
  }
}
