/** What calls hand out: which frame each request extracts, and what the other steps of a call lead to. */
module HandleFrames {
  import opened Common
  import opened Handles
  import opened HandleSafety
  import opened HandleProgress
  import Cursor

  // ----- Frames in order -----

  /** The frame index that one step gives to a call on object `o`, read off the calls before and after. */
  function HandedOut(s: State, a: Action, s': State, o: nat): seq<nat> {
    match a
    case Advance(t) =>
      if t in s.calls && s.calls[t].Advancing? && s.calls[t].image == o
         && t in s'.calls && s'.calls[t].Extracting? && s'.calls[t].image == o
      then [s'.calls[t].index] else []
    case _ => []
  }

  /** All indices given to calls on `o` during a run, in order. */
  function Extracted(actions: seq<Action>, o: nat): seq<nat> {
    if |actions| == 0 then []
    else
      var before := actions[..|actions| - 1];
      var a := actions[|actions| - 1];
      var s := Run(INITIAL, before);
      Extracted(before, o) + HandedOut(s, a, Step(s, a), o)
  }

  /** Where a cursor stands after `k` extractions from `n` frames. */
  function CursorAt(k: nat, n: nat): nat {
    if k == 0 || n == 0 then 0 else (k - 1) % n + 1
  }

  /** Cursors tell how many frames were extracted. */
  ghost predicate CursorsTell(s: State, actions: seq<Action>) {
    && (forall o :: o in s.objects && s.objects[o].state.Image? ==>
                      var k, n := |Extracted(actions, o)|, s.objects[o].state.frameCount;
                      (n == 0 ==> k == 0) && s.objects[o].state.cursor == CursorAt(k, n))
    && (forall o :: o >= s.nextObject ==> Extracted(actions, o) == [])
    && (forall t :: t in s.calls && s.calls[t].Attaching? && s.calls[t].state.Image? ==> s.calls[t].state.cursor == 0)
  }

  /** Images in `s'` are those of `s`, except for one that `a` attached. */
  ghost predicate ImagesFrom(s: State, a: Action, s': State) {
    && s.nextObject <= s'.nextObject
    && (forall o :: o in s'.objects && s'.objects[o].state.Image? && o != s.nextObject ==>
                      o in s.objects && s'.objects[o].state == s.objects[o].state)
    && (s.nextObject in s'.objects && s'.objects[s.nextObject].state.Image? ==>
          s'.nextObject > s.nextObject && s'.objects[s.nextObject].state.cursor == 0)
  }

  ghost predicate AttachedFresh(s: State) {
    && s.nextObject !in s.objects
    && forall t :: t in s.calls && s.calls[t].Attaching? && s.calls[t].state.Image? ==> s.calls[t].state.cursor == 0
  }

  /** No step but `Advance` moves a cursor, and images are attached with the cursor at 0. */
  lemma ImagesStay(s: State, a: Action)
    requires AttachedFresh(s) && !a.Advance?
    ensures ImagesFrom(s, a, Step(s, a))
  {
    hide Pinned, Allocate, Use, Free, TakeInner, PutInner, Consume, DropState;
  }

  lemma AttachingStays(s: State, a: Action)
    requires AttachedFresh(s)
    ensures var s' := Step(s, a);
            forall t :: t in s'.calls && s'.calls[t].Attaching? && s'.calls[t].state.Image? ==>
                          s'.calls[t].state.cursor == 0
  {
    hide Pinned, Allocate, Use, Free, TakeInner, PutInner, Consume, DropState, Collect;
  }

  lemma ObjectsBelow(s: State)
    requires Inv(s)
    ensures forall o :: o in s.objects ==> o < s.nextObject
  {
    var owner :| InvBy(s, owner);
  }

  lemma {:induction false} CursorAtNext(k: nat, n: nat)
    requires n > 0
    ensures CursorAt(k, n) <= n
    ensures CursorAt(k, n) < n ==> k % n == CursorAt(k, n) && CursorAt(k + 1, n) == CursorAt(k, n) + 1
    ensures CursorAt(k, n) == n ==> k % n == 0 && k > 0 && CursorAt(k + 1, n) == 1
    ensures CursorAt(k, n) == n <==> k > 0 && k % n == 0
  {
    if k == 0 {
      Cursor.RemainderUnique(0, n, 0, 0);
    } else {
      Cursor.NextModulo(k - 1, n);
    }
  }

  /** The image a frame request works on is there, with a live handle and a cursor not past the last frame. */
  lemma RequestedImage(s: State, t: nat)
    requires Inv(s) && t in s.calls && (s.calls[t].Deciding? || s.calls[t].Advancing? || s.calls[t].Extracting?)
    ensures var o := Pin(s.calls[t]).value;
            && o in s.objects && s.objects[o].state.Image?
            && s.objects[o].state.cursor <= s.objects[o].state.frameCount && Live(s, s.objects[o].state.image)
  {
    hide CallsOwn, Accounted, TakenOnce;
    var owner :| InvBy(s, owner);
    PinnedObject(s, owner, t);
    HeldLive(s, owner, Pin(s.calls[t]).value);
  }

  /** The two outcomes of an `Advance` step, from the object's cursor. */
  lemma AdvanceOutcome(s: State, t: nat)
    requires Inv(s) && t in s.calls && s.calls[t].Advancing?
    ensures var o, loop := s.calls[t].image, s.calls[t].loop;
            && o in s.objects && s.objects[o].state.Image?
            && var p, s' := s.objects[o].state, Step(s, Advance(t));
            && t in s'.calls && s'.nextObject == s.nextObject
            && (if p.frameCount == 0 || (p.cursor == p.frameCount && !loop) then
                  s'.calls[t] == Finishing(o) && s'.objects == s.objects
                else
                  var i := if p.cursor == p.frameCount then 0 else p.cursor;
                  && s'.calls[t] == Extracting(o, i)
                  && s'.objects == s.objects[o := s.objects[o].(state := p.(cursor := i + 1))])
  {
    hide Inv;
    RequestedImage(s, t);
  }

  lemma ExtractedPush(actions: seq<Action>, a: Action, o: nat)
    ensures Extracted(actions + [a], o) ==
            Extracted(actions, o) + HandedOut(Run(INITIAL, actions), a, Step(Run(INITIAL, actions), a), o)
    ensures Run(INITIAL, actions + [a]) == Step(Run(INITIAL, actions), a)
  {
    assert (actions + [a])[..|actions|] == actions;
    RunConcat(INITIAL, actions, [a]);
    RunOne(Run(INITIAL, actions), a, []);
    assert [a] + [] == [a];
  }

  lemma TellAfterOther(actions: seq<Action>, a: Action)
    requires var s := Run(INITIAL, actions); Inv(s) && CursorsTell(s, actions) && !a.Advance?
    ensures CursorsTell(Run(INITIAL, actions + [a]), actions + [a])
  {
    hide Inv, Step, Run, Extracted;
    var s := Run(INITIAL, actions);
    ObjectsBelow(s);
    ImagesStay(s, a);
    AttachingStays(s, a);
    forall o: nat
      ensures Extracted(actions + [a], o) == Extracted(actions, o)
    {
      ExtractedPush(actions, a, o);
    }
    ExtractedPush(actions, a, 0);
  }

  lemma TellAfterAdvance(actions: seq<Action>, t: nat)
    requires var s := Run(INITIAL, actions); Inv(s) && CursorsTell(s, actions)
    ensures CursorsTell(Run(INITIAL, actions + [Advance(t)]), actions + [Advance(t)])
  {
    hide Inv, Step, Run, Extracted;
    var s, a := Run(INITIAL, actions), Advance(t);
    var s' := Step(s, a);
    ObjectsBelow(s);
    AttachingStays(s, a);
    forall o: nat
      ensures Extracted(actions + [a], o) == Extracted(actions, o) + HandedOut(s, a, s', o)
    {
      ExtractedPush(actions, a, o);
    }
    ExtractedPush(actions, a, 0);
    if t in s.calls && s.calls[t].Advancing? {
      AdvanceOutcome(s, t);
      var o := s.calls[t].image;
      if s.objects[o].state.frameCount > 0 {
        CursorAtNext(|Extracted(actions, o)|, s.objects[o].state.frameCount);
      }
    } else {
      NothingToAdvance(s, t);
    }
  }

  lemma NothingToAdvance(s: State, t: nat)
    requires !(t in s.calls && s.calls[t].Advancing?)
    ensures Step(s, Advance(t)) == s
  {
  }

  lemma {:induction false} CursorsAlwaysTell(actions: seq<Action>)
    ensures Inv(Run(INITIAL, actions)) && CursorsTell(Run(INITIAL, actions), actions)
    decreases |actions|
  {
    hide Inv;
    InitialInv();
    RunKeeps(INITIAL, actions);
    if |actions| != 0 {
      var before, a := actions[..|actions| - 1], actions[|actions| - 1];
      assert actions == before + [a];
      CursorsAlwaysTell(before);
      if a.Advance? {
        TellAfterAdvance(before, a.t);
      } else {
        TellAfterOther(before, a);
      }
    }
  }

  /**
   Over every interleaving: the k-th extraction from an image (counting from 0) gets frame k modulo the number of
   frames. A request ends without a frame exactly if there are none, or if it does not loop and some whole number of
   rounds has been extracted; then nothing about the image changes.
   */
  lemma FramesInOrder(actions: seq<Action>, t: nat)
    requires var s := Run(INITIAL, actions); t in s.calls && s.calls[t].Advancing?
    ensures var s := Run(INITIAL, actions);
            var o, loop := s.calls[t].image, s.calls[t].loop;
            && o in s.objects && s.objects[o].state.Image?
            && var s', k, n := Step(s, Advance(t)), |Extracted(actions, o)|, s.objects[o].state.frameCount;
            && t in s'.calls
            && (if n == 0 || (!loop && k > 0 && k % n == 0) then
                  s'.calls[t] == Finishing(o) && s'.objects == s.objects
                else s'.calls[t] == Extracting(o, k % n))
  {
    hide Inv, Step, Run, Extracted;
    var s := Run(INITIAL, actions);
    CursorsAlwaysTell(actions);
    AdvanceOutcome(s, t);
    var o := s.calls[t].image;
    if s.objects[o].state.frameCount > 0 {
      CursorAtNext(|Extracted(actions, o)|, s.objects[o].state.frameCount);
    }
  }

  /** The same over the whole history: while the image exists, its extractions are frames 0, 1, 2 and round again. */
  lemma {:induction false} ExtractedInOrder(actions: seq<Action>, o: nat, i: nat)
    requires var s := Run(INITIAL, actions); o in s.objects && s.objects[o].state.Image?
    requires i < |Extracted(actions, o)|
    ensures var n := Run(INITIAL, actions).objects[o].state.frameCount;
            n > 0 && Extracted(actions, o)[i] == i % n
    decreases |actions|
  {
    hide Inv, Step, Run;
    var before, a := actions[..|actions| - 1], actions[|actions| - 1];
    assert actions == before + [a];
    var s := Run(INITIAL, before);
    ExtractedPush(before, a, o);
    CursorsAlwaysTell(before);
    CursorsAlwaysTell(actions);
    ObjectsBelow(s);
    SameImage(s, a, o);
    if i < |Extracted(before, o)| {
      ExtractedInOrder(before, o, i);
    } else {
      assert a.Advance? && |HandedOut(s, a, Step(s, a), o)| == 1;
      FramesInOrder(before, a.t);
    }
  }

  /** An image with a history is no newcomer, and keeps its number of frames. */
  lemma SameImage(s: State, a: Action, o: nat)
    requires Inv(s) && AttachedFresh(s) && o in Step(s, a).objects && Step(s, a).objects[o].state.Image?
    ensures o in s.objects ==> s.objects[o].state.Image?
                               && s.objects[o].state.frameCount == Step(s, a).objects[o].state.frameCount
    ensures o !in s.objects ==> o >= s.nextObject && HandedOut(s, a, Step(s, a), o) == []
  {
    hide Inv, Step;
    ObjectsBelow(s);
    match a {
      case Advance(t) =>
        if t in s.calls && s.calls[t].Advancing? {
          AdvanceOutcome(s, t);
        } else {
          NothingToAdvance(s, t);
        }
      case _ =>
        ImagesStay(s, a);
    }
  }

  // ----- What the other steps lead to -----

  /** A new loader or encoder is a fresh live handle on its way into an object. */
  lemma NewHandleIsAttached(s: State, t: nat)
    requires Inv(s) && t !in s.calls
    ensures var h, l, c := |s.handles|, Step(s, NewLoader(t, true)), Step(s, NewCreator(t, true));
            && t in l.calls && l.calls[t] == Attaching(Loader(Some(h)), None)
            && Live(l, h) && l.handles[h].kind == LoaderHandle && l.handles[h].inner
            && t in c.calls && c.calls[t] == Attaching(Creator(h), None)
            && Live(c, h) && c.handles[h].kind == EncoderHandle
    ensures Step(s, NewLoader(t, false)) == s == Step(s, NewCreator(t, false))
    ensures Step(s, NewRequest(t)) == s.(calls := s.calls[t := Attaching(Request, None)])
  {
  }

  /** Attaching puts the state into a new object with one reference; the call goes on to its end. */
  lemma AttachedOnce(s: State, t: nat)
    requires Inv(s) && CanAttach(s, t)
    ensures var s', c := Step(s, Attach(t, true)), s.calls[t];
            && s.nextObject !in s.objects && s'.nextObject == s.nextObject + 1 && s'.handles == s.handles
            && s'.objects == s.objects[s.nextObject := Object(c.state, 1)]
            && (c.pin.Some? ==> t in s'.calls && s'.calls[t] == Finishing(c.pin.value))
            && (c.pin.None? ==> t !in s'.calls)
  {
    ObjectsBelow(s);
  }

  /** A frame request re-renders exactly when the image can be, another size is wanted, and a loader can be made. */
  lemma RerendersIff(s: State, t: nat, scaled: bool, loop: bool, ok: bool)
    requires Inv(s) && t in s.calls && s.calls[t].Deciding?
    ensures var s', o, h := Step(s, Decide(t, scaled, loop, ok)), s.calls[t].image, |s.handles|;
            && o in s.objects && s.objects[o].state.Image? && t in s'.calls && s'.objects == s.objects
            && (if s.objects[o].state.rerender && scaled && ok then
                  && s'.calls[t] == Configuring(RerenderJob(o, loop), h)
                  && Live(s', h) && s'.handles[h].kind == LoaderHandle && s'.handles[h].inner
                else s'.calls[t] == Advancing(o, loop) && s'.handles == s.handles)
  {
    hide Inv;
    RequestedImage(s, t);
  }

  /** After extraction the frame is attached; without a texture the call ends. The image is not touched. */
  lemma ExtractionAttaches(s: State, t: nat, ok: bool)
    requires Inv(s) && t in s.calls && s.calls[t].Extracting?
    ensures var s', o := Step(s, Extract(t, ok)), s.calls[t].image;
            && t in s'.calls && s'.calls[t] == (if ok then Attaching(Frame, Some(o)) else Finishing(o))
            && s'.objects == s.objects && s'.handles == s.handles
  {
    hide Inv;
    RequestedImage(s, t);
  }

  /** Encoding keeps the encoder and, on success, goes on to attach a fresh encoded image. */
  lemma EncodingAttaches(s: State, t: nat, o: nat, ok: bool)
    requires Inv(s) && Callable(s, t, o) && s.objects[o].state.Creator?
    ensures var s', h := Step(s, Encode(t, o, ok)), |s.handles|;
            && t in s'.calls && s'.objects == s.objects && s'.handles[..h] == s.handles
            && (ok ==> s'.calls[t] == Attaching(Encoded(h), Some(o))
                       && Live(s', h) && s'.handles[h].kind == EncodedHandle)
            && (!ok ==> s'.calls[t] == Finishing(o) && |s'.handles| == h)
  {
    hide Inv;
    var h := SoleObject(s, o);
  }

  /** A started call concerns the object it was started on; taking another reference only counts it. */
  lemma CallsStart(s: State, t: nat, o: nat)
    requires Callable(s, t, o)
    ensures s.objects[o].state.Loader? ==> Step(s, StartLoad(t, o)) == s.(calls := s.calls[t := Taking(o)])
    ensures s.objects[o].state.Image? ==> Step(s, StartFrame(t, o)) == s.(calls := s.calls[t := Deciding(o)])
    ensures var s' := Step(s, Ref(o));
            && s'.objects == s.objects[o := Object(s.objects[o].state, s.objects[o].refs + 1)]
            && s'.handles == s.handles && s'.calls == s.calls
  {
  }

  // ----- Uses -----

  /** The handle a step gives to the engine, as the program passes it. */
  function Touched(s: State, a: Action): Option<nat> {
    match a
    case UseObject(o) =>
      if o in s.objects && s.objects[o].refs > 0 && !s.objects[o].state.Loader? then Held(s.objects[o].state) else None
    case Encode(t, o, _) =>
      if Callable(s, t, o) && s.objects[o].state.Creator? then Some(s.objects[o].state.encoder) else None
    case BeginModify(t) => if t in s.calls && s.calls[t].Configuring? then Some(s.calls[t].handle) else None
    case EndModify(t) => if t in s.calls && s.calls[t].Modifying? then Some(s.calls[t].handle) else None
    case RunLoad(t, _) => if t in s.calls && s.calls[t].Configuring? then Some(s.calls[t].handle) else None
    case Inspect(t, _, _) => if t in s.calls && s.calls[t].Inspecting? then Some(s.calls[t].handle) else None
    case Decide(t, _, _, _) =>
      if t in s.calls && s.calls[t].Deciding? && s.calls[t].image in s.objects
      then Held(s.objects[s.calls[t].image].state) else None
    case Extract(t, _) =>
      if t in s.calls && s.calls[t].Extracting? && s.calls[t].image in s.objects
      then Held(s.objects[s.calls[t].image].state) else None
    case _ => None
  }

  /** From any state at all: giving the engine a dead handle, or an emptied loader, is noticed. */
  lemma DeadUseIsSeen(s: State, a: Action)
    requires Touched(s, a).Some?
    ensures var h := Touched(s, a).value;
            && (!Live(s, h) ==> Step(s, a).fault || !TouchesEngine(s, a))
            && (Live(s, h) && !s.handles[h].inner && (a.BeginModify? || a.RunLoad?) ==> Step(s, a).refused)
  {
  }

  /** A request that does not compare sizes leaves the engine alone, and so does a caller that owns no handle. */
  predicate TouchesEngine(s: State, a: Action) {
    match a
    case Decide(t, scaled, _, _) =>
      && t in s.calls && s.calls[t].Deciding? && s.calls[t].image in s.objects && scaled
      && s.objects[s.calls[t].image].state.Image? && s.objects[s.calls[t].image].state.rerender
    case Extract(t, _) =>
      && t in s.calls && s.calls[t].Extracting? && s.calls[t].image in s.objects
      && s.objects[s.calls[t].image].state.Image?
    case _ => true
  }

  /** Whatever a step gives to the engine is live and never released before; a loader is in its handle when needed. */
  lemma TouchedIsLive(actions: seq<Action>, a: Action)
    ensures var s, h := Run(INITIAL, actions), Touched(Run(INITIAL, actions), a);
            h.Some? ==> && Live(s, h.value) && s.handles[h.value].released == 0
                        && (a.BeginModify? || a.RunLoad? ==> s.handles[h.value].inner)
  {
    var s, owner := ReachedBy(actions);
    if Touched(s, a).Some? {
      TouchedOwned(s, owner, a);
      assert Touched(s, a).value in owner;
    }
  }

  lemma TouchedOwned(s: State, owner: map<nat, Owner>, a: Action)
    requires Owned(s, owner) && Touched(s, a).Some?
    ensures var h := Touched(s, a).value;
            h in owner && h < |s.handles| && (a.BeginModify? || a.RunLoad? ==> s.handles[h].inner)
  {
    hide Accounted;
    match a
    case UseObject(o) =>
    case Encode(t, o, _) => assert Held(s.objects[o].state) == Touched(s, a);
    case BeginModify(t) => assert CallHeld(s.calls[t]) == Touched(s, a);
    case EndModify(t) => assert CallHeld(s.calls[t]) == Touched(s, a);
    case RunLoad(t, _) => assert CallHeld(s.calls[t]) == Touched(s, a);
    case Inspect(t, _, _) => assert CallHeld(s.calls[t]) == Touched(s, a);
    case Decide(t, _, _, _) =>
    case Extract(t, _) =>
  }
}
