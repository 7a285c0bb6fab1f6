/**
 The shim's handle protocol as a state machine: objects own engine handles, calls on any number of
 threads take, use and free them, and every atomic step of every call may interleave with the others.
 */
module Handles {
  import opened Common
  import Cursor

  // ----- State -----

  datatype Kind = LoaderHandle | ImageHandle | EncoderHandle | EncodedHandle

  /**
   An engine allocation. `inner` is the loader inside a loader handle, which a setter takes out and puts
   back; `released` counts the times the allocation was given back.
   */
  datatype Handle = Handle(kind: Kind, live: bool, inner: bool, released: nat)

  /** State attached to an object; handles are indices into `State.handles`. */
  datatype Payload =
    | Loader(inner: Option<nat>)
    | Image(image: nat, frameCount: nat, cursor: nat, rerender: bool)
    | Frame
    | Request
    | Creator(encoder: nat)
    | Encoded(encoded: nat)

  /** `refs` counts the references callers hold; running calls hold their own (see `Pinned`). */
  datatype Object = Object(state: Payload, refs: nat)

  /** Why a loader handle is being configured and run: a load, or a re-render of an image's frame. */
  datatype Job = LoadJob(source: nat) | RerenderJob(source: nat, loop: bool)

  /** Where a running call is; `pin` is the object the call holds a reference to. */
  datatype Call =
    | Attaching(state: Payload, pin: Option<nat>)
    | Taking(loader: nat)
    | Configuring(job: Job, handle: nat)
    | Modifying(job: Job, handle: nat)
    | Inspecting(job: Job, handle: nat)
    | Deciding(image: nat)
    | Advancing(image: nat, loop: bool)
    | Extracting(image: nat, index: nat)
    | Finishing(source: nat)

  /**
   `fault`: a released handle was used or released again. `refused`: a setter or load found its loader
   handle emptied. `taken`: the loader objects whose handle a load obtained, in order.
   */
  datatype State = State(
    handles: seq<Handle>,
    objects: map<nat, Object>,
    nextObject: nat,
    calls: map<nat, Call>,
    fault: bool,
    refused: bool,
    taken: seq<nat>)

  const INITIAL := State([], map[], 0, map[], false, false, [])

  // ----- The engine -----

  predicate Live(s: State, h: nat) {
    h < |s.handles| && s.handles[h].live
  }

  function Allocate(s: State, kind: Kind): (r: State)
    ensures r.calls == s.calls && r.objects == s.objects && r.nextObject == s.nextObject
  {
    s.(handles := s.handles + [Handle(kind, true, kind == LoaderHandle, 0)])
  }

  function Use(s: State, h: nat): (r: State)
    ensures r.calls == s.calls && r.objects == s.objects && r.nextObject == s.nextObject
  {
    if Live(s, h) then s else s.(fault := true)
  }

  function Free(s: State, h: nat): (r: State)
    ensures r.calls == s.calls && r.objects == s.objects && r.nextObject == s.nextObject
  {
    if Live(s, h) then
      s.(handles := s.handles[h := s.handles[h].(live := false, released := s.handles[h].released + 1)])
    else s.(fault := true)
  }

  /** A setter takes the loader out of its handle... */
  function TakeInner(s: State, h: nat): (r: State)
    ensures r.calls == s.calls && r.objects == s.objects && r.nextObject == s.nextObject
  {
    var u := Use(s, h);
    if !Live(s, h) then u
    else if !s.handles[h].inner then u.(refused := true)
    else u.(handles := u.handles[h := u.handles[h].(inner := false)])
  }

  /** ...and puts it back. */
  function PutInner(s: State, h: nat): (r: State)
    ensures r.calls == s.calls && r.objects == s.objects && r.nextObject == s.nextObject
  {
    if Live(s, h) then s.(handles := s.handles[h := s.handles[h].(inner := true)])
    else s.(fault := true)
  }

  /** `load` consumes the handle, whatever comes of it. */
  function Consume(s: State, h: nat): (r: State)
    ensures r.calls == s.calls && r.objects == s.objects && r.nextObject == s.nextObject
  {
    Free(if Live(s, h) && !s.handles[h].inner then s.(refused := true) else s, h)
  }

  // ----- Objects -----

  /** The handle an object's state owns. */
  function Held(p: Payload): Option<nat> {
    match p
    case Loader(inner) => inner
    case Image(h, _, _, _) => Some(h)
    case Creator(h) => Some(h)
    case Encoded(h) => Some(h)
    case _ => None
  }

  function HeldKind(p: Payload): Kind {
    match p
    case Image(_, _, _, _) => ImageHandle
    case Creator(_) => EncoderHandle
    case Encoded(_) => EncodedHandle
    case _ => LoaderHandle
  }

  /** Dropping attached state frees the handle it still owns. */
  function DropState(s: State, p: Payload): (r: State)
    ensures r.calls == s.calls && r.objects == s.objects && r.nextObject == s.nextObject
  {
    match Held(p)
    case Some(h) => Free(s, h)
    case None => s
  }

  function Pin(c: Call): Option<nat> {
    match c
    case Attaching(_, pin) => pin
    case Taking(o) => Some(o)
    case Configuring(job, _) => Some(job.source)
    case Modifying(job, _) => Some(job.source)
    case Inspecting(job, _) => Some(job.source)
    case Deciding(o) => Some(o)
    case Advancing(o, _) => Some(o)
    case Extracting(o, _) => Some(o)
    case Finishing(o) => Some(o)
  }

  /** Some running call holds a reference to `o`. */
  predicate Pinned(s: State, o: nat) {
    exists t :: t in s.calls && Pin(s.calls[t]) == Some(o)
  }

  /** Destroy `o` if its last reference is gone. */
  function Collect(s: State, o: nat): (r: State)
    ensures r.calls == s.calls
  {
    if o in s.objects && s.objects[o].refs == 0 && !Pinned(s, o) then
      DropState(s, s.objects[o].state).(objects := s.objects - {o})
    else s
  }

  // ----- Steps -----

  datatype Action =
    | NewLoader(t: nat, ok: bool)
    | NewRequest(t: nat)
    | NewCreator(t: nat, ok: bool)
    | Attach(t: nat, ok: bool)
    | Ref(o: nat)
    | Unref(o: nat)
    | UseObject(o: nat)
    | StartLoad(t: nat, o: nat)
    | StartFrame(t: nat, o: nat)
    | Encode(t: nat, o: nat, ok: bool)
    | TakeLoader(t: nat)
    | BeginModify(t: nat)
    | EndModify(t: nat)
    | RunLoad(t: nat, ok: bool)
    | Inspect(t: nat, ok: bool, frameCount: nat)
    | Decide(t: nat, scaled: bool, loop: bool, ok: bool)
    | Advance(t: nat)
    | Extract(t: nat, ok: bool)
    | Finish(t: nat)

  function Goto(s: State, t: nat, c: Call): State {
    s.(calls := s.calls[t := c])
  }

  /** A caller may start a call on an object it holds a reference to. */
  predicate Callable(s: State, t: nat, o: nat) {
    t !in s.calls && o in s.objects && s.objects[o].refs > 0
  }

  /** Construct an engine object and go on to attach it. */
  function StepNew(s: State, t: nat, ok: bool, kind: Kind): State {
    if t in s.calls || !ok then s
    else
      var h := |s.handles|;
      Goto(Allocate(s, kind), t,
           Attaching(if kind == LoaderHandle then Loader(Some(h)) else Creator(h), None))
  }

  function StepRequest(s: State, t: nat): State {
    if t in s.calls then s else Goto(s, t, Attaching(Request, None))
  }

  /** `attach_state`: the state moves into a new object, or is dropped when none could be created. */
  function StepAttach(s: State, t: nat, ok: bool): State {
    if t !in s.calls || !s.calls[t].Attaching? then s
    else
      var c := s.calls[t];
      var done := if c.pin.Some? then s.(calls := s.calls[t := Finishing(c.pin.value)])
                  else s.(calls := s.calls - {t});
      if ok then done.(objects := s.objects[s.nextObject := Object(c.state, 1)], nextObject := s.nextObject + 1)
      else DropState(done, c.state)
  }

  function StepRef(s: State, o: nat): State {
    if o !in s.objects || s.objects[o].refs == 0 then s
    else s.(objects := s.objects[o := s.objects[o].(refs := s.objects[o].refs + 1)])
  }

  function StepUnref(s: State, o: nat): State {
    if o !in s.objects || s.objects[o].refs == 0 then s
    else Collect(s.(objects := s.objects[o := s.objects[o].(refs := s.objects[o].refs - 1)]), o)
  }

  /** Getters on images and encoded images, setters on creators; a loader's setters touch no handle. */
  function StepUseObject(s: State, o: nat): State {
    if o !in s.objects || s.objects[o].refs == 0 || s.objects[o].state.Loader? then s
    else
      match Held(s.objects[o].state)
      case Some(h) => Use(s, h)
      case None => s
  }

  function StepStartLoad(s: State, t: nat, o: nat): State {
    if !Callable(s, t, o) || !s.objects[o].state.Loader? then s else Goto(s, t, Taking(o))
  }

  function StepStartFrame(s: State, t: nat, o: nat): State {
    if !Callable(s, t, o) || !s.objects[o].state.Image? then s else Goto(s, t, Deciding(o))
  }

  /** `gly_creator_create`: the encoder is used under its lock and may yield an encoded image. */
  function StepEncode(s: State, t: nat, o: nat, ok: bool): State {
    if !Callable(s, t, o) || !s.objects[o].state.Creator? then s
    else
      var u := Use(s, s.objects[o].state.encoder);
      if ok then Goto(Allocate(u, EncodedHandle), t, Attaching(Encoded(|u.handles|), Some(o)))
      else Goto(u, t, Finishing(o))
  }

  /** The locked `take`: one call gets the handle, later ones find `None`. */
  function StepTake(s: State, t: nat): State {
    if t !in s.calls || !s.calls[t].Taking? || s.calls[t].loader !in s.objects then s
    else
      var o := s.calls[t].loader;
      match s.objects[o].state
      case Loader(Some(h)) =>
        Goto(s.(objects := s.objects[o := s.objects[o].(state := Loader(None))], taken := s.taken + [o]),
             t, Configuring(LoadJob(o), h))
      case _ => Goto(s, t, Finishing(o))
  }

  function StepBeginModify(s: State, t: nat): State {
    if t !in s.calls || !s.calls[t].Configuring? then s
    else Goto(TakeInner(s, s.calls[t].handle), t, Modifying(s.calls[t].job, s.calls[t].handle))
  }

  function StepEndModify(s: State, t: nat): State {
    if t !in s.calls || !s.calls[t].Modifying? then s
    else Goto(PutInner(s, s.calls[t].handle), t, Configuring(s.calls[t].job, s.calls[t].handle))
  }

  /** Where a job goes when no image came of it. */
  function Failed(job: Job): Call {
    match job
    case LoadJob(o) => Finishing(o)
    case RerenderJob(o, loop) => Advancing(o, loop)
  }

  function StepRunLoad(s: State, t: nat, ok: bool): State {
    if t !in s.calls || !s.calls[t].Configuring? then s
    else
      var job := s.calls[t].job;
      var u := Consume(s, s.calls[t].handle);
      if ok then Goto(Allocate(u, ImageHandle), t, Inspecting(job, |u.handles|))
      else Goto(u, t, Failed(job))
  }

  /**
   A loaded image becomes an image object; a re-rendered one yields its frame and is freed, and when it
   has no frame it is freed and the cached frame is used instead. `ok` is whether the engine names a
   rescalable format or has the texture.
   */
  function StepInspect(s: State, t: nat, ok: bool, frameCount: nat): State {
    if t !in s.calls || !s.calls[t].Inspecting? then s
    else
      var h := s.calls[t].handle;
      var u := Use(s, h);
      match s.calls[t].job
      case LoadJob(o) => Goto(u, t, Attaching(Image(h, frameCount, 0, ok), Some(o)))
      case RerenderJob(o, loop) =>
        Goto(Free(u, h), t, if ok then Attaching(Frame, Some(o)) else Advancing(o, loop))
  }

  /**
   Read the frame request, which a task may do long after the call began; compare the wanted size with the
   image's; re-render if it differs and a loader can be made.
   */
  function StepDecide(s: State, t: nat, scaled: bool, loop: bool, ok: bool): State {
    if t !in s.calls || !s.calls[t].Deciding? || s.calls[t].image !in s.objects then s
    else
      var o := s.calls[t].image;
      var image := s.objects[o].state;
      if !image.Image? || !image.rerender || !scaled then Goto(s, t, Advancing(o, loop))
      else
        var u := Use(s, image.image);
        if ok then Goto(Allocate(u, LoaderHandle), t, Configuring(RerenderJob(o, loop), |u.handles|))
        else Goto(u, t, Advancing(o, loop))
  }

  /** The cursor moves under its lock. */
  function StepAdvance(s: State, t: nat): State {
    if t !in s.calls || !s.calls[t].Advancing? || s.calls[t].image !in s.objects then s
    else
      var o := s.calls[t].image;
      match s.objects[o].state
      case Image(h, n, cursor, r) =>
        var (index, next) := Cursor.Advanced(n, cursor, s.calls[t].loop);
        Goto(s.(objects := s.objects[o := s.objects[o].(state := Image(h, n, next, r))]), t,
             if index.Some? then Extracting(o, index.value) else Finishing(o))
      case _ => s
  }

  function StepExtract(s: State, t: nat, ok: bool): State {
    if t !in s.calls || !s.calls[t].Extracting? || s.calls[t].image !in s.objects then s
    else
      var o := s.calls[t].image;
      match s.objects[o].state
      case Image(h, _, _, _) =>
        Goto(Use(s, h), t, if ok then Attaching(Frame, Some(o)) else Finishing(o))
      case _ => s
  }

  /** The call gives up its reference. */
  function StepFinish(s: State, t: nat): State {
    if t !in s.calls || !s.calls[t].Finishing? then s
    else Collect(s.(calls := s.calls - {t}), s.calls[t].source)
  }

  function Step(s: State, a: Action): State {
    match a
    case NewLoader(t, ok) => StepNew(s, t, ok, LoaderHandle)
    case NewRequest(t) => StepRequest(s, t)
    case NewCreator(t, ok) => StepNew(s, t, ok, EncoderHandle)
    case Attach(t, ok) => StepAttach(s, t, ok)
    case Ref(o) => StepRef(s, o)
    case Unref(o) => StepUnref(s, o)
    case UseObject(o) => StepUseObject(s, o)
    case StartLoad(t, o) => StepStartLoad(s, t, o)
    case StartFrame(t, o) => StepStartFrame(s, t, o)
    case Encode(t, o, ok) => StepEncode(s, t, o, ok)
    case TakeLoader(t) => StepTake(s, t)
    case BeginModify(t) => StepBeginModify(s, t)
    case EndModify(t) => StepEndModify(s, t)
    case RunLoad(t, ok) => StepRunLoad(s, t, ok)
    case Inspect(t, ok, n) => StepInspect(s, t, ok, n)
    case Decide(t, scaled, loop, ok) => StepDecide(s, t, scaled, loop, ok)
    case Advance(t) => StepAdvance(s, t)
    case Extract(t, ok) => StepExtract(s, t, ok)
    case Finish(t) => StepFinish(s, t)
  }

  /** A run: the first action is taken first; an action that is not enabled changes nothing. */
  function Run(s: State, actions: seq<Action>): State
    decreases |actions|
  {
    if |actions| == 0 then s else Run(Step(s, actions[0]), actions[1..])
  }
}
