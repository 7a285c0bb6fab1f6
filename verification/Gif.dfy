/** The GIF decoder's frame loop and its three running totals. */
module Gif {
  import opened Common
  import opened Formats
  import opened Textures
  import opened Images
  import opened Orientations

  /** A frame as the codec hands it over; `delay` is in hundredths of a second. */
  datatype RawGif = RawGif(width: u16, height: u16, delay: u16, buffer: seq<byte>)

  /** How the codec's frame stream ends. */
  datatype Ending = NoMoreFrames | ReadFailure

  datatype Error =
    | FrameSize
    | MaxPixels
    | MaxFrames
    | BadTexture
    | MaxDuration
    | Unreadable
    | NoFrames

  datatype Limits = Limits(maxPixels: u64, maxFrames: u32, maxDuration: Duration)

  /** `Limits::default`: 256 Mi pixels, 1024 frames, one minute. */
  const DEFAULT_LIMITS := Limits(0x1000_0000, 1024, 60_000_000_000)

  function Delay(f: RawGif): Duration {
    f.delay as int * 10_000_000
  }

  function SaturatingAdd(a: Duration, b: Duration): Duration {
    if a as int + b > DURATION_MAX then DURATION_MAX else a as int + b
  }

  function Pixels(f: RawGif): nat {
    f.width as int * f.height
  }

  // ----- The loop, step by step -----

  datatype Totals = Totals(pixels: u64, frames: seq<Frame>, duration: Duration)

  const NOTHING := Totals(0, [], 0)

  /** One iteration: the totals after frame `f`, or the first limit it breaks. */
  function Accumulated(l: Limits, t: Totals, f: RawGif): Result<Totals, Error> {
    if Pixels(f) > 0xFFFF then Err(FrameSize)
    else if t.pixels as int + Pixels(f) > 0xFFFF_FFFF_FFFF_FFFF then Err(MaxPixels)
    else if t.pixels as int + Pixels(f) > l.maxPixels then Err(MaxPixels)
    else if TruncateU32(|t.frames|) >= l.maxFrames then Err(MaxFrames)
    else
      match FromParts(f.width, f.height, f.width as int * 4, R8g8b8a8, f.buffer)
      case None => Err(BadTexture)
      case Some(texture) =>
        var d := SaturatingAdd(t.duration, Delay(f));
        if d > l.maxDuration then Err(MaxDuration)
        else Ok(Totals(t.pixels as int + Pixels(f), t.frames + [Frame(texture, Some(Delay(f)))], d))
  }

  function AccumulatedAll(l: Limits, t: Totals, fs: seq<RawGif>): Result<Totals, Error>
    decreases |fs|
  {
    if |fs| == 0 then Ok(t)
    else
      match Accumulated(l, t, fs[0])
      case Err(e) => Err(e)
      case Ok(u) => AccumulatedAll(l, u, fs[1..])
  }

  /** `screen` is the size the header gives, if it can be read; it becomes the size of the image. */
  function Decoded(l: Limits, screen: Option<(u16, u16)>, fs: seq<RawGif>, ending: Ending)
    : Result<ImageValue, Error>
  {
    if screen.None? then Err(Unreadable)
    else
      match AccumulatedAll(l, NOTHING, fs)
      case Err(e) => Err(e)
      case Ok(t) =>
        if ending == ReadFailure then Err(Unreadable)
        else if |fs| == 0 then Err(NoFrames)
        else Ok(ImageValue(screen.value.0, screen.value.1, Normal, None, t.frames))
  }

  method Decode(l: Limits, screen: Option<(u16, u16)>, fs: seq<RawGif>, ending: Ending)
    returns (r: Result<ImageValue, Error>)
    ensures r == Decoded(l, screen, fs, ending)
  {
    if screen.None? {
      return Err(Unreadable);
    }
    var frames: seq<Frame> := [];
    var totalPixels: u64 := 0;
    var totalAnimation: Duration := 0;
    var next := 0;
    assert fs[0..] == fs;
    while next < |fs|
      invariant next <= |fs| && |frames| == next
      invariant AccumulatedAll(l, Totals(totalPixels, frames, totalAnimation), fs[next..])
             == AccumulatedAll(l, NOTHING, fs)
    {
      var frame := fs[next];
      assert fs[next..][1..] == fs[next + 1..];
      next := next + 1;
      var pixels := frame.width as int * frame.height;
      if pixels > 0xFFFF {
        return Err(FrameSize);
      }
      if totalPixels as int + pixels > 0xFFFF_FFFF_FFFF_FFFF {
        return Err(MaxPixels);
      }
      totalPixels := totalPixels as int + pixels;
      if totalPixels > l.maxPixels {
        return Err(MaxPixels);
      }
      if TruncateU32(|frames|) >= l.maxFrames {
        return Err(MaxFrames);
      }
      var texture := FromParts(frame.width, frame.height, frame.width as int * 4, R8g8b8a8, frame.buffer);
      if texture.None? {
        return Err(BadTexture);
      }
      var delay := Delay(frame);
      totalAnimation := SaturatingAdd(totalAnimation, delay);
      if totalAnimation > l.maxDuration {
        return Err(MaxDuration);
      }
      frames := frames + [Frame(texture.value, Some(delay))];
    }
    if ending == ReadFailure {
      return Err(Unreadable);
    }
    if |frames| == 0 {
      return Err(NoFrames);
    }
    return Ok(ImageValue(screen.value.0, screen.value.1, Normal, None, frames));
  }

  // ----- Whole-run totals -----

  function TotalPixels(fs: seq<RawGif>): nat {
    if |fs| == 0 then 0 else fs[0].width as int * fs[0].height + TotalPixels(fs[1..])
  }

  /** In nanoseconds; a frame's own delay counts ten milliseconds a piece. */
  function TotalDelay(fs: seq<RawGif>): nat {
    if |fs| == 0 then 0 else fs[0].delay as int * 10_000_000 + TotalDelay(fs[1..])
  }

  /** Each frame alone: its pixel count fits 16 bits and its buffer has the matching size. */
  predicate FrameOk(f: RawGif) {
    Pixels(f) <= 0xFFFF && |f.buffer| == f.width as int * 4 * f.height
  }

  /** The run as a whole, from totals already reached. */
  predicate WithinLimits(l: Limits, t: Totals, fs: seq<RawGif>) {
    && (forall f :: f in fs ==> FrameOk(f))
    && t.pixels as int + TotalPixels(fs) <= l.maxPixels
    && |t.frames| + |fs| <= l.maxFrames
    && (t.duration as int + TotalDelay(fs) <= l.maxDuration || l.maxDuration == DURATION_MAX)
  }

  /** Packed RGBA pixels. */
  function TextureOf(f: RawGif): Texture {
    Texture(f.width, f.height, f.width as int * 4, R8g8b8a8, f.buffer)
  }

  lemma FrameTexture(f: RawGif)
    ensures FromParts(f.width, f.height, f.width as int * 4, R8g8b8a8, f.buffer).Some?
            <==> |f.buffer| == f.width as int * 4 * f.height
  {
  }

  lemma AccumulatedIff(l: Limits, t: Totals, f: RawGif)
    requires |t.frames| <= l.maxFrames && t.duration <= l.maxDuration
    ensures Accumulated(l, t, f).Ok? <==> WithinLimits(l, t, [f])
    ensures Accumulated(l, t, f).Ok? ==>
              var u := Accumulated(l, t, f).value;
              && u.pixels == t.pixels as int + Pixels(f) && |u.frames| == |t.frames| + 1
              && u.duration == SaturatingAdd(t.duration, Delay(f)) <= l.maxDuration
  {
    FrameTexture(f);
    assert [f][1..] == [] && TotalPixels([]) == 0 && TotalDelay([]) == 0;
    assert TotalPixels([f]) == Pixels(f) && TotalDelay([f]) == Delay(f);
    assert f in [f];
  }

  lemma FramesOkStep(f: RawGif, rest: seq<RawGif>)
    ensures (forall k :: k in [f] + rest ==> FrameOk(k)) <==> FrameOk(f) && forall k :: k in rest ==> FrameOk(k)
  {
    assert f in [f] + rest;
    assert forall k :: k in [f] + rest <==> k == f || k in rest;
  }

  lemma WithinLimitsStep(l: Limits, t: Totals, f: RawGif, rest: seq<RawGif>)
    requires t.pixels <= l.maxPixels && |t.frames| <= l.maxFrames && t.duration <= l.maxDuration
    ensures WithinLimits(l, t, [f] + rest) <==>
            Accumulated(l, t, f).Ok? && WithinLimits(l, Accumulated(l, t, f).value, rest)
  {
    AccumulatedIff(l, t, f);
    FramesOkStep(f, rest);
    FramesOkStep(f, []);
    assert [f] + [] == [f];
    assert ([f] + rest)[1..] == rest && [f][1..] == [];
    assert TotalPixels([f] + rest) == Pixels(f) + TotalPixels(rest) && TotalPixels([f]) == Pixels(f);
    assert TotalDelay([f] + rest) == Delay(f) + TotalDelay(rest) && TotalDelay([f]) == Delay(f);
  }

  /** Rejecting early at a prefix total is rejecting the whole-run total. */
  lemma {:induction false} AccumulatedAllIff(l: Limits, t: Totals, fs: seq<RawGif>)
    requires t.pixels <= l.maxPixels && |t.frames| <= l.maxFrames && t.duration <= l.maxDuration
    ensures AccumulatedAll(l, t, fs).Ok? <==> WithinLimits(l, t, fs)
    decreases |fs|
  {
    if |fs| != 0 {
      var f := fs[0];
      AccumulatedIff(l, t, f);
      WithinLimitsStep(l, t, f, fs[1..]);
      assert fs == [f] + fs[1..];
      if Accumulated(l, t, f).Ok? {
        AccumulatedAllIff(l, Accumulated(l, t, f).value, fs[1..]);
      }
    }
  }

  lemma {:induction false} AccumulatedFrames(l: Limits, t: Totals, fs: seq<RawGif>)
    requires AccumulatedAll(l, t, fs).Ok?
    ensures var frames := AccumulatedAll(l, t, fs).value.frames;
            && |frames| == |t.frames| + |fs| && t.frames <= frames
            && forall i :: 0 <= i < |fs| ==>
                 frames[|t.frames| + i] == Frame(TextureOf(fs[i]), Some(Delay(fs[i])))
    decreases |fs|
  {
    if |fs| != 0 {
      var u := Accumulated(l, t, fs[0]).value;
      AccumulatedFrames(l, u, fs[1..]);
      var frames := AccumulatedAll(l, t, fs).value.frames;
      assert frames[|t.frames|] == u.frames[|t.frames|];
      forall i | 0 < i < |fs|
        ensures frames[|t.frames| + i] == Frame(TextureOf(fs[i]), Some(Delay(fs[i])))
      {
        assert fs[1..][i - 1] == fs[i];
      }
    }
  }

  lemma FramesValid(fs: seq<RawGif>, frames: seq<Frame>)
    requires |frames| == |fs| && forall f :: f in fs ==> FrameOk(f)
    requires forall i :: 0 <= i < |fs| ==> frames[i] == Frame(TextureOf(fs[i]), Some(Delay(fs[i])))
    ensures forall f :: f in frames ==> f.texture.Valid()
  {
    forall i | 0 <= i < |fs|
      ensures frames[i].texture.Valid()
    {
      assert fs[i] in fs;
    }
  }

  /** An animation is accepted exactly when it is nonempty, every frame is sound, and the totals are in bounds. */
  lemma AcceptedIff(l: Limits, screen: Option<(u16, u16)>, fs: seq<RawGif>, ending: Ending)
    ensures Decoded(l, screen, fs, ending).Ok? <==>
            && screen.Some? && ending == NoMoreFrames && fs != []
            && (forall f :: f in fs ==>
                              f.width as int * f.height <= 0xFFFF && |f.buffer| == f.width as int * 4 * f.height)
            && TotalPixels(fs) <= l.maxPixels
            && |fs| <= l.maxFrames
            && (TotalDelay(fs) <= l.maxDuration
                || l.maxDuration == 0xFFFF_FFFF_FFFF_FFFF * 1_000_000_000 + 999_999_999)
    ensures Decoded(l, screen, fs, ending).Ok? ==>
            var v := Decoded(l, screen, fs, ending).value;
            && v.Valid() && v.orientation == Normal && v.exif == None
            && (v.width, v.height) == screen.value && |v.frames| == |fs|
            && forall i :: 0 <= i < |fs| ==>
                 var t := v.frames[i].texture;
                 && t.width == fs[i].width && t.height == fs[i].height && t.stride == 4 * fs[i].width as int
                 && t.format == R8g8b8a8 && t.data == fs[i].buffer
                 && v.frames[i].delay == Some(fs[i].delay as int * 10_000_000)
  {
    AccumulatedAllIff(l, NOTHING, fs);
    if Decoded(l, screen, fs, ending).Ok? {
      AccumulatedFrames(l, NOTHING, fs);
      FramesValid(fs, AccumulatedAll(l, NOTHING, fs).value.frames);
    }
  }

  // ----- Which error -----

  lemma {:induction false} AccumulatedPrefix(l: Limits, t: Totals, a: seq<RawGif>, b: seq<RawGif>)
    ensures AccumulatedAll(l, t, a + b) ==
            match AccumulatedAll(l, t, a) case Err(e) => Err(e) case Ok(u) => AccumulatedAll(l, u, b)
    decreases |a|
  {
    if |a| == 0 {
      assert a + b == b;
    } else {
      assert (a + b)[1..] == a[1..] + b;
      if Accumulated(l, t, a[0]).Ok? {
        AccumulatedPrefix(l, Accumulated(l, t, a[0]).value, a[1..], b);
      }
    }
  }

  lemma {:induction false} AccumulatedTotals(l: Limits, t: Totals, fs: seq<RawGif>)
    requires |t.frames| <= l.maxFrames && t.duration <= l.maxDuration && AccumulatedAll(l, t, fs).Ok?
    ensures var u := AccumulatedAll(l, t, fs).value;
            && u.pixels == t.pixels as int + TotalPixels(fs) && |u.frames| == |t.frames| + |fs| <= l.maxFrames
            && u.duration == SaturatingTotal(t.duration, TotalDelay(fs)) <= l.maxDuration
    decreases |fs|
  {
    if |fs| != 0 {
      AccumulatedIff(l, t, fs[0]);
      AccumulatedTotals(l, Accumulated(l, t, fs[0]).value, fs[1..]);
    }
  }

  function SaturatingTotal(a: Duration, n: nat): Duration {
    if a as int + n > DURATION_MAX then DURATION_MAX else a as int + n
  }

  /** The limit that frame `f` breaks after the accepted frames `before`, in the order of the tests. */
  function Broken(l: Limits, before: seq<RawGif>, f: RawGif): Option<Error> {
    if f.width as int * f.height > 0xFFFF then Some(FrameSize)
    else if TotalPixels(before) + f.width as int * f.height > l.maxPixels then Some(MaxPixels)
    else if |before| >= l.maxFrames then Some(MaxFrames)
    else if |f.buffer| != f.width as int * 4 * f.height then Some(BadTexture)
    else if l.maxDuration < DURATION_MAX && TotalDelay(before) + f.delay as int * 10_000_000 > l.maxDuration
    then Some(MaxDuration)
    else None
  }

  /** The first frame that breaks a limit decides the error; without one, the stream's end and emptiness do. */
  lemma FirstErrorDecides(l: Limits, screen: Option<(u16, u16)>, fs: seq<RawGif>, ending: Ending, i: nat)
    requires i <= |fs| && forall j :: 0 <= j < i ==> Broken(l, fs[..j], fs[j]).None?
    ensures screen.None? ==> Decoded(l, screen, fs, ending) == Err(Unreadable)
    ensures screen.Some? && i < |fs| && Broken(l, fs[..i], fs[i]).Some? ==>
              Decoded(l, screen, fs, ending) == Err(Broken(l, fs[..i], fs[i]).value)
    ensures screen.Some? && i == |fs| && ending == ReadFailure ==> Decoded(l, screen, fs, ending) == Err(Unreadable)
    ensures screen.Some? && i == |fs| && ending == NoMoreFrames ==>
              if fs == [] then Decoded(l, screen, fs, ending) == Err(NoFrames) else Decoded(l, screen, fs, ending).Ok?
  {
    UnbrokenPrefix(l, fs, i);
    if i < |fs| {
      assert fs == fs[..i] + fs[i..];
      AccumulatedPrefix(l, NOTHING, fs[..i], fs[i..]);
      BrokenIsError(l, fs[..i], fs[i]);
    } else {
      assert fs[..i] == fs;
    }
  }

  lemma {:induction false} UnbrokenPrefix(l: Limits, fs: seq<RawGif>, i: nat)
    requires i <= |fs| && forall j :: 0 <= j < i ==> Broken(l, fs[..j], fs[j]).None?
    ensures AccumulatedAll(l, NOTHING, fs[..i]).Ok?
  {
    if i > 0 {
      UnbrokenPrefix(l, fs, i - 1);
      assert fs[..i] == fs[..i - 1] + [fs[i - 1]];
      AccumulatedPrefix(l, NOTHING, fs[..i - 1], [fs[i - 1]]);
      BrokenIsError(l, fs[..i - 1], fs[i - 1]);
      assert [fs[i - 1]][1..] == [];
    }
  }

  lemma BrokenIsError(l: Limits, before: seq<RawGif>, f: RawGif)
    requires AccumulatedAll(l, NOTHING, before).Ok?
    ensures var r := Accumulated(l, AccumulatedAll(l, NOTHING, before).value, f);
            match Broken(l, before, f) case Some(e) => r == Err(e) case None => r.Ok?
  {
    AccumulatedTotals(l, NOTHING, before);
    FrameTexture(f);
  }

  /** The per-frame product is taken in 16 bits: a 256 by 256 frame is refused though far within every limit. */
  lemma SquareFrameRefused(buffer: seq<byte>)
    requires |buffer| == 256 * 256 * 4
    ensures var f := RawGif(256, 256, 10, buffer);
            && TotalPixels([f]) <= DEFAULT_LIMITS.maxPixels && TotalDelay([f]) <= DEFAULT_LIMITS.maxDuration
            && Decoded(DEFAULT_LIMITS, Some((256, 256)), [f], NoMoreFrames) == Err(FrameSize)
  {
    var f := RawGif(256, 256, 10, buffer);
    assert [f][1..] == [] && TotalPixels([]) == 0 && TotalDelay([]) == 0;
  }
}
