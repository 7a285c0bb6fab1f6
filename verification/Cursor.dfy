/** The frame cursor of a shim image: each call advances it atomically, so interleavings are sequences. */
module Cursor {
  import opened Common

  /** One `advance` on `n` frames from cursor `c`: the frame index returned, and the new cursor. */
  function Advanced(n: nat, c: nat, loop: bool): (Option<nat>, nat) {
    if n == 0 then (None, c)
    else if c >= n then (if loop then (Some(0), 1) else (None, c))
    else (Some(c), c + 1)
  }

  class FrameCursor {
    const frameCount: nat
    var cursor: nat

    constructor (frameCount: nat)
      ensures this.frameCount == frameCount && cursor == 0
    {
      this.frameCount := frameCount;
      cursor := 0;
    }

    method Advance(loop: bool) returns (r: Option<nat>)
      modifies this
      ensures (r, cursor) == Advanced(frameCount, old(cursor), loop)
    {
      if frameCount == 0 {
        return None;
      }
      var idx := cursor;
      if idx >= frameCount {
        if loop {
          cursor := 1;
          return Some(0);
        }
        return None;
      }
      cursor := idx + 1;
      return Some(idx);
    }
  }

  /** The cursor after a run of calls from 0. */
  function CursorAfter(n: nat, loops: seq<bool>): nat {
    if |loops| == 0 then 0
    else Advanced(n, CursorAfter(n, loops[..|loops| - 1]), loops[|loops| - 1]).1
  }

  /** What the last call of a nonempty run returns. */
  function LastReturn(n: nat, loops: seq<bool>): Option<nat>
    requires |loops| > 0
  {
    Advanced(n, CursorAfter(n, loops[..|loops| - 1]), loops[|loops| - 1]).0
  }

  /** The indices returned by the successful calls, in order. */
  function Returned(n: nat, loops: seq<bool>): seq<nat> {
    if |loops| == 0 then []
    else
      var before := Returned(n, loops[..|loops| - 1]);
      match LastReturn(n, loops)
      case Some(i) => before + [i]
      case None => before
  }

  lemma RemainderUnique(q: nat, n: nat, r: nat, x: nat)
    requires r < n && x == q * n + r
    ensures x % n == r
  {
    var p := x / n;
    assert x == p * n + x % n;
    ProductsOrdered(p, q, n);
    ProductsOrdered(q, p, n);
    assert p == q;
  }

  lemma NextModulo(k: nat, n: nat)
    requires n > 0
    ensures (k + 1) % n == if k % n + 1 == n then 0 else k % n + 1
  {
    var q, r := k / n, k % n;
    assert k == q * n + r;
    if r + 1 == n {
      assert (q + 1) * n == q * n + n;
      RemainderUnique(q + 1, n, 0, k + 1);
    } else {
      RemainderUnique(q, n, r + 1, k + 1);
    }
  }

  /** Over a whole run: the cursor stays within 0..n, and the i-th successful call returns i mod n. */
  lemma {:induction false} RunReturns(n: nat, loops: seq<bool>)
    requires n > 0
    ensures var k := |Returned(n, loops)|;
            && CursorAfter(n, loops) <= n
            && CursorAfter(n, loops) == (if k == 0 then 0 else (k - 1) % n + 1)
            && forall i :: 0 <= i < k ==> Returned(n, loops)[i] == i % n
  {
    if |loops| != 0 {
      var init := loops[..|loops| - 1];
      RunReturns(n, init);
      var k := |Returned(n, init)|;
      if k > 0 {
        NextModulo(k - 1, n);
      }
      RemainderUnique(0, n, 0, 0);
    }
  }

  /** `None` comes back only from a non-looping call at the end of the frames, and then the cursor stays. */
  lemma NoneOnlyAtEnd(n: nat, loops: seq<bool>)
    requires n > 0 && |loops| > 0
    ensures var init := loops[..|loops| - 1];
            var k := |Returned(n, init)|;
            && (LastReturn(n, loops).None? <==> !loops[|loops| - 1] && k > 0 && k % n == 0)
            && (LastReturn(n, loops).None? ==> CursorAfter(n, loops) == CursorAfter(n, init) == n)
  {
    var init := loops[..|loops| - 1];
    RunReturns(n, init);
    var k := |Returned(n, init)|;
    if k > 0 {
      NextModulo(k - 1, n);
    }
  }

  /** A second non-looping call on a single frame returns nothing; it is not clamped to that frame. */
  lemma NotClamped()
    ensures LastReturn(1, [false]) == Some(0) && LastReturn(1, [false, false]) == None
  {
    assert [false][..0] == [] && [false, false][..1] == [false];
    assert CursorAfter(1, [false]) == 1;
  }
}
