/** The `xi:include` rewriter: a state machine over an XML event stream. */
module XInclude {
  import opened Common

  /** An opening tag; `body` is what its `href` pulls in, if it does (see `Payload.ReadTag`). */
  datatype Tag = Tag(name: string, body: Option<string>)

  /** Reader and writer events. `Pasted` is a raw payload, only ever written. */
  datatype Event =
    | Start(tag: Tag)
    | End(name: string)
    | Empty(tag: Tag)
    | Other(content: string)
    | Pasted(body: string)

  /** What the reader reports after the last event. */
  datatype Ending = Eof | ReadError

  datatype Stream = Stream(events: seq<Event>, ending: Ending)

  predicate IsInclude(name: string) {
    name == "xi:include" || name == "include"
  }

  /** Start or empty tag of an include whose payload can be pasted. */
  predicate Expandable(e: Event) {
    (e.Start? || e.Empty?) && IsInclude(e.tag.name) && e.tag.body.Some?
  }

  // ----- The machine -----

  /** The events left after the swallow loop, entered at nesting `depth`; `None` when they run out. */
  function Swallow(es: seq<Event>, depth: nat): (r: Option<seq<Event>>)
    ensures r.Some? ==> |r.value| <= |es|
  {
    if depth == 0 then Some(es)
    else if |es| == 0 then None
    else if es[0].Start? && IsInclude(es[0].tag.name) then Swallow(es[1..], depth + 1)
    else if es[0].End? && IsInclude(es[0].name) then Swallow(es[1..], depth - 1)
    else Swallow(es[1..], depth)
  }

  /** Output events and whether anything was expanded; `None` when a swallow runs off the end. */
  function Expanded(es: seq<Event>): Option<(seq<Event>, bool)>
    decreases |es|
  {
    if |es| == 0 then Some(([], false))
    else if Expandable(es[0]) then
      var rest := if es[0].Start? then Swallow(es[1..], 1) else Some(es[1..]);
      if rest.None? then None
      else
        match Expanded(rest.value)
        case None => None
        case Some((out, _)) => Some(([Pasted(es[0].tag.body.value)] + out, true))
    else
      match Expanded(es[1..])
      case None => None
      case Some((out, any)) => Some(([es[0]] + out, any))
  }

  /** The result of `expand`, given the outcome of its substring probe; with `None` the caller keeps the bytes. */
  function Result(mentionsInclude: bool, s: Stream): Option<seq<Event>> {
    if !mentionsInclude || s.ending == ReadError then None
    else
      match Expanded(s.events)
      case Some((out, true)) => Some(out)
      case _ => None
  }

  predicate OccursAt(hay: string, needle: string, i: int) {
    0 <= i <= |hay| - |needle| && hay[i..i + |needle|] == needle
  }

  ghost predicate Contains(hay: string, needle: string) {
    exists i :: OccursAt(hay, needle, i)
  }

  method MemchrSubseq(hay: string, needle: string) returns (found: bool)
    ensures found == Contains(hay, needle)
  {
    if |needle| == 0 || |needle| > |hay| {
      assert |needle| == 0 ==> OccursAt(hay, needle, 0);
      return |needle| == 0;
    }
    for i := 0 to |hay| - |needle| + 1
      invariant forall j :: 0 <= j < i ==> !OccursAt(hay, needle, j)
    {
      if hay[i..i + |needle|] == needle {
        assert OccursAt(hay, needle, i);
        return true;
      }
    }
    return false;
  }

  /** `s` is what the reader makes of the bytes `input`. */
  method Expand(input: string, s: Stream) returns (r: Option<seq<Event>>)
    ensures r == Result(Contains(input, "xi:include"), s)
  {
    var mentionsInclude := MemchrSubseq(input, "xi:include");
    if !mentionsInclude {
      return None;
    }
    var es := s.events;
    var pos := 0;
    var out: seq<Event> := [];
    var expandedAny := false;
    assert es[0..] == es;
    PrependedNone(Expanded(es));
    while pos < |es|
      invariant pos <= |es|
      invariant Prepended(out, expandedAny, Expanded(es[pos..])) == Expanded(es)
    {
      var e := es[pos];
      ghost var here := es[pos..];
      pos := pos + 1;
      assert here[1..] == es[pos..];
      ghost var outBefore, anyBefore := out, expandedAny;
      if Expandable(e) {
        out := out + [Pasted(e.tag.body.value)];
        expandedAny := true;
        if e.Start? {
          var depth := 1;
          while depth > 0
            invariant pos <= |es|
            invariant Swallow(here[1..], 1) == Swallow(es[pos..], depth)
            decreases |es| - pos, depth
          {
            if pos == |es| {
              return None;
            }
            var inner := es[pos];
            assert es[pos..][1..] == es[pos + 1..];
            pos := pos + 1;
            if inner.Start? && IsInclude(inner.tag.name) {
              depth := depth + 1;
            } else if inner.End? && IsInclude(inner.name) {
              depth := depth - 1;
            }
          }
        }
        PrependedPush(outBefore, anyBefore, Pasted(e.tag.body.value), true, Expanded(es[pos..]));
      } else {
        out := out + [e];
        PrependedPush(outBefore, anyBefore, e, false, Expanded(es[pos..]));
      }
    }
    assert out + [] == out;
    if s.ending == ReadError {
      return None;
    }
    return if expandedAny then Some(out) else None;
  }

  /** A machine result with already written output put in front. */
  ghost function Prepended(out: seq<Event>, any: bool, r: Option<(seq<Event>, bool)>): Option<(seq<Event>, bool)> {
    match r
    case None => None
    case Some((o, a)) => Some((out + o, any || a))
  }

  lemma PrependedNone(r: Option<(seq<Event>, bool)>)
    ensures Prepended([], false, r) == r
  {
    if r.Some? {
      assert [] + r.value.0 == r.value.0;
    }
  }

  lemma PrependedPush(out: seq<Event>, any: bool, e: Event, flag: bool, r: Option<(seq<Event>, bool)>)
    ensures Prepended(out, any, Prepended([e], flag, r)) == Prepended(out + [e], any || flag, r)
  {
    if r.Some? {
      assert out + ([e] + r.value.0) == out + [e] + r.value.0;
    }
  }

  lemma PrependedTwice(a: seq<Event>, b: seq<Event>, p: bool, q: bool, r: Option<(seq<Event>, bool)>)
    ensures Prepended(a, p, Prepended(b, q, r)) == Prepended(a + b, p || q, r)
  {
    if r.Some? {
      assert a + (b + r.value.0) == a + b + r.value.0;
    }
  }

  // ----- Documents as trees -----

  /** A sequence of sibling nodes. */
  datatype Forest =
    | Nil
    | Leaf(event: Event, next: Forest)
    | Element(tag: Tag, children: Forest, next: Forest)
  {
    predicate Valid() {
      match this
      case Nil => true
      case Leaf(e, next) => !e.Start? && !e.End? && next.Valid()
      case Element(_, children, next) => children.Valid() && next.Valid()
    }

    function Events(): seq<Event> {
      match this
      case Nil => []
      case Leaf(e, next) => [e] + next.Events()
      case Element(t, children, next) => [Start(t)] + children.Events() + [End(t.name)] + next.Events()
    }

    /** What the pass means: each expandable include, with its whole subtree, becomes its payload. */
    function Rewritten(): Forest {
      match this
      case Nil => Nil
      case Leaf(e, next) =>
        Leaf(if Expandable(e) then Pasted(e.tag.body.value) else e, next.Rewritten())
      case Element(t, children, next) =>
        if Expandable(Start(t)) then Leaf(Pasted(t.body.value), next.Rewritten())
        else Element(t, children.Rewritten(), next.Rewritten())
    }

    /** The document with every expandable include, and its whole subtree, removed. */
    function Pruned(): Forest {
      match this
      case Nil => Nil
      case Leaf(e, next) => if Expandable(e) then next.Pruned() else Leaf(e, next.Pruned())
      case Element(t, children, next) =>
        if Expandable(Start(t)) then next.Pruned() else Element(t, children.Pruned(), next.Pruned())
    }

    predicate HasExpandable() {
      match this
      case Nil => false
      case Leaf(e, next) => Expandable(e) || next.HasExpandable()
      case Element(t, children, next) =>
        Expandable(Start(t)) || children.HasExpandable() || next.HasExpandable()
    }
  }

  /** Counting only include-named tags, a balanced run of siblings leaves the swallow depth where it was. */
  lemma {:induction false} SwallowBalanced(f: Forest, rest: seq<Event>, depth: nat)
    requires f.Valid() && depth > 0
    ensures Swallow(f.Events() + rest, depth) == Swallow(rest, depth)
  {
    match f {
      case Nil =>
        assert f.Events() + rest == rest;
      case Leaf(e, next) =>
        assert (f.Events() + rest)[1..] == next.Events() + rest;
        SwallowBalanced(next, rest, depth);
      case Element(t, children, next) =>
        var d := if IsInclude(t.name) then depth + 1 else depth;
        var after := [End(t.name)] + (next.Events() + rest);
        assert (f.Events() + rest)[1..] == children.Events() + after;
        SwallowBalanced(children, after, d);
        assert after[1..] == next.Events() + rest;
        SwallowBalanced(next, rest, depth);
    }
  }

  /** The swallow loop stops at precisely the end tag of the include it entered. */
  lemma SwallowExact(children: Forest, name: string, rest: seq<Event>)
    requires children.Valid() && IsInclude(name)
    ensures Swallow(children.Events() + [End(name)] + rest, 1) == Some(rest)
  {
    var after := [End(name)] + rest;
    assert children.Events() + [End(name)] + rest == children.Events() + after;
    SwallowBalanced(children, after, 1);
    assert after[1..] == rest;
  }

  lemma ExpandedCopies(e: Event, rest: seq<Event>)
    requires !Expandable(e)
    ensures Expanded([e] + rest) == Prepended([e], false, Expanded(rest))
  {
    assert ([e] + rest)[1..] == rest;
  }

  lemma ExpandedEmpty(e: Event, rest: seq<Event>)
    requires Expandable(e) && e.Empty?
    ensures Expanded([e] + rest) == Prepended([Pasted(e.tag.body.value)], true, Expanded(rest))
  {
    assert ([e] + rest)[1..] == rest;
  }

  lemma ExpandedInclude(t: Tag, children: Forest, rest: seq<Event>)
    requires Expandable(Start(t)) && children.Valid()
    ensures Expanded([Start(t)] + (children.Events() + [End(t.name)] + rest))
            == Prepended([Pasted(t.body.value)], true, Expanded(rest))
  {
    var es := [Start(t)] + (children.Events() + [End(t.name)] + rest);
    assert es[1..] == children.Events() + [End(t.name)] + rest;
    SwallowExact(children, t.name, rest);
  }

  /** An ordinary element, given what the machine does to its children and to what follows. */
  lemma ExpandedElement(t: Tag, c: seq<Event>, c': seq<Event>, any: bool, rest: seq<Event>)
    requires !Expandable(Start(t))
    requires Expanded(c + ([End(t.name)] + rest)) == Prepended(c', any, Expanded([End(t.name)] + rest))
    ensures Expanded([Start(t)] + c + [End(t.name)] + rest)
            == Prepended([Start(t)] + c' + [End(t.name)], any, Expanded(rest))
  {
    var r := Expanded(rest);
    ExpandedCopies(End(t.name), rest);
    PrependedTwice(c', [End(t.name)], any, false, r);
    ExpandedCopies(Start(t), c + ([End(t.name)] + rest));
    PrependedTwice([Start(t)], c' + [End(t.name)], false, any, r);
    assert [Start(t)] + c + [End(t.name)] + rest == [Start(t)] + (c + ([End(t.name)] + rest));
    assert [Start(t)] + c' + [End(t.name)] == [Start(t)] + (c' + [End(t.name)]);
  }

  /** The machine, run over a printed forest and whatever follows it. */
  lemma {:induction false} ExpandedForest(f: Forest, rest: seq<Event>)
    requires f.Valid()
    ensures Expanded(f.Events() + rest) == Prepended(f.Rewritten().Events(), f.HasExpandable(), Expanded(rest))
  {
    var tail := Expanded(rest);
    match f {
      case Nil =>
        assert f.Events() + rest == rest;
        PrependedNone(tail);
      case Leaf(e, next) =>
        var after := next.Events() + rest;
        assert f.Events() + rest == [e] + after;
        ExpandedForest(next, rest);
        if Expandable(e) {
          ExpandedEmpty(e, after);
          PrependedTwice([Pasted(e.tag.body.value)], next.Rewritten().Events(), true, next.HasExpandable(), tail);
        } else {
          ExpandedCopies(e, after);
          PrependedTwice([e], next.Rewritten().Events(), false, next.HasExpandable(), tail);
        }
      case Element(t, children, next) =>
        var after := next.Events() + rest;
        ExpandedForest(next, rest);
        if Expandable(Start(t)) {
          assert f.Events() + rest == [Start(t)] + (children.Events() + [End(t.name)] + after);
          ExpandedInclude(t, children, after);
          PrependedTwice([Pasted(t.body.value)], next.Rewritten().Events(), true, next.HasExpandable(), tail);
        } else {
          var c := children.Rewritten().Events();
          assert f.Events() + rest == [Start(t)] + children.Events() + [End(t.name)] + after;
          ExpandedForest(children, [End(t.name)] + after);
          ExpandedElement(t, children.Events(), c, children.HasExpandable(), after);
          PrependedTwice([Start(t)] + c + [End(t.name)], next.Rewritten().Events(),
                         children.HasExpandable(), next.HasExpandable(), tail);
        }
    }
  }

  // ----- Well-nested streams -----

  /**
   The reader's own check: every end tag closes the innermost open one (`None` otherwise). The result is
   the elements still open at the end, innermost first; the reader does not object to those.
   */
  function Open(es: seq<Event>, open: seq<Tag>): Option<seq<Tag>> {
    if |es| == 0 then Some(open)
    else
      match es[0]
      case Start(t) => Open(es[1..], [t] + open)
      case End(n) => if |open| > 0 && open[0].name == n then Open(es[1..], open[1..]) else None
      case _ => Open(es[1..], open)
  }

  predicate WellNested(es: seq<Event>) {
    Open(es, []) == Some([])
  }

  lemma {:induction false} PrintedIsNested(f: Forest, rest: seq<Event>, open: seq<Tag>)
    requires f.Valid()
    ensures Open(f.Events() + rest, open) == Open(rest, open)
  {
    var es := f.Events() + rest;
    match f {
      case Nil =>
        assert es == rest;
      case Leaf(e, next) =>
        assert es[1..] == next.Events() + rest;
        PrintedIsNested(next, rest, open);
      case Element(t, children, next) =>
        var after := [End(t.name)] + (next.Events() + rest);
        assert es[1..] == children.Events() + after;
        PrintedIsNested(children, after, [t] + open);
        assert after[1..] == next.Events() + rest;
        assert ([t] + open)[1..] == open;
        PrintedIsNested(next, rest, open);
    }
  }

  /** Every well-nested stream is the printing of a forest. */
  lemma {:induction false} NestedIsPrinted(es: seq<Event>, open: seq<Tag>) returns (f: Forest, rest: seq<Event>)
    requires Open(es, open) == Some([])
    ensures f.Valid() && es == f.Events() + rest && |rest| <= |es|
    ensures Open(rest, open) == Some([]) && (|rest| == 0 || rest[0].End?)
    decreases |es|
  {
    if |es| == 0 || es[0].End? {
      return Nil, es;
    }
    var head, tail := es[0], es[1..];
    assert es == [head] + tail;
    if head.Start? {
      var t := head.tag;
      var children, after := NestedIsPrinted(tail, [t] + open);
      assert ([t] + open)[1..] == open;
      assert after == [End(t.name)] + after[1..];
      var next, r := NestedIsPrinted(after[1..], open);
      f, rest := Element(t, children, next), r;
      ElementEvents(t, children, next, rest);
    } else {
      var next, r := NestedIsPrinted(tail, open);
      f, rest := Leaf(head, next), r;
    }
  }

  lemma ElementEvents(t: Tag, children: Forest, next: Forest, rest: seq<Event>)
    ensures Element(t, children, next).Events() + rest
            == [Start(t)] + (children.Events() + ([End(t.name)] + (next.Events() + rest)))
  {
  }

  /** A stream is well nested exactly when it prints some forest. */
  lemma WellNestedIffPrinted(es: seq<Event>)
    ensures WellNested(es) <==> exists f: Forest :: f.Valid() && f.Events() == es
  {
    if WellNested(es) {
      var f, rest := NestedIsPrinted(es, []);
      assert rest == [] && f.Events() + rest == f.Events();
    }
    if f: Forest :| f.Valid() && f.Events() == es {
      PrintedIsNested(f, [], []);
      assert f.Events() + [] == es;
    }
  }

  // ----- What the pass promises -----

  lemma {:induction false} HasExpandableIff(f: Forest)
    ensures f.HasExpandable() <==> exists e :: e in f.Events() && Expandable(e)
  {
    match f {
      case Nil =>
      case Leaf(e, next) =>
        HasExpandableIff(next);
        assert e in f.Events();
        assert forall d :: d in f.Events() <==> d == e || d in next.Events();
      case Element(t, children, next) =>
        HasExpandableIff(children);
        HasExpandableIff(next);
        assert Start(t) in f.Events();
        assert forall d :: d in f.Events() <==>
            d == Start(t) || d in children.Events() || d == End(t.name) || d in next.Events();
    }
  }

  lemma {:induction false} RewrittenValid(f: Forest)
    requires f.Valid()
    ensures f.Rewritten().Valid()
  {
    match f
    case Nil =>
    case Leaf(_, next) => RewrittenValid(next);
    case Element(_, children, next) => RewrittenValid(children); RewrittenValid(next);
  }

  function ErasePasted(es: seq<Event>): seq<Event> {
    if |es| == 0 then []
    else if es[0].Pasted? then ErasePasted(es[1..])
    else [es[0]] + ErasePasted(es[1..])
  }

  lemma {:induction false} EraseConcat(a: seq<Event>, b: seq<Event>)
    ensures ErasePasted(a + b) == ErasePasted(a) + ErasePasted(b)
  {
    if |a| == 0 {
      assert a + b == b;
    } else {
      assert (a + b)[1..] == a[1..] + b;
      EraseConcat(a[1..], b);
    }
  }

  /** Erasing the pasted payloads leaves the input with exactly the expanded includes cut out. */
  lemma {:induction false} EraseRewritten(f: Forest)
    requires f.Valid() && forall e :: e in f.Events() ==> !e.Pasted?
    ensures ErasePasted(f.Rewritten().Events()) == f.Pruned().Events()
  {
    match f {
      case Nil =>
      case Leaf(e, next) =>
        assert e in f.Events();
        assert forall d :: d in next.Events() ==> d in f.Events();
        EraseRewritten(next);
        assert f.Rewritten().Events()[1..] == next.Rewritten().Events();
      case Element(t, children, next) =>
        assert forall d :: d in next.Events() ==> d in f.Events();
        assert forall d :: d in children.Events() ==> d in f.Events();
        EraseRewritten(next);
        if Expandable(Start(t)) {
          assert f.Rewritten().Events()[1..] == next.Rewritten().Events();
        } else {
          EraseRewritten(children);
          var c, n := children.Rewritten().Events(), next.Rewritten().Events();
          EraseConcat([Start(t)] + c + [End(t.name)], n);
          EraseConcat([Start(t)] + c, [End(t.name)]);
          EraseConcat([Start(t)], c);
          assert ErasePasted([Start(t)]) == [Start(t)] && ErasePasted([End(t.name)]) == [End(t.name)];
        }
    }
  }

  /**
   On a well-nested, error-free document that passes the probe: the machine does to the stream what
   `Rewritten` does to the tree, keeps it well nested, and returns something exactly when some include
   can be expanded.
   */
  lemma ExpandsDocuments(es: seq<Event>) returns (f: Forest)
    requires WellNested(es) && forall e :: e in es ==> !e.Pasted?
    ensures f.Valid() && f.Events() == es
    ensures var r := Result(true, Stream(es, Eof));
            && (r.Some? <==> exists e :: e in es && Expandable(e))
            && (r.Some? ==>
                  && r.value == f.Rewritten().Events() && WellNested(r.value)
                  && ErasePasted(r.value) == f.Pruned().Events())
  {
    var rest;
    f, rest := NestedIsPrinted(es, []);
    assert rest == [] && f.Events() == es && f.Events() + [] == es;
    ExpandedForest(f, []);
    var out := f.Rewritten().Events();
    assert out + [] == out;
    HasExpandableIff(f);
    RewrittenValid(f);
    PrintedIsNested(f.Rewritten(), [], []);
    EraseRewritten(f);
  }

  /** A printed document comes back rewritten if some include in it is expandable, and otherwise not at all. */
  lemma ForestResult(f: Forest)
    requires f.Valid()
    ensures Result(true, Stream(f.Events(), Eof)) ==
            if f.HasExpandable() then Some(f.Rewritten().Events()) else None
  {
    ExpandedForest(f, []);
    assert f.Events() + [] == f.Events();
    assert f.Rewritten().Events() + [] == f.Rewritten().Events();
  }

  // ----- Back to the input -----

  /** Each payload replaced, in order, by the next of `cuts`. */
  function Restore(out: seq<Event>, cuts: seq<seq<Event>>): seq<Event> {
    if |out| == 0 then []
    else if out[0].Pasted? && |cuts| > 0 then cuts[0] + Restore(out[1..], cuts[1..])
    else [out[0]] + Restore(out[1..], cuts)
  }

  /** The payloads in `out`, in order. */
  function Payloads(out: seq<Event>): seq<string> {
    if |out| == 0 then []
    else (if out[0].Pasted? then [out[0].body] else []) + Payloads(out[1..])
  }

  lemma {:induction false} PayloadsConcat(a: seq<Event>, b: seq<Event>)
    ensures Payloads(a + b) == Payloads(a) + Payloads(b)
  {
    if |a| == 0 {
      assert a + b == b;
    } else {
      assert (a + b)[1..] == a[1..] + b;
      PayloadsConcat(a[1..], b);
    }
  }

  lemma {:induction false} RestoreConcat(a: seq<Event>, b: seq<Event>, c: seq<seq<Event>>, d: seq<seq<Event>>)
    requires |c| == |Payloads(a)|
    ensures Restore(a + b, c + d) == Restore(a, c) + Restore(b, d)
  {
    if |a| == 0 {
      assert a + b == b && c + d == d;
    } else {
      assert (a + b)[1..] == a[1..] + b;
      if a[0].Pasted? {
        assert (c + d)[1..] == c[1..] + d;
        RestoreConcat(a[1..], b, c[1..], d);
      } else {
        RestoreConcat(a[1..], b, c, d);
      }
    }
  }

  /** A whole include element: an empty tag, or a start tag with everything up to the end tag that closes it. */
  ghost predicate IncludeElement(es: seq<Event>, body: string) {
    && |es| > 0 && Names(es[0]) && es[0].tag.body == Some(body)
    && (es[0].Empty? ==> |es| == 1)
    && (es[0].Start? ==> exists children: Forest ::
          children.Valid() && es == [es[0]] + children.Events() + [End(es[0].tag.name)])
  }

  ghost predicate IncludeElements(cuts: seq<seq<Event>>, bodies: seq<string>) {
    |cuts| == |bodies| && forall i :: 0 <= i < |cuts| ==> IncludeElement(cuts[i], bodies[i])
  }

  lemma ElementsConcat(c: seq<seq<Event>>, b: seq<string>, d: seq<seq<Event>>, a: seq<string>)
    requires IncludeElements(c, b) && IncludeElements(d, a)
    ensures IncludeElements(c + d, b + a) && |c + d| == |b + a|
  {
    hide IncludeElement;
  }

  /**
   The input is the output with each payload put back into a whole include element that pulled it in: includes are
   expanded in place, in order, each with its own payload, and everything else is copied.
   */
  lemma {:induction false} RewritingRestores(f: Forest) returns (cuts: seq<seq<Event>>)
    requires f.Valid() && forall e :: e in f.Events() ==> !e.Pasted?
    ensures var out := f.Rewritten().Events();
            && IncludeElements(cuts, Payloads(out)) && Restore(out, cuts) == f.Events()
            && |cuts| == |Payloads(out)| && (|cuts| > 0 <==> f.HasExpandable())
  {
    hide IncludeElements, Restore, Payloads;
    match f {
      case Nil =>
        cuts := [];
        NothingRestores();
      case Leaf(e, next) =>
        assert e in f.Events();
        assert forall d :: d in next.Events() ==> d in f.Events();
        var rest := RewritingRestores(next);
        if Expandable(e) {
          var body, out := e.tag.body.value, next.Rewritten().Events();
          WholeInclude(e, Nil);
          PasteRestores(body, out, [e], rest);
          ElementsConcat([[e]], [body], rest, Payloads(out));
          cuts := [[e]] + rest;
        } else {
          CopyRestores(e, next.Rewritten().Events(), rest);
          cuts := rest;
        }
      case Element(t, children, next) =>
        assert forall d :: d in next.Events() ==> d in f.Events();
        assert forall d :: d in children.Events() ==> d in f.Events();
        var rest := RewritingRestores(next);
        if Expandable(Start(t)) {
          var cut := [Start(t)] + children.Events() + [End(t.name)];
          var out := next.Rewritten().Events();
          WholeInclude(Start(t), children);
          PasteRestores(t.body.value, out, cut, rest);
          ElementsConcat([cut], [t.body.value], rest, Payloads(out));
          cuts := [cut] + rest;
        } else {
          var inner := RewritingRestores(children);
          cuts := inner + rest;
          var c, n := children.Rewritten().Events(), next.Rewritten().Events();
          ElementRestores(t, c, n, inner, rest);
          ElementsConcat(inner, Payloads(c), rest, Payloads(n));
        }
    }
  }

  lemma NothingRestores()
    ensures Restore([], []) == [] && Payloads([]) == [] && IncludeElements([], [])
  {
  }

  lemma WholeInclude(e: Event, children: Forest)
    requires Expandable(e) && children.Valid()
    ensures e.Empty? ==> IncludeElements([[e]], [e.tag.body.value])
    ensures e.Start? ==> IncludeElements([[e] + children.Events() + [End(e.tag.name)]], [e.tag.body.value])
  {
    var es := [e] + children.Events() + [End(e.tag.name)];
    assert es[0] == e && es == [es[0]] + children.Events() + [End(es[0].tag.name)];
  }

  lemma PasteRestores(body: string, out: seq<Event>, cut: seq<Event>, rest: seq<seq<Event>>)
    ensures Payloads([Pasted(body)] + out) == [body] + Payloads(out)
    ensures Restore([Pasted(body)] + out, [cut] + rest) == cut + Restore(out, rest)
  {
    assert ([Pasted(body)] + out)[1..] == out && ([cut] + rest)[1..] == rest;
  }

  lemma CopyRestores(e: Event, out: seq<Event>, rest: seq<seq<Event>>)
    requires !e.Pasted?
    ensures Payloads([e] + out) == Payloads(out)
    ensures Restore([e] + out, rest) == [e] + Restore(out, rest)
  {
    assert ([e] + out)[1..] == out;
  }

  lemma ElementRestores(t: Tag, c: seq<Event>, n: seq<Event>, inner: seq<seq<Event>>, rest: seq<seq<Event>>)
    requires |inner| == |Payloads(c)|
    ensures var out := [Start(t)] + c + [End(t.name)] + n;
            && Payloads(out) == Payloads(c) + Payloads(n)
            && Restore(out, inner + rest) == [Start(t)] + Restore(c, inner) + [End(t.name)] + Restore(n, rest)
  {
    var out := [Start(t)] + c + [End(t.name)] + n;
    var tail := [End(t.name)] + n;
    assert out == [Start(t)] + (c + tail) && out[1..] == c + tail && tail[1..] == n;
    PayloadsConcat(c, tail);
    RestoreConcat(c, tail, inner, rest);
  }

  /** What `ExpandsDocuments` returns, taken back to the input. */
  lemma ExpansionRestores(es: seq<Event>) returns (cuts: seq<seq<Event>>)
    requires WellNested(es) && forall e :: e in es ==> !e.Pasted?
    ensures var r := Result(true, Stream(es, Eof));
            r.Some? ==>
              && |cuts| == |Payloads(r.value)| > 0 && Restore(r.value, cuts) == es
              && IncludeElements(cuts, Payloads(r.value))
  {
    var f := ExpandsDocuments(es);
    cuts := RewritingRestores(f);
    ForestResult(f);
  }

  // ----- Streams with elements left open -----

  /** What follows the end tag that closes the outermost of the elements `inner`; `None` if it never comes. */
  function AfterClose(es: seq<Event>, inner: seq<Tag>): Option<seq<Event>> {
    if |inner| == 0 then Some(es)
    else if |es| == 0 then None
    else
      match es[0]
      case Start(t) => AfterClose(es[1..], [t] + inner)
      case End(_) => AfterClose(es[1..], inner[1..])
      case _ => AfterClose(es[1..], inner)
  }

  function IncludeCount(tags: seq<Tag>): nat {
    if |tags| == 0 then 0
    else (if IsInclude(tags[0].name) then 1 else 0) + IncludeCount(tags[1..])
  }

  lemma {:induction false} IncludeCountLast(tags: seq<Tag>)
    requires |tags| > 0 && IsInclude(tags[|tags| - 1].name)
    ensures IncludeCount(tags) > 0
  {
    if |tags| > 1 {
      IncludeCountLast(tags[1..]);
    }
  }

  /**
   The partial counter is exact on every stream the reader accepts: its depth is the number of open
   include-named elements, so it reaches zero when, and only when, the entered include is closed.
   */
  lemma {:induction false} SwallowTracksStack(es: seq<Event>, inner: seq<Tag>, outer: seq<Tag>)
    requires Open(es, inner + outer).Some?
    requires |inner| > 0 ==> IsInclude(inner[|inner| - 1].name)
    ensures Swallow(es, IncludeCount(inner)) == AfterClose(es, inner)
    decreases |es|
  {
    if |inner| > 0 {
      IncludeCountLast(inner);
      if |es| > 0 {
        match es[0] {
          case Start(t) =>
            assert [t] + (inner + outer) == [t] + inner + outer;
            assert ([t] + inner)[1..] == inner;
            SwallowTracksStack(es[1..], [t] + inner, outer);
          case End(_) =>
            assert (inner + outer)[1..] == inner[1..] + outer;
            SwallowTracksStack(es[1..], inner[1..], outer);
          case _ =>
            SwallowTracksStack(es[1..], inner, outer);
        }
      }
    }
  }

  /** Closing `inner` leaves the reader with the elements outside; otherwise its outermost stays open. */
  lemma {:induction false} CloseOrStayOpen(es: seq<Event>, inner: seq<Tag>, outer: seq<Tag>)
    requires Open(es, inner + outer).Some?
    ensures AfterClose(es, inner).Some? ==>
              Open(AfterClose(es, inner).value, outer) == Open(es, inner + outer)
              && |AfterClose(es, inner).value| <= |es|
    ensures AfterClose(es, inner).None? ==> |inner| > 0 && inner[|inner| - 1] in Open(es, inner + outer).value
    decreases |es|
  {
    if |inner| == 0 {
      assert inner + outer == outer;
    } else if |es| > 0 {
      match es[0] {
        case Start(t) =>
          assert [t] + (inner + outer) == [t] + inner + outer;
          CloseOrStayOpen(es[1..], [t] + inner, outer);
        case End(_) =>
          assert (inner + outer)[1..] == inner[1..] + outer;
          CloseOrStayOpen(es[1..], inner[1..], outer);
        case _ =>
          CloseOrStayOpen(es[1..], inner, outer);
      }
    } else {
      assert inner[|inner| - 1] in inner + outer;
    }
  }

  /** On any stream the reader accepts, the machine gives up exactly when an expandable include is never closed. */
  lemma {:induction false} GivesUpIff(es: seq<Event>, open: seq<Tag>)
    requires Open(es, open).Some? && forall t :: t in open ==> !Expandable(Start(t))
    ensures Expanded(es).None? <==> exists t :: t in Open(es, open).value && Expandable(Start(t))
    decreases |es|
  {
    if |es| > 0 {
      var e := es[0];
      match e {
        case Start(t) =>
          if Expandable(e) {
            assert [t] + open == [t] + open && IncludeCount([t]) == 1;
            SwallowTracksStack(es[1..], [t], open);
            CloseOrStayOpen(es[1..], [t], open);
            var rest := Swallow(es[1..], 1);
            if rest.Some? {
              GivesUpIff(rest.value, open);
            }
          } else {
            GivesUpIff(es[1..], [t] + open);
          }
        case End(_) =>
          GivesUpIff(es[1..], open[1..]);
        case _ =>
          GivesUpIff(es[1..], open);
      }
    }
  }

  lemma {:induction false} FlagIff(es: seq<Event>)
    requires Expanded(es).Some?
    ensures Expanded(es).value.1 <==> exists e :: e in es && Expandable(e)
  {
    if |es| > 0 && !Expandable(es[0]) {
      FlagIff(es[1..]);
      assert forall e :: e in es <==> e == es[0] || e in es[1..];
    }
  }

  /**
   On any stream the reader accepts, something is returned exactly when the bytes mention the tag, no reader error
   ends the stream, some include is expandable, and none of the expandable ones is left open.
   */
  lemma ReturnsIff(mentionsInclude: bool, es: seq<Event>, ending: Ending)
    requires Open(es, []).Some?
    ensures Result(mentionsInclude, Stream(es, ending)).Some? <==>
            && mentionsInclude && ending == Eof
            && (exists e :: e in es && Names(e) && e.tag.body.Some?)
            && !exists t :: t in Open(es, []).value && Names(Start(t)) && t.body.Some?
  {
    assert forall e :: Names(e) && e.tag.body.Some? <==> Expandable(e);
    GivesUpIff(es, []);
    if Expanded(es).Some? {
      FlagIff(es);
    }
  }

  /** An opening tag of either spelling. */
  predicate Names(e: Event) {
    match e
    case Start(t) => t.name == "xi:include" || t.name == "include"
    case Empty(t) => t.name == "xi:include" || t.name == "include"
    case _ => false
  }

  /** A complete include is not expanded either if a later one is never closed. */
  lemma OpenIncludeKeepsAll(body: string)
    ensures var open := Tag("xi:include", Some(body));
            var es := [Empty(open), Start(open)];
            && Result(true, Stream(es[..1], Eof)) == Some([Pasted(body)])
            && Open(es, []) == Some([open]) && Result(true, Stream(es, Eof)) == None
  {
    var open := Tag("xi:include", Some(body));
    var es := [Empty(open), Start(open)];
    var once := Leaf(Empty(open), Nil);
    ForestResult(once);
    assert once.Events() == [Empty(open)] + Nil.Events() == [Empty(open)];
    assert once.Rewritten() == Leaf(Pasted(body), Nil);
    assert once.Rewritten().Events() == [Pasted(body)] + Nil.Events() == [Pasted(body)];
    assert es[..1] == [Empty(open)] && es[1..] == [Start(open)] && es[1..][1..] == [];
    assert [Start(open)][1..] == [] && [open] + [] == [open];
    assert Open(es, []) == Open([Start(open)], []) == Open([], [open]);
    assert Expandable(Start(open));
    ReturnsIff(true, es, Eof);
  }
}
