/**
 What an include tag pulls in: the data URI of its `href`, decoded, without XML declaration. Text stands for
 the bytes it is made of; base64 and UTF-8 are foreign, so `decode` and `isText` are parameters.
 */
module Payload {
  import opened Common
  import opened XInclude

  datatype Attribute = Attribute(key: string, value: string)

  type Decoder = string -> Option<string>

  const XML_URI := "data:text/xml;base64,"
  const SVG_URI := "data:image/svg+xml;base64,"
  const DECLARATION := "<?xml"

  predicate IsBlank(c: char) {
    c in {' ', '\t', '\r', '\n'}
  }

  predicate AllBlank(s: string) {
    forall i :: 0 <= i < |s| ==> IsBlank(s[i])
  }

  predicate StartsBlank(s: string) {
    |s| > 0 && IsBlank(s[0])
  }

  function StripPrefix(s: string, prefix: string): Option<string> {
    if prefix <= s then Some(s[|prefix|..]) else None
  }

  function DataUri(value: string): Option<string> {
    match StripPrefix(value, XML_URI)
    case Some(p) => Some(p)
    case None => StripPrefix(value, SVG_URI)
  }

  /** The first `href` decides, whatever comes of it. */
  function DataUriPayload(attributes: seq<Attribute>, decode: Decoder): Option<string> {
    if |attributes| == 0 then None
    else if attributes[0].key != "href" then DataUriPayload(attributes[1..], decode)
    else
      match DataUri(attributes[0].value)
      case None => None
      case Some(p) => decode(p)
  }

  function Trimmed(s: string): (r: string)
    ensures |r| <= |s| && !StartsBlank(r)
  {
    if StartsBlank(s) then Trimmed(s[1..]) else s
  }

  method TrimLeadingWhitespace(s: string) returns (r: string)
    ensures r == Trimmed(s)
    ensures |r| <= |s| && r == s[|s| - |r|..]
    ensures forall i :: 0 <= i < |s| - |r| ==> s[i] == ' ' || s[i] == '\t' || s[i] == '\r' || s[i] == '\n'
    ensures |r| > 0 ==> r[0] != ' ' && r[0] != '\t' && r[0] != '\r' && r[0] != '\n'
  {
    var i := 0;
    assert s[0..] == s;
    while i < |s| && IsBlank(s[i])
      invariant i <= |s| && Trimmed(s[i..]) == Trimmed(s)
      invariant forall j :: 0 <= j < i ==> IsBlank(s[j])
    {
      assert s[i..][1..] == s[i + 1..];
      i := i + 1;
    }
    return s[i..];
  }

  /** Where `c` first occurs. */
  function Position(s: string, c: char): (r: Option<nat>)
    ensures r.Some? ==> r.value < |s| && s[r.value] == c && c !in s[..r.value]
    ensures r.None? ==> c !in s
  {
    if |s| == 0 then None
    else if s[0] == c then Some(0)
    else
      match Position(s[1..], c)
      case None => None
      case Some(i) => Some(i + 1)
  }

  function AfterDeclaration(s: string): Option<string> {
    match StripPrefix(s, DECLARATION)
    case None => Some(s)
    case Some(rest) =>
      match Position(rest, '>')
      case None => None
      case Some(end) => Some(Trimmed(rest[end + 1..]))
  }

  function StripProlog(payload: string, isText: string -> bool): Option<string> {
    match AfterDeclaration(Trimmed(payload))
    case Some(s) => if isText(s) then Some(s) else None
    case None => None
  }

  /** The tag as the rewriter sees it. */
  function ReadTag(name: string, attributes: seq<Attribute>, decode: Decoder, isText: string -> bool): Tag {
    Tag(name,
        match DataUriPayload(attributes, decode)
        case Some(p) => StripProlog(p, isText)
        case None => None)
  }

  // ----- What stripping promises -----

  /** Blanks, then `doc`. */
  predicate Bare(payload: string, w: string, doc: string) {
    payload == w + doc && AllBlank(w) && !(DECLARATION <= doc)
  }

  /** Blanks, whatever begins with `<?xml` up to its first `>`, blanks, then `doc`. */
  predicate Cut(payload: string, w: string, d: string, v: string, doc: string) {
    payload == w + (DECLARATION + (d + (['>'] + (v + doc)))) && AllBlank(w) && '>' !in d && AllBlank(v)
  }

  lemma {:induction false} TrimmedSplits(s: string) returns (w: string)
    ensures AllBlank(w) && s == w + Trimmed(s)
  {
    w := [];
    if StartsBlank(s) {
      var rest := TrimmedSplits(s[1..]);
      w := [s[0]] + rest;
      assert s == [s[0]] + s[1..] && w + Trimmed(s) == [s[0]] + (rest + Trimmed(s));
    }
  }

  lemma {:induction false} TrimmedUnique(w: string, s: string)
    requires AllBlank(w) && !StartsBlank(s)
    ensures Trimmed(w + s) == s
  {
    if |w| == 0 {
      assert w + s == s;
    } else {
      assert (w + s)[0] == w[0] && (w + s)[1..] == w[1..] + s;
      assert AllBlank(w[1..]);
      TrimmedUnique(w[1..], s);
    }
  }

  lemma {:induction false} PositionUnique(d: string, c: char, rest: string)
    requires c !in d
    ensures Position(d + [c] + rest, c) == Some(|d|)
  {
    if |d| == 0 {
      assert (d + [c] + rest)[0] == c;
    } else {
      assert (d + [c] + rest)[0] == d[0] && (d + [c] + rest)[1..] == d[1..] + [c] + rest;
      PositionUnique(d[1..], c, rest);
    }
  }

  lemma BareStripped(payload: string, w: string, doc: string)
    requires Bare(payload, w, doc) && !StartsBlank(doc)
    ensures AfterDeclaration(Trimmed(payload)) == Some(doc)
  {
    TrimmedUnique(w, doc);
  }

  lemma PrefixStripped(prefix: string, rest: string)
    ensures StripPrefix(prefix + rest, prefix) == Some(rest)
  {
  }

  lemma PrefixSplit(s: string, prefix: string)
    requires StripPrefix(s, prefix).Some?
    ensures s == prefix + StripPrefix(s, prefix).value
  {
  }

  lemma DeclarationNotBlank(rest: string)
    ensures !StartsBlank(DECLARATION + rest)
  {
    assert (DECLARATION + rest)[0] == '<';
  }

  /** What follows the first `>` and blanks. */
  lemma AfterEnd(d: string, v: string, doc: string)
    requires '>' !in d && AllBlank(v) && !StartsBlank(doc)
    ensures var rest := d + (['>'] + (v + doc));
            Position(rest, '>') == Some(|d|) && Trimmed(rest[|d| + 1..]) == doc
  {
    var rest := d + (['>'] + (v + doc));
    PositionUnique(d, '>', v + doc);
    assert rest == d + ['>'] + (v + doc) && rest[|d| + 1..] == v + doc;
    TrimmedUnique(v, doc);
  }

  lemma CutStripped(payload: string, w: string, d: string, v: string, doc: string)
    requires Cut(payload, w, d, v, doc) && !StartsBlank(doc)
    ensures AfterDeclaration(Trimmed(payload)) == Some(doc)
  {
    hide StripPrefix, Position, Trimmed, StartsBlank;
    var rest := d + (['>'] + (v + doc));
    DeclarationNotBlank(rest);
    TrimmedUnique(w, DECLARATION + rest);
    PrefixStripped(DECLARATION, rest);
    AfterEnd(d, v, doc);
  }

  lemma AfterDeclarationSplits(s: string, doc: string) returns (d: string, v: string)
    requires StripPrefix(s, DECLARATION).Some? && AfterDeclaration(s) == Some(doc)
    ensures s == DECLARATION + (d + (['>'] + (v + doc))) && '>' !in d && AllBlank(v) && !StartsBlank(doc)
  {
    hide StripPrefix, Position, Trimmed, StartsBlank, AllBlank;
    PrefixSplit(s, DECLARATION);
    var rest := StripPrefix(s, DECLARATION).value;
    var end := Position(rest, '>').value;
    var tail := rest[end + 1..];
    d := rest[..end];
    v := TrimmedSplits(tail);
    assert rest == d + (['>'] + tail);
  }

  /** How a payload splits around what is kept of it. */
  lemma Splits(payload: string, doc: string) returns (w: string, d: string, v: string)
    requires AfterDeclaration(Trimmed(payload)) == Some(doc)
    ensures !StartsBlank(doc) && (Bare(payload, w, doc) || Cut(payload, w, d, v, doc))
  {
    hide Trimmed, StartsBlank, AllBlank;
    var s := Trimmed(payload);
    w := TrimmedSplits(payload);
    d, v := "", "";
    if StripPrefix(s, DECLARATION).Some? {
      d, v := AfterDeclarationSplits(s, doc);
    }
  }

  /** A payload yields exactly the text behind its blanks and, if that begins with `<?xml`, the first `>` after it. */
  lemma StripPrologIff(payload: string, isText: string -> bool, doc: string)
    ensures StripProlog(payload, isText) == Some(doc) <==>
            && isText(doc) && !StartsBlank(doc)
            && ((exists w :: Bare(payload, w, doc)) || exists w, d, v :: Cut(payload, w, d, v, doc))
  {
    if StripProlog(payload, isText) == Some(doc) {
      var w, d, v := Splits(payload, doc);
      if !Bare(payload, w, doc) {
        assert Cut(payload, w, d, v, doc);
      }
    }
    if !StartsBlank(doc) {
      forall w | Bare(payload, w, doc)
        ensures AfterDeclaration(Trimmed(payload)) == Some(doc)
      {
        BareStripped(payload, w, doc);
      }
      forall w, d, v | Cut(payload, w, d, v, doc)
        ensures AfterDeclaration(Trimmed(payload)) == Some(doc)
      {
        CutStripped(payload, w, d, v, doc);
      }
    }
  }

  // ----- What stripping was meant to do -----

  /** Where the first `?>` is. */
  function FirstClose(s: string): (r: Option<nat>)
    ensures r.Some? ==> r.value + 1 < |s| && s[r.value] == '?' && s[r.value + 1] == '>'
    ensures forall j :: 0 <= j < |s| - 1 && (r.Some? ==> j < r.value) ==> !(s[j] == '?' && s[j + 1] == '>')
  {
    if |s| < 2 then None
    else if s[0] == '?' && s[1] == '>' then Some(0)
    else
      match FirstClose(s[1..])
      case None => None
      case Some(i) => Some(i + 1)
  }

  /**
   Dropping a leading XML declaration, as XML 1.0 has it: `<?xml` and a blank, up to the first `?>`; blanks after
   it go as well. Other instructions are content. `None` if the declaration is never closed.
   */
  function Promised(s: string): Option<string> {
    match StripPrefix(s, DECLARATION)
    case None => Some(s)
    case Some(rest) =>
      if !StartsBlank(rest) then Some(s)
      else
        match FirstClose(rest)
        case None => None
        case Some(i) => Some(Trimmed(rest[i + 2..]))
  }

  /** If `s` begins with `<?xml`, then with a blank after it, and its first `>`, if any, closes with `?>`. */
  predicate OrdinaryStart(s: string) {
    match StripPrefix(s, DECLARATION)
    case None => true
    case Some(rest) =>
      && StartsBlank(rest)
      && match Position(rest, '>')
         case None => true
         case Some(end) => end > 0 && rest[end - 1] == '?'
  }

  lemma {:induction false} TrimmedStops(s: string, i: nat)
    requires i < |s| && !IsBlank(s[i])
    ensures |Trimmed(s)| >= |s| - i
  {
    if StartsBlank(s) {
      TrimmedStops(s[1..], i - 1);
    }
  }

  lemma NoneBefore(s: string, c: char)
    ensures var end := if Position(s, c).Some? then Position(s, c).value else |s|;
            forall j :: 0 <= j < end ==> s[j] != c
  {
    if Position(s, c).Some? {
      assert forall j :: 0 <= j < Position(s, c).value ==> s[..Position(s, c).value][j] == s[j];
    }
  }

  /** The first `>` closes the declaration exactly if a `?` stands before it. */
  lemma CloseAtPosition(rest: string, end: nat)
    requires Position(rest, '>') == Some(end)
    ensures end > 0 && rest[end - 1] == '?' ==> FirstClose(rest) == Some(end - 1)
    ensures !(end > 0 && rest[end - 1] == '?') && FirstClose(rest).Some? ==> FirstClose(rest).value > end
  {
    NoneBefore(rest, '>');
    if end > 0 && rest[end - 1] == '?' {
      assert rest[end - 1 + 1] == '>';
    }
  }

  /** Cutting at an earlier `>` keeps more than was meant. */
  lemma CutTooEarly(rest: string, end: nat, i: nat)
    requires end < i && i + 1 < |rest| && rest[i] == '?'
    ensures |Trimmed(rest[end + 1..])| > |Trimmed(rest[i + 2..])|
  {
    TrimmedStops(rest[end + 1..], i - end - 1);
  }

  /** Stripping does what it was meant to exactly on ordinary starts. */
  lemma KeepsPromiseIff(s: string)
    ensures AfterDeclaration(s) == Promised(s) <==> OrdinaryStart(s)
  {
    if StripPrefix(s, DECLARATION).Some? {
      var rest := StripPrefix(s, DECLARATION).value;
      NoneBefore(rest, '>');
      if Position(rest, '>').Some? {
        var end := Position(rest, '>').value;
        CloseAtPosition(rest, end);
        if StartsBlank(rest) && !OrdinaryStart(s) && FirstClose(rest).Some? {
          CutTooEarly(rest, end, FirstClose(rest).value);
        }
      }
    }
  }

  /** An XML declaration is dropped with the blanks around it. */
  lemma DeclarationDropped(w: string, d: string, v: string, doc: string, isText: string -> bool)
    requires AllBlank(w) && AllBlank(v) && !StartsBlank(doc) && isText(doc)
    requires StartsBlank(d) && '>' !in d
    ensures StripProlog(w + ("<?xml" + (d + ("?>" + (v + doc)))), isText) == Some(doc)
  {
    hide AfterDeclaration, Trimmed;
    var payload := w + ("<?xml" + (d + ("?>" + (v + doc))));
    assert d + ("?>" + (v + doc)) == (d + "?") + (['>'] + (v + doc));
    CutStripped(payload, w, d + "?", v, doc);
  }

  lemma InstructionKept(rest: string)
    requires !StartsBlank(rest)
    ensures var s := DECLARATION + rest; Promised(s) == Some(s) && !OrdinaryStart(s)
  {
    PrefixStripped(DECLARATION, rest);
  }

  /** An instruction that is no declaration is cut all the same. */
  lemma InstructionCut(d: string, doc: string, isText: string -> bool)
    requires |d| > 0 && !IsBlank(d[0]) && '>' !in d && !StartsBlank(doc) && isText(doc)
    ensures var payload := DECLARATION + (d + (['>'] + doc));
            && StripProlog(payload, isText) == Some(doc)
            && Promised(Trimmed(payload)) == Some(payload) && !OrdinaryStart(Trimmed(payload))
  {
    hide AfterDeclaration, Trimmed, Promised, OrdinaryStart;
    var tail := d + (['>'] + doc);
    var payload := DECLARATION + tail;
    assert payload == "" + (DECLARATION + (d + (['>'] + ("" + doc)))) && "" + payload == payload;
    CutStripped(payload, "", d, "", doc);
    DeclarationNotBlank(tail);
    TrimmedUnique("", payload);
    assert tail[0] == d[0];
    InstructionKept(tail);
  }

  /** A stylesheet instruction before a document is cut in its middle, and its rest pasted with the document. */
  lemma StylesheetMistaken(isText: string -> bool)
    requires isText("\"?><svg/>")
    ensures var payload := "<?xml-stylesheet href=\">\"?><svg/>";
            && StripProlog(payload, isText) == Some("\"?><svg/>")
            && Promised(Trimmed(payload)) == Some(payload) && !OrdinaryStart(Trimmed(payload))
  {
    hide StripProlog, Trimmed, Promised, OrdinaryStart;
    var d, doc := "-stylesheet href=\"", "\"?><svg/>";
    assert "<?xml-stylesheet href=\"" == DECLARATION + d;
    assert "<?xml-stylesheet href=\">\"?><svg/>" == "<?xml-stylesheet href=\"" + (['>'] + doc);
    assert DECLARATION + d + (['>'] + doc) == DECLARATION + (d + (['>'] + doc));
    InstructionCut(d, doc, isText);
  }

  // ----- From attribute to output -----

  lemma {:induction false} FirstHref(before: seq<Attribute>, value: string, after: seq<Attribute>, decode: Decoder)
    requires forall a :: a in before ==> a.key != "href"
    ensures DataUriPayload(before + [Attribute("href", value)] + after, decode)
            == if DataUri(value).None? then None else decode(DataUri(value).value)
  {
    if |before| != 0 {
      var all := before + [Attribute("href", value)] + after;
      assert all[0] == before[0] && all[1..] == before[1..] + [Attribute("href", value)] + after;
      FirstHref(before[1..], value, after, decode);
    }
  }

  lemma DataUriRead(uri: string, code: string)
    requires uri == XML_URI || uri == SVG_URI
    ensures DataUri(uri + code) == Some(code)
  {
    PrefixStripped(uri, code);
    if uri == SVG_URI {
      assert (uri + code)[5] == 'i' && XML_URI[5] == 't';
    }
  }

  lemma TagRead(name: string, before: seq<Attribute>, after: seq<Attribute>, uri: string, code: string,
                payload: string, decode: Decoder, isText: string -> bool)
    requires uri == XML_URI || uri == SVG_URI
    requires decode(code) == Some(payload) && forall a :: a in before ==> a.key != "href"
    ensures ReadTag(name, before + [Attribute("href", uri + code)] + after, decode, isText)
            == Tag(name, StripProlog(payload, isText))
  {
    hide DataUri, DataUriPayload, StripProlog;
    FirstHref(before, uri + code, after, decode);
    DataUriRead(uri, code);
  }

  lemma PastedTag(t: Tag, f: Forest)
    requires IsInclude(t.name) && t.body.Some? && f.Valid()
    ensures XInclude.Result(true, Stream([Empty(t)] + f.Events(), Eof))
            == Some([Pasted(t.body.value)] + f.Rewritten().Events())
    ensures XInclude.Result(true, Stream([Start(t)] + f.Events() + [End(t.name)], Eof)) == Some([Pasted(t.body.value)])
  {
    ForestResult(Leaf(Empty(t), f));
    var es := [Start(t)] + f.Events() + [End(t.name)];
    assert Element(t, f, Nil).Events() == es + [] == es;
    assert Element(t, f, Nil).Rewritten() == Leaf(Pasted(t.body.value), Nil);
    assert Leaf(Pasted(t.body.value), Nil).Events() == [Pasted(t.body.value)] + Nil.Events() == [Pasted(t.body.value)];
    ForestResult(Element(t, f, Nil));
  }

  /**
   An include-named tag whose first `href` is a base64 data URI is replaced by what stripping leaves of the payload,
   which for ordinary payloads is the payload without its declaration; an empty tag leaves what follows to the pass,
   a nonempty one loses its content.
   */
  lemma DataUriPasted(name: string, before: seq<Attribute>, after: seq<Attribute>, uri: string, code: string,
                      payload: string, doc: string, decode: Decoder, isText: string -> bool, f: Forest)
    requires name == "xi:include" || name == "include"
    requires uri == "data:text/xml;base64," || uri == "data:image/svg+xml;base64,"
    requires forall a :: a in before ==> a.key != "href"
    requires decode(code) == Some(payload) && StripProlog(payload, isText) == Some(doc) && f.Valid()
    ensures var tag := ReadTag(name, before + [Attribute("href", uri + code)] + after, decode, isText);
            && XInclude.Result(true, Stream([Empty(tag)] + f.Events(), Eof))
               == Some([Pasted(doc)] + f.Rewritten().Events())
            && XInclude.Result(true, Stream([Start(tag)] + f.Events() + [End(name)], Eof)) == Some([Pasted(doc)])
    ensures OrdinaryStart(Trimmed(payload)) ==> Promised(Trimmed(payload)) == Some(doc)
  {
    hide Promised, OrdinaryStart;
    TagRead(name, before, after, uri, code, payload, decode, isText);
    PastedTag(Tag(name, Some(doc)), f);
    KeepsPromiseIff(Trimmed(payload));
  }
}
