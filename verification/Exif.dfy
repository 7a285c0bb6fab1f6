/**
 The EXIF orientation reader: TIFF header and first IFD in either byte order
 (TIFF Revision 6.0, Section 2 "TIFF Structure"; the Orientation field is in Section 8).
 */
module Exif {
  import opened Common

  const EXIF_PREFIX: seq<byte> := [0x45, 0x78, 0x69, 0x66, 0, 0]
  const BIG_ENDIAN_MAGIC: seq<byte> := [0x4D, 0x4D, 0, 0x2A]
  const LITTLE_ENDIAN_MAGIC: seq<byte> := [0x49, 0x49, 0x2A, 0]
  const ORIENTATION_TAG: u16 := 0x0112
  const IFD_ENTRY_BYTES: nat := 12

  // ----- The reader -----

  function StripExifPrefix(blob: seq<byte>): seq<byte> {
    if EXIF_PREFIX <= blob then blob[|EXIF_PREFIX|..] else blob
  }

  function ReadU16(b: seq<byte>, bigEndian: bool): u16
    requires |b| >= 2
  {
    if bigEndian then b[0] as int * 0x100 + b[1] else b[1] as int * 0x100 + b[0]
  }

  function ReadU32(b: seq<byte>, bigEndian: bool): u32
    requires |b| >= 4
  {
    if bigEndian then ReadU16(b[..2], true) as int * 0x1_0000 + ReadU16(b[2..4], true)
    else ReadU16(b[2..4], false) as int * 0x1_0000 + ReadU16(b[..2], false)
  }

  /** The byte order the magic announces. */
  function ByteOrder(tiff: seq<byte>): Option<bool>
    requires |tiff| >= 8
  {
    if tiff[..4] == BIG_ENDIAN_MAGIC then Some(true)
    else if tiff[..4] == LITTLE_ENDIAN_MAGIC then Some(false)
    else None
  }

  /** Byte order and entry bytes of the first IFD, when header and IFD lie inside the blob. */
  function FirstIfd(tiff: seq<byte>): (r: Option<(bool, seq<byte>)>)
    ensures r.Some? ==> |r.value.1| % IFD_ENTRY_BYTES == 0
  {
    if |tiff| < 8 then None
    else if ByteOrder(tiff).None? then None
    else
      var bigEndian := ByteOrder(tiff).value;
      var at := ReadU32(tiff[4..8], bigEndian);
      if |tiff| < at + 2 then None
      else
        var size := ReadU16(tiff[at..at + 2], bigEndian) * IFD_ENTRY_BYTES;
        if |tiff| < at + 2 + size then None
        else Some((bigEndian, tiff[at + 2..at + 2 + size]))
  }

  /** The value of the first entry carrying the orientation tag. */
  function FindTag(entries: seq<byte>, bigEndian: bool): Option<u16> {
    if |entries| < IFD_ENTRY_BYTES then None
    else if ReadU16(entries[0..2], bigEndian) == ORIENTATION_TAG then Some(ReadU16(entries[8..10], bigEndian))
    else FindTag(entries[IFD_ENTRY_BYTES..], bigEndian)
  }

  function Parse(blob: seq<byte>): Option<u16> {
    match FirstIfd(StripExifPrefix(blob))
    case None => None
    case Some((bigEndian, entries)) => FindTag(entries, bigEndian)
  }

  /** The indexed scan with early return. */
  method ParseOrientation(blob: seq<byte>) returns (r: Option<u16>)
    ensures r == Parse(blob)
  {
    var tiff := StripExifPrefix(blob);
    if |tiff| < 8 {
      return None;
    }
    var order := ByteOrder(tiff);
    if order.None? {
      return None;
    }
    var bigEndian := order.value;
    var ifdOffset := ReadU32(tiff[4..8], bigEndian);
    if ifdOffset > |tiff| {
      return None;
    }
    var ifd := tiff[ifdOffset..];
    if |ifd| < 2 {
      return None;
    }
    assert ifd[..2] == tiff[ifdOffset..ifdOffset + 2];
    var numEntries := ReadU16(ifd[..2], bigEndian);
    var entriesStart := ifdOffset + 2;
    var entriesEnd := entriesStart + numEntries * IFD_ENTRY_BYTES;
    if entriesEnd > |tiff| {
      return None;
    }
    var entries := tiff[entriesStart..entriesEnd];
    assert FirstIfd(tiff) == Some((bigEndian, entries));
    assert entries[0..] == entries;
    for i := 0 to numEntries
      invariant FindTag(entries, bigEndian) == FindTag(entries[i * IFD_ENTRY_BYTES..], bigEndian)
    {
      var off := i * IFD_ENTRY_BYTES;
      var entry := entries[off..off + IFD_ENTRY_BYTES];
      var rest := entries[off..];
      assert entry == rest[..IFD_ENTRY_BYTES];
      assert rest[0..2] == entry[0..2];
      assert rest[8..10] == entry[8..10];
      assert rest[IFD_ENTRY_BYTES..] == entries[(i + 1) * IFD_ENTRY_BYTES..];
      var tag := ReadU16(entry[0..2], bigEndian);
      if tag == ORIENTATION_TAG {
        return Some(ReadU16(entry[8..10], bigEndian));
      }
    }
    return None;
  }

  // ----- A printer for every TIFF blob with one IFD -----

  /** An IFD entry; the value field is split into the two bytes the reader uses and the two it ignores. */
  datatype Entry = Entry(tag: u16, kind: u16, count: u32, value: u16, rest: u16)

  function WriteU16(v: u16, bigEndian: bool): (b: seq<byte>)
    ensures |b| == 2
  {
    if bigEndian then [v / 0x100, v % 0x100] else [v % 0x100, v / 0x100]
  }

  function WriteU32(v: u32, bigEndian: bool): (b: seq<byte>)
    ensures |b| == 4
  {
    if bigEndian then WriteU16(v / 0x1_0000, true) + WriteU16(v % 0x1_0000, true)
    else WriteU16(v % 0x1_0000, false) + WriteU16(v / 0x1_0000, false)
  }

  function PrintEntry(e: Entry, bigEndian: bool): (b: seq<byte>)
    ensures |b| == IFD_ENTRY_BYTES
  {
    WriteU16(e.tag, bigEndian) + WriteU16(e.kind, bigEndian) + WriteU32(e.count, bigEndian)
    + WriteU16(e.value, bigEndian) + WriteU16(e.rest, bigEndian)
  }

  function PrintEntries(es: seq<Entry>, bigEndian: bool): (b: seq<byte>)
    ensures |b| == |es| * IFD_ENTRY_BYTES
  {
    if |es| == 0 then [] else PrintEntry(es[0], bigEndian) + PrintEntries(es[1..], bigEndian)
  }

  /** Header, `gap` up to the IFD, the IFD, then anything. */
  function Print(bigEndian: bool, gap: seq<byte>, es: seq<Entry>, tail: seq<byte>): seq<byte>
    requires 8 + |gap| < TWO_32 && |es| < 0x1_0000
  {
    (if bigEndian then BIG_ENDIAN_MAGIC else LITTLE_ENDIAN_MAGIC)
    + WriteU32(8 + |gap|, bigEndian) + gap
    + WriteU16(|es|, bigEndian) + PrintEntries(es, bigEndian) + tail
  }

  /** What the reader promises, on entries rather than bytes. */
  function FirstOrientation(es: seq<Entry>): Option<u16> {
    if |es| == 0 then None
    else if es[0].tag == ORIENTATION_TAG then Some(es[0].value)
    else FirstOrientation(es[1..])
  }

  lemma ReadWriteU16(v: u16, bigEndian: bool)
    ensures ReadU16(WriteU16(v, bigEndian), bigEndian) == v
  {
  }

  lemma WriteReadU16(b: seq<byte>, bigEndian: bool)
    requires |b| == 2
    ensures WriteU16(ReadU16(b, bigEndian), bigEndian) == b
  {
  }

  lemma ReadWriteU32(v: u32, bigEndian: bool)
    ensures ReadU32(WriteU32(v, bigEndian), bigEndian) == v
  {
    var b := WriteU32(v, bigEndian);
    if bigEndian {
      assert b[..2] == WriteU16(v / 0x1_0000, true) && b[2..4] == WriteU16(v % 0x1_0000, true);
    } else {
      assert b[..2] == WriteU16(v % 0x1_0000, false) && b[2..4] == WriteU16(v / 0x1_0000, false);
    }
  }

  lemma SplitU32(hi: u16, lo: u16)
    ensures (hi as int * 0x1_0000 + lo) / 0x1_0000 == hi
    ensures (hi as int * 0x1_0000 + lo) % 0x1_0000 == lo
  {
  }

  lemma WriteReadU32(b: seq<byte>, bigEndian: bool)
    requires |b| == 4
    ensures WriteU32(ReadU32(b, bigEndian), bigEndian) == b
  {
    WriteReadU16(b[..2], bigEndian);
    WriteReadU16(b[2..4], bigEndian);
    if bigEndian {
      SplitU32(ReadU16(b[..2], true), ReadU16(b[2..4], true));
    } else {
      SplitU32(ReadU16(b[2..4], false), ReadU16(b[..2], false));
    }
    assert b == b[..2] + b[2..4];
  }

  lemma {:induction false} FindTagPrinted(es: seq<Entry>, bigEndian: bool)
    ensures FindTag(PrintEntries(es, bigEndian), bigEndian) == FirstOrientation(es)
  {
    if |es| != 0 {
      var e := es[0];
      var b := PrintEntries(es, bigEndian);
      assert b[0..2] == WriteU16(e.tag, bigEndian);
      assert b[8..10] == WriteU16(e.value, bigEndian);
      assert b[IFD_ENTRY_BYTES..] == PrintEntries(es[1..], bigEndian);
      ReadWriteU16(e.tag, bigEndian);
      ReadWriteU16(e.value, bigEndian);
      FindTagPrinted(es[1..], bigEndian);
    }
  }

  lemma FirstIfdPrinted(bigEndian: bool, gap: seq<byte>, es: seq<Entry>, tail: seq<byte>)
    requires 8 + |gap| < TWO_32 && |es| < 0x1_0000
    ensures FirstIfd(Print(bigEndian, gap, es, tail)) == Some((bigEndian, PrintEntries(es, bigEndian)))
  {
    var tiff := Print(bigEndian, gap, es, tail);
    var at := 8 + |gap|;
    var size := |es| * IFD_ENTRY_BYTES;
    assert tiff[..4] == (if bigEndian then BIG_ENDIAN_MAGIC else LITTLE_ENDIAN_MAGIC);
    assert tiff[4..8] == WriteU32(at, bigEndian);
    assert tiff[at..at + 2] == WriteU16(|es|, bigEndian);
    assert tiff[at + 2..at + 2 + size] == PrintEntries(es, bigEndian);
    ReadWriteU32(at, bigEndian);
    ReadWriteU16(|es|, bigEndian);
  }

  /** Round trip, with or without the `Exif\0\0` prefix. */
  lemma ParsePrinted(bigEndian: bool, gap: seq<byte>, es: seq<Entry>, tail: seq<byte>)
    requires 8 + |gap| < TWO_32 && |es| < 0x1_0000
    ensures Parse(Print(bigEndian, gap, es, tail)) == FirstOrientation(es)
    ensures Parse(EXIF_PREFIX + Print(bigEndian, gap, es, tail)) == FirstOrientation(es)
  {
    var tiff := Print(bigEndian, gap, es, tail);
    FirstIfdPrinted(bigEndian, gap, es, tail);
    FindTagPrinted(es, bigEndian);
    PrefixStripped(tiff);
    MagicIsNoPrefix(bigEndian, gap, es, tail);
  }

  lemma PrefixStripped(tiff: seq<byte>)
    ensures StripExifPrefix(EXIF_PREFIX + tiff) == tiff
  {
  }

  lemma MagicIsNoPrefix(bigEndian: bool, gap: seq<byte>, es: seq<Entry>, tail: seq<byte>)
    requires 8 + |gap| < TWO_32 && |es| < 0x1_0000
    ensures StripExifPrefix(Print(bigEndian, gap, es, tail)) == Print(bigEndian, gap, es, tail)
  {
    var tiff := Print(bigEndian, gap, es, tail);
    assert tiff[0] == (if bigEndian then BIG_ENDIAN_MAGIC else LITTLE_ENDIAN_MAGIC)[0];
  }

  lemma ByteOrdersAgree(gap: seq<byte>, gap': seq<byte>, es: seq<Entry>, tail: seq<byte>, tail': seq<byte>)
    requires 8 + |gap| < TWO_32 && 8 + |gap'| < TWO_32 && |es| < 0x1_0000
    ensures Parse(Print(true, gap, es, tail)) == Parse(Print(false, gap', es, tail'))
  {
    ParsePrinted(true, gap, es, tail);
    ParsePrinted(false, gap', es, tail');
  }

  // ----- The printer covers everything the reader accepts -----

  function ReadEntry(b: seq<byte>, bigEndian: bool): Entry
    requires |b| >= IFD_ENTRY_BYTES
  {
    Entry(ReadU16(b[0..2], bigEndian), ReadU16(b[2..4], bigEndian), ReadU32(b[4..8], bigEndian),
          ReadU16(b[8..10], bigEndian), ReadU16(b[10..12], bigEndian))
  }

  function ReadEntries(b: seq<byte>, bigEndian: bool): (es: seq<Entry>)
    requires |b| % IFD_ENTRY_BYTES == 0
  {
    if |b| == 0 then []
    else [ReadEntry(b, bigEndian)] + ReadEntries(b[IFD_ENTRY_BYTES..], bigEndian)
  }

  lemma PrintReadEntry(b: seq<byte>, bigEndian: bool)
    requires |b| >= IFD_ENTRY_BYTES
    ensures PrintEntry(ReadEntry(b, bigEndian), bigEndian) == b[..IFD_ENTRY_BYTES]
  {
    WriteReadU16(b[0..2], bigEndian);
    WriteReadU16(b[2..4], bigEndian);
    WriteReadU32(b[4..8], bigEndian);
    WriteReadU16(b[8..10], bigEndian);
    WriteReadU16(b[10..12], bigEndian);
    assert b[..12] == b[0..2] + b[2..4] + b[4..8] + b[8..10] + b[10..12];
  }

  lemma {:induction false} PrintRead(b: seq<byte>, bigEndian: bool)
    requires |b| % IFD_ENTRY_BYTES == 0
    ensures PrintEntries(ReadEntries(b, bigEndian), bigEndian) == b
    ensures |ReadEntries(b, bigEndian)| * IFD_ENTRY_BYTES == |b|
  {
    if |b| != 0 {
      var es := ReadEntries(b, bigEndian);
      PrintRead(b[IFD_ENTRY_BYTES..], bigEndian);
      PrintReadEntry(b, bigEndian);
      assert es[1..] == ReadEntries(b[IFD_ENTRY_BYTES..], bigEndian);
      assert b == b[..IFD_ENTRY_BYTES] + b[IFD_ENTRY_BYTES..];
    }
  }

  lemma SixParts(t: seq<byte>, at: nat, end: nat)
    requires 8 <= at && at + 2 <= end <= |t|
    ensures t == t[..4] + t[4..8] + t[8..at] + t[at..at + 2] + t[at + 2..end] + t[end..]
  {
  }

  /** Every blob whose IFD is found at offset 8 or later is a printed blob. */
  lemma AcceptedIsPrinted(tiff: seq<byte>) returns (gap: seq<byte>, es: seq<Entry>, tail: seq<byte>)
    requires FirstIfd(tiff).Some?
    requires ReadU32(tiff[4..8], FirstIfd(tiff).value.0) >= 8
    ensures 8 + |gap| < TWO_32 && |es| < 0x1_0000
    ensures tiff == Print(FirstIfd(tiff).value.0, gap, es, tail)
  {
    hide ReadEntries, PrintEntries, WriteU16, WriteU32;
    var bigEndian := FirstIfd(tiff).value.0;
    var at := ReadU32(tiff[4..8], bigEndian);
    var n := ReadU16(tiff[at..at + 2], bigEndian);
    var end := at + 2 + n * IFD_ENTRY_BYTES;
    gap := tiff[8..at];
    es := ReadEntries(tiff[at + 2..end], bigEndian);
    tail := tiff[end..];
    PrintRead(tiff[at + 2..end], bigEndian);
    assert |es| == n;
    HeaderPrinted(tiff, bigEndian, at);
    WriteReadU16(tiff[at..at + 2], bigEndian);
    SixParts(tiff, at, end);
  }

  lemma HeaderPrinted(tiff: seq<byte>, bigEndian: bool, at: nat)
    requires |tiff| >= 8 && ByteOrder(tiff) == Some(bigEndian) && at == ReadU32(tiff[4..8], bigEndian)
    ensures tiff[..4] == if bigEndian then BIG_ENDIAN_MAGIC else LITTLE_ENDIAN_MAGIC
    ensures WriteU32(at, bigEndian) == tiff[4..8]
  {
    WriteReadU32(tiff[4..8], bigEndian);
  }

  /** Past the header, the reader returns a value on exactly the printed blobs that carry one, prefix or not. */
  lemma ParsesIffPrinted(blob: seq<byte>, v: u16)
    requires var tiff := StripExifPrefix(blob);
             FirstIfd(tiff).Some? ==> ReadU32(tiff[4..8], FirstIfd(tiff).value.0) >= 8
    ensures Parse(blob) == Some(v) <==>
            exists bigEndian: bool, gap: seq<byte>, es: seq<Entry>, tail: seq<byte> ::
              && 8 + |gap| < TWO_32 && |es| < 0x1_0000
              && StripExifPrefix(blob) == Print(bigEndian, gap, es, tail) && FirstOrientation(es) == Some(v)
  {
    var tiff := StripExifPrefix(blob);
    if Parse(blob) == Some(v) {
      var gap, es, tail := AcceptedIsPrinted(tiff);
      FirstIfdPrinted(FirstIfd(tiff).value.0, gap, es, tail);
      FindTagPrinted(es, FirstIfd(tiff).value.0);
    }
    if bigEndian: bool, gap: seq<byte>, es: seq<Entry>, tail: seq<byte> :|
      && 8 + |gap| < TWO_32 && |es| < 0x1_0000
      && tiff == Print(bigEndian, gap, es, tail) && FirstOrientation(es) == Some(v)
    {
      FirstIfdPrinted(bigEndian, gap, es, tail);
      FindTagPrinted(es, bigEndian);
    }
  }

  /** Header, and an IFD wherever the header says; below 8 the two overlap. */
  predicate LaidOut(tiff: seq<byte>, bigEndian: bool, at: u32, es: seq<Entry>) {
    var start := at as int + 2;
    var end := start + |es| * IFD_ENTRY_BYTES;
    && |es| < 0x1_0000 && 8 <= |tiff| && end <= |tiff|
    && ByteOrder(tiff) == Some(bigEndian) && tiff[4..8] == WriteU32(at, bigEndian)
    && tiff[at..start] == WriteU16(|es|, bigEndian) && tiff[start..end] == PrintEntries(es, bigEndian)
  }

  lemma LaidOutIsFound(tiff: seq<byte>, bigEndian: bool, at: u32, es: seq<Entry>)
    requires LaidOut(tiff, bigEndian, at, es)
    ensures FirstIfd(tiff) == Some((bigEndian, PrintEntries(es, bigEndian)))
  {
    ReadWriteU32(at, bigEndian);
    ReadWriteU16(|es|, bigEndian);
  }

  lemma FoundIsLaidOut(tiff: seq<byte>) returns (bigEndian: bool, at: u32, es: seq<Entry>)
    requires FirstIfd(tiff).Some?
    ensures FirstIfd(tiff) == Some((bigEndian, PrintEntries(es, bigEndian))) && LaidOut(tiff, bigEndian, at, es)
  {
    hide ReadEntries, PrintEntries, WriteU16, WriteU32;
    bigEndian := FirstIfd(tiff).value.0;
    var entries := FirstIfd(tiff).value.1;
    at := ReadU32(tiff[4..8], bigEndian);
    es := ReadEntries(entries, bigEndian);
    PrintRead(entries, bigEndian);
    HeaderPrinted(tiff, bigEndian, at);
    WriteReadU16(tiff[at..at as int + 2], bigEndian);
  }

  /** On any blob: the reader returns a value exactly when the blob lays out an IFD whose first orientation it is. */
  lemma ParsesIffLaidOut(blob: seq<byte>, v: u16)
    ensures Parse(blob) == Some(v) <==>
            exists bigEndian: bool, at: u32, es: seq<Entry> ::
              LaidOut(StripExifPrefix(blob), bigEndian, at, es) && FirstOrientation(es) == Some(v)
  {
    var tiff := StripExifPrefix(blob);
    if Parse(blob) == Some(v) {
      var bigEndian, at, es := FoundIsLaidOut(tiff);
      FindTagPrinted(es, bigEndian);
    }
    if bigEndian: bool, at: u32, es: seq<Entry> :|
      LaidOut(tiff, bigEndian, at, es) && FirstOrientation(es) == Some(v)
    {
      LaidOutIsFound(tiff, bigEndian, at, es);
      FindTagPrinted(es, bigEndian);
    }
  }

  /** The first entry with tag 0x0112 gives its value. */
  lemma {:induction false} FirstOrientationIff(es: seq<Entry>, v: u16)
    ensures FirstOrientation(es) == Some(v) <==>
            exists i :: && 0 <= i < |es| && es[i].tag == 0x112 && es[i].value == v
                        && forall j :: 0 <= j < i ==> es[j].tag != 0x112
  {
    if |es| != 0 && es[0].tag != 0x112 {
      FirstOrientationIff(es[1..], v);
      if i :| 0 <= i < |es| - 1 && es[1..][i].tag == 0x112 && es[1..][i].value == v
              && forall j :: 0 <= j < i ==> es[1..][j].tag != 0x112 {
        assert es[i + 1] == es[1..][i];
        assert forall j :: 0 < j < i + 1 ==> es[j] == es[1..][j - 1];
      }
      if i :| 0 <= i < |es| && es[i].tag == 0x112 && es[i].value == v && forall j :: 0 <= j < i ==> es[j].tag != 0x112 {
        assert es[1..][i - 1] == es[i];
        assert forall j :: 0 <= j < i - 1 ==> es[1..][j] == es[j + 1];
      }
    }
  }

  // ----- In bytes -----

  lemma OneEntryPrinted(bigEndian: bool, hi: byte, lo: byte)
    ensures PrintEntries([Entry(0x112, 3, 1, hi as int * 0x100 + lo, 0)], bigEndian)
            == if bigEndian then [1, 0x12, 0, 3, 0, 0, 0, 1, hi, lo, 0, 0]
               else [0x12, 1, 3, 0, 1, 0, 0, 0, lo, hi, 0, 0]
  {
    var e := Entry(0x112, 3, 1, hi as int * 0x100 + lo, 0);
    assert [e][1..] == [] && PrintEntries([], bigEndian) == [];
  }

  lemma FirstOfOne(es: seq<Entry>)
    requires |es| == 1 && es[0].tag == 0x112
    ensures FirstOrientation(es) == Some(es[0].value)
  {
  }

  /** Little-endian TIFF bytes with one orientation entry, behind the `Exif` prefix or not, whatever follows. */
  lemma LittleEndianBytes(hi: byte, lo: byte, tail: seq<byte>)
    ensures var tiff := [0x49, 0x49, 0x2A, 0, 8, 0, 0, 0, 1, 0, 0x12, 1, 3, 0, 1, 0, 0, 0, lo, hi, 0, 0] + tail;
            && Parse(tiff) == Some(hi as int * 0x100 + lo)
            && Parse([0x45, 0x78, 0x69, 0x66, 0, 0] + tiff) == Some(hi as int * 0x100 + lo)
  {
    hide Parse, Print, PrintEntries, FirstOrientation;
    var es := [Entry(0x112, 3, 1, hi as int * 0x100 + lo, 0)];
    OneEntryPrinted(false, hi, lo);
    FirstOfOne(es);
    HeaderBytes(false, tail, es);
    ParsePrinted(false, [], es, tail);
    assert [0x49, 0x49, 0x2A, 0, 8, 0, 0, 0, 1, 0] + [0x12, 1, 3, 0, 1, 0, 0, 0, lo, hi, 0, 0] ==
           [0x49, 0x49, 0x2A, 0, 8, 0, 0, 0, 1, 0, 0x12, 1, 3, 0, 1, 0, 0, 0, lo, hi, 0, 0];
  }

  lemma BigEndianBytes(hi: byte, lo: byte, tail: seq<byte>)
    ensures var tiff := [0x4D, 0x4D, 0, 0x2A, 0, 0, 0, 8, 0, 1, 1, 0x12, 0, 3, 0, 0, 0, 1, hi, lo, 0, 0] + tail;
            && Parse(tiff) == Some(hi as int * 0x100 + lo)
            && Parse([0x45, 0x78, 0x69, 0x66, 0, 0] + tiff) == Some(hi as int * 0x100 + lo)
  {
    hide Parse, Print, PrintEntries, FirstOrientation;
    var es := [Entry(0x112, 3, 1, hi as int * 0x100 + lo, 0)];
    OneEntryPrinted(true, hi, lo);
    FirstOfOne(es);
    HeaderBytes(true, tail, es);
    ParsePrinted(true, [], es, tail);
    assert [0x4D, 0x4D, 0, 0x2A, 0, 0, 0, 8, 0, 1] + [1, 0x12, 0, 3, 0, 0, 0, 1, hi, lo, 0, 0] ==
           [0x4D, 0x4D, 0, 0x2A, 0, 0, 0, 8, 0, 1, 1, 0x12, 0, 3, 0, 0, 0, 1, hi, lo, 0, 0];
  }

  lemma HeaderBytes(bigEndian: bool, tail: seq<byte>, es: seq<Entry>)
    requires |es| == 1
    ensures Print(bigEndian, [], es, tail) ==
            (if bigEndian then [0x4D, 0x4D, 0, 0x2A, 0, 0, 0, 8, 0, 1] else [0x49, 0x49, 0x2A, 0, 8, 0, 0, 0, 1, 0])
            + PrintEntries(es, bigEndian) + tail
  {
    hide PrintEntries;
  }

  // ----- Extension -----

  /** Bytes past the end of an accepted blob never change the answer, so truncation can only lose it. */
  lemma ParseExtends(blob: seq<byte>, more: seq<byte>)
    requires Parse(blob).Some?
    ensures Parse(blob + more) == Parse(blob)
  {
    hide FindTag, ReadU32;
    var tiff := StripExifPrefix(blob);
    var all := StripExifPrefix(blob + more);
    assert |tiff| >= 8;
    assert (blob + more)[..6] == blob[..6];
    assert all == tiff + more;
    var (bigEndian, entries) := FirstIfd(tiff).value;
    var at := ReadU32(tiff[4..8], bigEndian);
    assert all[..4] == tiff[..4] && all[4..8] == tiff[4..8];
    assert all[at..at + 2] == tiff[at..at + 2];
    assert all[at + 2..at + 2 + |entries|] == entries;
  }
}
