/** Finding the orientation tag of a JPEG: the scan over segments and the directory of TIFF 6.0,
    section 2, that an Exif segment holds. */
module ExifOrientation {
  import opened Utf8

  const EXIF: seq<byte> := [0x45, 0x78, 0x69, 0x66, 0, 0]
  const ORIENTATION: nat := 0x0112
  const SHORT: nat := 3

  // ------------------------------------------------------------------------- numbers

  function U16(s: seq<byte>, at: nat, little: bool): nat
    requires at + 2 <= |s|
  {
    if little then s[at] as nat + 256 * s[at + 1] as nat else 256 * s[at] as nat + s[at + 1] as nat
  }

  function U32(s: seq<byte>, at: nat, little: bool): nat
    requires at + 4 <= |s|
  {
    if little then U16(s, at, true) + 65536 * U16(s, at + 2, true)
    else 65536 * U16(s, at, false) + U16(s, at + 2, false)
  }

  function Put16(v: nat, little: bool): (s: seq<byte>)
    requires v < 65536
    ensures |s| == 2 && U16(s, 0, little) == v
  {
    if little then [(v % 256) as byte, (v / 256) as byte] else [(v / 256) as byte, (v % 256) as byte]
  }

  function Put32(v: nat, little: bool): (s: seq<byte>)
    requires v < 0x1_0000_0000
    ensures |s| == 4
  {
    if little then Put16(v % 65536, true) + Put16(v / 65536, true)
    else Put16(v / 65536, false) + Put16(v % 65536, false)
  }

  lemma U16At(head: seq<byte>, v: nat, little: bool, tail: seq<byte>)
    requires v < 65536
    ensures U16(head + Put16(v, little) + tail, |head|, little) == v
  {
    var s, p := head + Put16(v, little) + tail, Put16(v, little);
    assert s[|head|] == p[0] && s[|head| + 1] == p[1];
  }

  lemma U32At(head: seq<byte>, v: nat, little: bool, tail: seq<byte>)
    requires v < 0x1_0000_0000
    ensures U32(head + Put32(v, little) + tail, |head|, little) == v
  {
    var s := head + Put32(v, little) + tail;
    var low, high := v % 65536, v / 65536;
    if little {
      U16At(head, low, true, Put16(high, true) + tail);
      U16At(head + Put16(low, true), high, true, tail);
      assert s == head + Put16(low, true) + (Put16(high, true) + tail);
      assert s == head + Put16(low, true) + Put16(high, true) + tail;
    } else {
      U16At(head, high, false, Put16(low, false) + tail);
      U16At(head + Put16(high, false), low, false, tail);
      assert s == head + Put16(high, false) + (Put16(low, false) + tail);
      assert s == head + Put16(high, false) + Put16(low, false) + tail;
    }
  }

  // ----------------------------------------------------------------------- directory

  /** Broken data end the search; a directory without the tag does not. */
  datatype Result = Found(orientation: int) | NotFound | Broken

  /** Whether the directory entry at a place is the orientation tag. */
  predicate IsTag(tiff: seq<byte>, at: nat, little: bool)
    requires at + 12 <= |tiff|
  {
    U16(tiff, at, little) == ORIENTATION && U16(tiff, at + 2, little) == SHORT && U32(tiff, at + 4, little) == 1
  }

  function Sane(v: nat): int {
    if 1 <= v <= 8 then v else 1
  }

  /** The first tag among so many entries. */
  function InEntries(tiff: seq<byte>, at: nat, count: nat, little: bool): (r: Result)
    requires at + count * 12 <= |tiff|
    ensures !r.Broken? && (r.Found? ==> 1 <= r.orientation <= 8)
    decreases count
  {
    if count == 0 then NotFound
    else if IsTag(tiff, at, little) then Found(Sane(U16(tiff, at + 8, little)))
    else InEntries(tiff, at + 12, count - 1, little)
  }

  function TiffOrientation(tiff: seq<byte>): Result {
    if |tiff| < 8 then Broken
    else
      var little := tiff[0] == 0x49 && tiff[1] == 0x49;
      var big := tiff[0] == 0x4D && tiff[1] == 0x4D;
      if (!little && !big) || U16(tiff, 2, little) != 42 then Broken
      else
        var ifd := U32(tiff, 4, little);
        if ifd > |tiff| || |tiff| - ifd < 2 then Broken
        else
          var count := U16(tiff, ifd, little);
          if count * 12 > |tiff| - ifd - 2 then Broken else InEntries(tiff, ifd + 2, count, little)
  }

  // ------------------------------------------------------------------------ segments

  predicate Alone(marker: byte) {
    0xD0 <= marker <= 0xD9
  }

  /** The length of a segment, or 0 where it does not fit. */
  function SegmentLength(s: seq<byte>): (n: nat)
    requires |s| >= 4
    ensures n == 0 || 2 <= n <= |s| - 2
  {
    var n := U16(s, 2, false);
    if n < 2 || n > |s| - 2 then 0 else n
  }

  predicate IsExif(s: seq<byte>, n: nat)
    requires 2 <= n <= |s| - 2
  {
    s[1] == 0xE1 && n >= 14 && s[4..10] == EXIF
  }

  /** The orientation in what is still ahead. */
  function Scan(s: seq<byte>): int
    decreases |s|
  {
    if |s| < 4 || s[0] != 0xFF then 1
    else if Alone(s[1]) then Scan(s[2..])
    else
      var n := SegmentLength(s);
      if n == 0 then 1
      else if IsExif(s, n) then
        match TiffOrientation(s[10..n + 2])
        case Found(o) => o
        case Broken => 1
        case NotFound => Scan(s[n + 2..])
      else if s[1] == 0xDA then 1
      else Scan(s[n + 2..])
  }

  // ------------------------------------------------------------------- what is written

  /** A directory entry: what it is, what type, how many, and its four bytes. */
  datatype Entry = Entry(tag: nat, kind: nat, count: nat, value: seq<byte>)

  predicate EntryOk(e: Entry) {
    e.tag < 65536 && e.kind < 65536 && e.count < 0x1_0000_0000 && |e.value| == 4
  }

  function EntryBytes(e: Entry, little: bool): (s: seq<byte>)
    requires EntryOk(e)
    ensures |s| == 12
  {
    Put16(e.tag, little) + Put16(e.kind, little) + Put32(e.count, little) + e.value
  }

  function EntriesBytes(es: seq<Entry>, little: bool): (s: seq<byte>)
    requires forall i :: 0 <= i < |es| ==> EntryOk(es[i])
    ensures |s| == |es| * 12
  {
    if es == [] then [] else EntryBytes(es[0], little) + EntriesBytes(es[1..], little)
  }

  predicate Oriented(e: Entry) {
    e.tag == ORIENTATION && e.kind == SHORT && e.count == 1
  }

  /** What a directory says: its first orientation entry. */
  function Said(es: seq<Entry>, little: bool): Result
    requires forall i :: 0 <= i < |es| ==> EntryOk(es[i])
  {
    if es == [] then NotFound
    else if Oriented(es[0]) then assert EntryOk(es[0]); Found(Sane(U16(es[0].value, 0, little)))
    else Said(es[1..], little)
  }

  /** A TIFF header and its directory, which starts behind a gap. */
  function Tiff(es: seq<Entry>, little: bool, gap: seq<byte>, rest: seq<byte>): seq<byte>
    requires |es| < 65536 && |gap| < 0x1_0000_0000 - 8
    requires forall i :: 0 <= i < |es| ==> EntryOk(es[i])
  {
    (if little then [0x49, 0x49] else [0x4D, 0x4D]) + Put16(42, little) + Put32(8 + |gap|, little) + gap
    + Put16(|es|, little) + EntriesBytes(es, little) + rest
  }

  lemma EntryIsRead(head: seq<byte>, e: Entry, little: bool, rest: seq<byte>)
    requires EntryOk(e)
    ensures var s, at := head + EntryBytes(e, little) + rest, |head|;
      && U16(s, at, little) == e.tag && U16(s, at + 2, little) == e.kind && U32(s, at + 4, little) == e.count
      && U16(s, at + 8, little) == U16(e.value, 0, little)
  {
    hide Put16, Put32, U16, U32;
    var a, b, c := Put16(e.tag, little), Put16(e.kind, little), Put32(e.count, little);
    var s := head + EntryBytes(e, little) + rest;
    U16At(head, e.tag, little, b + c + e.value + rest);
    assert s == head + a + (b + c + e.value + rest);
    U16At(head + a, e.kind, little, c + e.value + rest);
    assert s == head + a + b + (c + e.value + rest);
    U32At(head + a + b, e.count, little, e.value + rest);
    assert s == head + a + b + c + (e.value + rest);
    Same16(s, |head| + 8, e.value, 0, little);
  }

  lemma Same16(s: seq<byte>, i: nat, t: seq<byte>, j: nat, little: bool)
    requires i + 2 <= |s| && j + 2 <= |t| && s[i] == t[j] && s[i + 1] == t[j + 1]
    ensures U16(s, i, little) == U16(t, j, little)
  {
  }

  /** Entries are read as they were written. */
  lemma {:induction false} EntriesAreRead(head: seq<byte>, es: seq<Entry>, little: bool, rest: seq<byte>)
    requires forall i :: 0 <= i < |es| ==> EntryOk(es[i])
    ensures InEntries(head + EntriesBytes(es, little) + rest, |head|, |es|, little) == Said(es, little)
    decreases |es|
  {
    hide EntryBytes, U16, U32;
    if es != [] {
      var first, more := EntryBytes(es[0], little), EntriesBytes(es[1..], little);
      var s := head + EntriesBytes(es, little) + rest;
      EntryIsRead(head, es[0], little, more + rest);
      assert s == head + first + (more + rest);
      EntriesAreRead(head + first, es[1..], little, rest);
      assert s == (head + first) + more + rest;
    }
  }

  lemma TiffIsRead(es: seq<Entry>, little: bool, gap: seq<byte>, rest: seq<byte>)
    requires |es| < 65536 && |gap| < 0x1_0000_0000 - 8
    requires forall i :: 0 <= i < |es| ==> EntryOk(es[i])
    ensures TiffOrientation(Tiff(es, little, gap, rest)) == Said(es, little)
  {
    hide Put16, Put32, U16, U32, EntriesBytes, InEntries, Said;
    var order: seq<byte> := if little then [0x49, 0x49] else [0x4D, 0x4D];
    var a, b, c, d := Put16(42, little), Put32(8 + |gap|, little), Put16(|es|, little), EntriesBytes(es, little);
    var t := Tiff(es, little, gap, rest);
    U16At(order, 42, little, b + gap + c + d + rest);
    assert t == order + a + (b + gap + c + d + rest);
    U32At(order + a, 8 + |gap|, little, gap + c + d + rest);
    assert t == order + a + b + (gap + c + d + rest);
    U16At(order + a + b + gap, |es|, little, d + rest);
    assert t == order + a + b + gap + c + (d + rest);
    EntriesAreRead(order + a + b + gap + c, es, little, rest);
    assert t == order + a + b + gap + c + d + rest;
    assert t[0] == order[0] && t[1] == order[1];
  }

  /** What a JPEG is made of: markers on their own, and segments with a payload. */
  datatype Piece = Marker(marker: byte) | Segment(marker: byte, payload: seq<byte>)

  /** Pieces that are not Exif, with room for a TIFF header, and do not end the search. */
  predicate Skipped(g: Piece) {
    match g
    case Marker(m) => Alone(m)
    case Segment(m, payload) =>
      && |payload| < 65534 && !Alone(m) && m != 0xDA
      && !(m == 0xE1 && |payload| >= 12 && payload[..6] == EXIF)
  }

  function SegmentBytes(marker: byte, payload: seq<byte>): seq<byte>
    requires |payload| < 65534
  {
    [0xFF, marker] + Put16(|payload| + 2, false) + payload
  }

  function PieceBytes(g: Piece): seq<byte>
    requires Skipped(g)
  {
    match g
    case Marker(m) => [0xFF, m]
    case Segment(m, payload) => SegmentBytes(m, payload)
  }

  function PiecesBytes(gs: seq<Piece>): seq<byte>
    requires forall i :: 0 <= i < |gs| ==> Skipped(gs[i])
  {
    if gs == [] then [] else PieceBytes(gs[0]) + PiecesBytes(gs[1..])
  }

  lemma SegmentIsRead(marker: byte, payload: seq<byte>, rest: seq<byte>)
    requires |payload| < 65534
    ensures var s := SegmentBytes(marker, payload) + rest;
      && |s| >= 4 && s[0] == 0xFF && s[1] == marker && SegmentLength(s) == |payload| + 2
      && s[4..|payload| + 4] == payload && s[|payload| + 4..] == rest
  {
    hide Put16, U16;
    var s := SegmentBytes(marker, payload) + rest;
    U16At([0xFF, marker], |payload| + 2, false, payload + rest);
    assert s == [0xFF, marker] + Put16(|payload| + 2, false) + (payload + rest);
  }

  lemma PieceIsSkipped(g: Piece, rest: seq<byte>)
    requires Skipped(g)
    ensures Scan(PieceBytes(g) + rest) == Scan(rest)
  {
    hide SegmentBytes, SegmentLength, TiffOrientation;
    var s := PieceBytes(g) + rest;
    match g
    case Marker(m) =>
      assert s[2..] == rest;
    case Segment(m, payload) =>
      SegmentIsRead(m, payload, rest);
      assert |payload| >= 6 ==> s[4..10] == s[4..|payload| + 4][..6];
  }

  lemma {:induction false} PiecesAreSkipped(gs: seq<Piece>, rest: seq<byte>)
    requires forall i :: 0 <= i < |gs| ==> Skipped(gs[i])
    ensures Scan(PiecesBytes(gs) + rest) == Scan(rest)
    decreases |gs|
  {
    hide PieceBytes, Scan;
    if gs == [] {
      assert [] + rest == rest;
    } else {
      var tail := PiecesBytes(gs[1..]) + rest;
      assert PiecesBytes(gs) + rest == PieceBytes(gs[0]) + tail;
      PieceIsSkipped(gs[0], tail);
      PiecesAreSkipped(gs[1..], rest);
    }
  }

  /** An image whose first Exif segment has a directory, in either byte order, is read as what that
      directory says, whatever markers and segments there are before it; where it says nothing the
      search goes on behind it. */
  lemma OrientationIsRead(gs: seq<Piece>, es: seq<Entry>, little: bool,
                          gap: seq<byte>, padding: seq<byte>, rest: seq<byte>)
    requires forall i :: 0 <= i < |gs| ==> Skipped(gs[i])
    requires |es| < 65536 && |gap| < 0x1_0000_0000 - 8 && forall i :: 0 <= i < |es| ==> EntryOk(es[i])
    requires |Tiff(es, little, gap, padding)| < 65528
    ensures var exif := SegmentBytes(0xE1, EXIF + Tiff(es, little, gap, padding));
      Scan(PiecesBytes(gs) + exif + rest)
      == if Said(es, little).Found? then Said(es, little).orientation else Scan(rest)
  {
    hide SegmentBytes, SegmentLength, TiffOrientation, Tiff, Said, InEntries;
    var tiff := Tiff(es, little, gap, padding);
    var exif := SegmentBytes(0xE1, EXIF + tiff);
    assert PiecesBytes(gs) + exif + rest == PiecesBytes(gs) + (exif + rest);
    PiecesAreSkipped(gs, exif + rest);
    SegmentIsRead(0xE1, EXIF + tiff, rest);
    TiffSize(es, little, gap, padding);
    TiffIsRead(es, little, gap, padding);
    SaidNotBroken(es, little);
    var s := exif + rest;
    var p := s[4..|EXIF + tiff| + 4];
    assert s[4..10] == p[..6] == EXIF;
    assert s[10..|tiff| + 10] == p[6..] == tiff;
  }

  lemma TiffSize(es: seq<Entry>, little: bool, gap: seq<byte>, padding: seq<byte>)
    requires |es| < 65536 && |gap| < 0x1_0000_0000 - 8 && forall i :: 0 <= i < |es| ==> EntryOk(es[i])
    ensures |Tiff(es, little, gap, padding)| >= 10
  {
    hide Put16, Put32, EntriesBytes;
  }

  lemma {:induction false} SaidNotBroken(es: seq<Entry>, little: bool)
    requires forall i :: 0 <= i < |es| ==> EntryOk(es[i])
    ensures !Said(es, little).Broken?
  {
    if es != [] { SaidNotBroken(es[1..], little); }
  }

  // -------------------------------------------------------------------------- the loops

  /** The orientation of a whole file, whose first two bytes are not looked at. */
  function OrientationOf(data: seq<byte>): int {
    if |data| < 2 then 1 else Scan(data[2..])
  }

  method FindInEntries(tiff: seq<byte>, first: nat, count: nat, little: bool) returns (r: Result)
    requires first + count * 12 <= |tiff|
    ensures r == InEntries(tiff, first, count, little)
  {
    hide U16, U32;
    for i := 0 to count
      invariant InEntries(tiff, first, count, little) == InEntries(tiff, first + i * 12, count - i, little)
    {
      var entry := first + i * 12;
      if U16(tiff, entry, little) == ORIENTATION && U16(tiff, entry + 2, little) == SHORT
         && U32(tiff, entry + 4, little) == 1
      {
        var o := U16(tiff, entry + 8, little);
        return Found(if 1 <= o <= 8 then o else 1);
      }
    }
    return NotFound;
  }

  method ReadTiff(tiff: seq<byte>) returns (r: Result)
    ensures r == TiffOrientation(tiff)
  {
    hide U16, U32, InEntries;
    if |tiff| < 8 { return Broken; }
    var little := tiff[0] == 0x49 && tiff[1] == 0x49;
    var big := tiff[0] == 0x4D && tiff[1] == 0x4D;
    if (!little && !big) || U16(tiff, 2, little) != 42 { return Broken; }
    var ifd := U32(tiff, 4, little);
    if ifd > |tiff| || |tiff| - ifd < 2 { return Broken; }
    var count := U16(tiff, ifd, little);
    if count * 12 > |tiff| - ifd - 2 { return Broken; }
    r := FindInEntries(tiff, ifd + 2, count, little);
  }

  /** One segment, at a position of the data and at the head of what is still ahead. */
  lemma SegmentAt(data: seq<byte>, pos: nat)
    requires pos + 4 <= |data|
    ensures var s, n := data[pos..], SegmentLength(data[pos..]);
      && s[0] == data[pos] && s[1] == data[pos + 1] && U16(s, 2, false) == U16(data, pos + 2, false)
      && s[2..] == data[pos + 2..] && s[n + 2..] == data[pos + n + 2..]
      && (n >= 14 ==> s[4..10] == data[pos + 4..pos + 10] && s[10..n + 2] == data[pos + 10..pos + n + 2])
  {
    hide SegmentLength;
    var s := data[pos..];
    Same16(s, 2, data, pos + 2, false);
  }

  method JpegOrientation(data: seq<byte>) returns (o: int)
    ensures o == OrientationOf(data) && 1 <= o <= 8
  {
    hide U16, TiffOrientation, Scan;
    if |data| >= 2 { ScanIsTag(data[2..]); }
    var pos := 2;
    while pos + 4 <= |data| && data[pos] == 0xFF
      invariant 2 <= pos && (pos <= |data| || |data| < 2)
      invariant |data| >= 2 ==> Scan(data[2..]) == Scan(data[pos..])
      decreases |data| - pos
    {
      SegmentAt(data, pos);
      ScanHere(data[pos..]);
      var marker := data[pos + 1];
      if Alone(marker) {
        pos := pos + 2;
        continue;
      }
      var segment := U16(data, pos + 2, false);
      if segment < 2 || segment > |data| - pos - 2 { break; }
      if marker == 0xE1 && segment >= 14 && data[pos + 4..pos + 10] == EXIF {
        var r := ReadTiff(data[pos + 10..pos + segment + 2]);
        match r {
          case Found(orientation) => return orientation;
          case Broken => break;
          case NotFound =>
        }
      }
      if marker == 0xDA { break; }
      pos := pos + 2 + segment;
    }
    if |data| >= 2 { ScanEnds(data[pos..]); }
    return 1;
  }

  /** One round of the scan. */
  lemma ScanHere(s: seq<byte>)
    requires |s| >= 4 && s[0] == 0xFF
    ensures Alone(s[1]) ==> Scan(s) == Scan(s[2..])
    ensures var n := SegmentLength(s);
      !Alone(s[1]) ==>
        && (n == 0 ==> Scan(s) == 1)
        && (n > 0 && !IsExif(s, n) ==> Scan(s) == if s[1] == 0xDA then 1 else Scan(s[n + 2..]))
        && (n > 0 && IsExif(s, n) ==>
              var r := TiffOrientation(s[10..n + 2]);
              Scan(s) == if r.Found? then r.orientation else if r.Broken? then 1 else Scan(s[n + 2..]))
  {
    hide TiffOrientation, SegmentLength;
  }

  lemma ScanEnds(s: seq<byte>)
    ensures |s| < 4 || s[0] != 0xFF ==> Scan(s) == 1
  {
  }

  /** Whatever the bytes, the answer is a tag that the map knows. */
  lemma {:induction false} ScanIsTag(s: seq<byte>)
    ensures 1 <= Scan(s) <= 8
    decreases |s|
  {
    hide TiffOrientation, SegmentLength;
    if |s| >= 4 && s[0] == 0xFF {
      if Alone(s[1]) {
        ScanIsTag(s[2..]);
      } else {
        var n := SegmentLength(s);
        if n != 0 {
          if n >= 14 { TiffIsTag(s[10..n + 2]); }
          ScanIsTag(s[n + 2..]);
        }
      }
    }
  }

  lemma TiffIsTag(tiff: seq<byte>)
    ensures TiffOrientation(tiff).Found? ==> 1 <= TiffOrientation(tiff).orientation <= 8
  {
  }

  // ------------------------------------------------------------------ where the search ends

  /** A directory says what its first orientation entry says: a number in its first two bytes, taken for
      1 where it is not from 1 to 8. */
  lemma {:induction false} SaidIs(es: seq<Entry>, i: nat, little: bool)
    requires (forall j :: 0 <= j < |es| ==> EntryOk(es[j])) && i <= |es|
    requires forall j :: 0 <= j < i ==> !(es[j].tag == 0x112 && es[j].kind == 3 && es[j].count == 1)
    requires i < |es| ==> es[i].tag == 0x112 && es[i].kind == 3 && es[i].count == 1
    ensures i == |es| ==> Said(es, little) == NotFound
    ensures i < |es| ==>
              EntryOk(es[i]) &&
              var a, b := es[i].value[0] as int, es[i].value[1] as int;
              var v := if little then a + 256 * b else 256 * a + b;
              Said(es, little) == Found(if v == 0 || v > 8 then 1 else v)
    decreases i
  {
    if i > 0 { SaidIs(es[1..], i - 1, little); }
  }

  /** The search ends with 1 where what follows is no marker, or too short, at a segment that does not
      fit, at the start of the image data, and at an Exif segment whose directory is broken. */
  lemma SearchEnds(gs: seq<Piece>, s: seq<byte>, payload: seq<byte>, rest: seq<byte>)
    requires forall i :: 0 <= i < |gs| ==> Skipped(gs[i])
    ensures |s| < 4 || s[0] != 0xFF ==> Scan(PiecesBytes(gs) + s) == 1
    ensures |s| >= 4 && s[0] == 0xFF && !(0xD0 <= s[1] <= 0xD9) ==>
              var n := 256 * s[2] as int + s[3] as int;
              n < 2 || n > |s| - 2 ==> Scan(PiecesBytes(gs) + s) == 1
    ensures |payload| < 65534 ==> Scan(PiecesBytes(gs) + (SegmentBytes(0xDA, payload) + rest)) == 1
    ensures |payload| < 65528 && |payload| >= 6 && TiffOrientation(payload) == Broken ==>
              Scan(PiecesBytes(gs) + (SegmentBytes(0xE1, EXIF + payload) + rest)) == 1
  {
    hide SegmentBytes, TiffOrientation, PiecesBytes, U16;
    PiecesAreSkipped(gs, s);
    if |s| < 4 || s[0] != 0xFF { ScanEnds(s); }
    if |s| >= 4 && s[0] == 0xFF { EndsHere(s); }
    if |payload| < 65534 {
      PiecesAreSkipped(gs, SegmentBytes(0xDA, payload) + rest);
      SegmentIsRead(0xDA, payload, rest);
    }
    if |payload| < 65528 && |payload| >= 6 {
      var s1 := SegmentBytes(0xE1, EXIF + payload) + rest;
      PiecesAreSkipped(gs, s1);
      SegmentIsRead(0xE1, EXIF + payload, rest);
      var p := s1[4..|EXIF + payload| + 4];
      assert s1[4..10] == p[..6] == EXIF;
      assert s1[10..|payload| + 10] == p[6..] == payload;
    }
  }

  lemma EndsHere(s: seq<byte>)
    requires |s| >= 4 && s[0] == 0xFF
    ensures !(0xD0 <= s[1] <= 0xD9) ==>
              var n := 256 * s[2] as int + s[3] as int; n < 2 || n > |s| - 2 ==> Scan(s) == 1
  {
    hide TiffOrientation;
  }

  /** A directory is broken where there is no room for a header, the byte order or the number 42 is not
      there, or its place or its entries are not inside. */
  lemma BrokenIs(tiff: seq<byte>)
    ensures TiffOrientation(tiff) == Broken <==>
              || |tiff| < 8
              || (tiff[..2] != [0x49, 0x49] && tiff[..2] != [0x4D, 0x4D])
              || tiff[2..4] != (if tiff[0] == 0x49 then [42, 0] else [0, 42])
              || var little := tiff[0] == 0x49;
                 var at := U32(tiff, 4, little);
                 at + 2 > |tiff| || at + 2 + 12 * U16(tiff, at, little) > |tiff|
  {
    hide U32, InEntries;
    if |tiff| >= 8 {
      assert tiff[..2] == [tiff[0], tiff[1]] && tiff[2..4] == [tiff[2], tiff[3]];
    }
  }
}
