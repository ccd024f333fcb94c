/** Token texts as JSON strings (section 7 of RFC 8259): what is written, and what a reader makes of it. */
module JsonString {
  import opened Utf8

  const QUOTE: byte := 0x22
  const BACKSLASH: byte := 0x5C
  const LETTER_U: byte := 0x75

  function HexDigit(d: byte): byte
    requires d < 16
  {
    if d < 10 then 0x30 + d else 0x61 + (d - 10)
  }

  /** What one byte is written as. Bytes of text that is not UTF-8 are written by their number. */
  function Piece(c: byte, valid: bool): seq<byte> {
    if c == QUOTE || c == BACKSLASH then [BACKSLASH, c]
    else if c == 10 then [BACKSLASH, 0x6E]
    else if c == 13 then [BACKSLASH, 0x72]
    else if c == 9 then [BACKSLASH, 0x74]
    else if c < 0x20 || (!valid && c >= 0x80) then [BACKSLASH, LETTER_U, 0x30, 0x30, HexDigit(c / 16), HexDigit(c % 16)]
    else [c]
  }

  function Body(s: seq<byte>, valid: bool): seq<byte> {
    if s == [] then [] else Piece(s[0], valid) + Body(s[1..], valid)
  }

  function Written(s: seq<byte>): seq<byte> {
    [QUOTE] + Body(s, WellFormed(s)) + [QUOTE]
  }

  // ---------------------------------------------------------------------------- reader

  datatype Reading = Bad | Text(chars: seq<int>, rest: seq<byte>)

  function Put(c: int, r: Reading): Reading {
    match r
    case Bad => Bad
    case Text(chars, rest) => Text([c] + chars, rest)
  }

  /** The value of a hexadecimal digit, or -1. */
  function HexValue(b: byte): int {
    if 0x30 <= b <= 0x39 then b as int - 0x30
    else if 0x61 <= b <= 0x66 then b as int - 0x61 + 10
    else if 0x41 <= b <= 0x46 then b as int - 0x41 + 10
    else -1
  }

  /** The character of a two-character escape, or -1. */
  function ShortEscape(b: byte): int {
    if b == QUOTE || b == BACKSLASH || b == 0x2F then b as int
    else if b == 0x62 then 8 else if b == 0x66 then 12 else if b == 0x6E then 10
    else if b == 0x72 then 13 else if b == 0x74 then 9 else -1
  }

  function FourHex(a: byte, b: byte, c: byte, d: byte): int {
    if HexValue(a) < 0 || HexValue(b) < 0 || HexValue(c) < 0 || HexValue(d) < 0 then -1
    else HexValue(a) * 4096 + HexValue(b) * 256 + HexValue(c) * 16 + HexValue(d)
  }

  /** The characters up to the closing quotation mark. Characters that are not escaped are UTF-8, and
      none is a control character. */
  function ReadChars(t: seq<byte>): Reading
    decreases |t|
  {
    if t == [] then Bad
    else if t[0] == QUOTE then Text([], t[1..])
    else if t[0] == BACKSLASH then
      if |t| >= 6 && t[1] == LETTER_U then
        var v := FourHex(t[2], t[3], t[4], t[5]);
        if v < 0 then Bad else Put(v, ReadChars(t[6..]))
      else if |t| >= 2 && ShortEscape(t[1]) >= 0 then Put(ShortEscape(t[1]), ReadChars(t[2..]))
      else Bad
    else if t[0] < 0x20 || CharAt(t) == 0 then Bad
    else Put(Decode(t).1, ReadChars(t[CharAt(t)..]))
  }

  function ReadString(t: seq<byte>): Reading {
    if t != [] && t[0] == QUOTE then ReadChars(t[1..]) else Bad
  }

  // ------------------------------------------------------------------------ what is read

  /** The code points of well-formed text. */
  function CodePoints(s: seq<byte>): seq<int>
    requires WellFormed(s)
    decreases |s|
  {
    if s == [] then [] else [Decode(s).1] + CodePoints(s[CharAt(s)..])
  }

  function Numbers(s: seq<byte>): seq<int> {
    if s == [] then [] else [s[0] as int] + Numbers(s[1..])
  }

  function Meaning(s: seq<byte>): seq<int> {
    if WellFormed(s) then CodePoints(s) else Numbers(s)
  }

  /** A byte on its own is read as its number. */
  lemma ReadsPiece(c: byte, valid: bool, rest: seq<byte>)
    requires c < 0x80 || !valid
    ensures ReadChars(Piece(c, valid) + rest) == Put(c as int, ReadChars(rest))
  {
    var p := Piece(c, valid);
    var t := p + rest;
    assert t[|p|..] == rest;
    if |p| == 6 {
      HexBack(c);
      assert t[2] == 0x30 && t[3] == 0x30 && t[4] == HexDigit(c / 16) && t[5] == HexDigit(c % 16);
    }
  }

  lemma HexBack(c: byte)
    ensures FourHex(0x30, 0x30, HexDigit(c / 16), HexDigit(c % 16)) == c as int
  {
    assert c as int == (c / 16) as int * 16 + (c % 16) as int;
    HexOne(c / 16);
    HexOne(c % 16);
  }

  lemma HexOne(d: byte)
    requires d < 16
    ensures HexValue(HexDigit(d)) == d as int
  {
  }

  lemma OneHigh(s: seq<byte>)
    requires s != [] && s[0] >= 0x80
    ensures Body(s, true) == [s[0]] + Body(s[1..], true)
  {
  }

  /** A character of several bytes is written as it is ... */
  lemma {:induction false} HighBytes(s: seq<byte>, n: nat)
    requires n <= |s| && forall i :: 0 <= i < n ==> s[i] >= 0x80
    ensures Body(s, true) == s[..n] + Body(s[n..], true)
    decreases n
  {
    hide Body, Piece;
    if n == 0 {
      assert s[0..] == s && s[..0] + Body(s, true) == Body(s, true);
    } else {
      HighBytes(s[1..], n - 1);
      OneHigh(s);
      var rest := Body(s[n..], true);
      assert s[1..][n - 1..] == s[n..];
      assert [s[0]] + (s[1..][..n - 1] + rest) == s[..n] + rest;
    }
  }

  /** ... and read as that character. */
  lemma ReadsHigh(s: seq<byte>, rest: seq<byte>)
    requires CharAt(s) > 0 && s[0] >= 0x80
    ensures ReadChars(s[..CharAt(s)] + rest) == Put(Decode(s).1, ReadChars(rest))
  {
    var n := CharAt(s);
    DecodeMeetsGrammar(s);
    EncodeDecodes(Decode(s).1, rest);
    var t := s[..n] + rest;
    DecodeMeetsGrammar(t);
    assert t[n..] == rest && t[0] == s[0];
  }

  lemma {:induction false} ReadsText(s: seq<byte>)
    requires WellFormed(s)
    ensures ReadChars(Body(s, true) + [QUOTE]) == Text(CodePoints(s), [])
    decreases |s|
  {
    hide ReadChars;
    if s == [] {
      ReadsEnd();
    } else {
      var n := CharAt(s);
      DecodeMeetsGrammar(s);
      ReadsText(s[n..]);
      var tail := Body(s[n..], true) + [QUOTE];
      if s[0] < 0x80 {
        ReadsPiece(s[0], true, tail);
        assert Body(s, true) + [QUOTE] == Piece(s[0], true) + tail;
      } else {
        CharAtTails(s);
        HighBytes(s, n);
        ReadsHigh(s, tail);
        assert Body(s, true) + [QUOTE] == s[..n] + tail;
      }
    }
  }

  lemma {:induction false} ReadsBytes(s: seq<byte>)
    ensures ReadChars(Body(s, false) + [QUOTE]) == Text(Numbers(s), [])
  {
    hide ReadChars;
    if s == [] {
      ReadsEnd();
    } else {
      ReadsBytes(s[1..]);
      var tail := Body(s[1..], false) + [QUOTE];
      ReadsPiece(s[0], false, tail);
      assert Body(s, false) + [QUOTE] == Piece(s[0], false) + tail;
    }
  }

  lemma ReadsEnd()
    ensures ReadChars([] + [QUOTE]) == Text([], [])
  {
    assert [] + [QUOTE] == [QUOTE];
  }

  /** Any bytes are written as one JSON string, which is read as the text they are, or, when they are
      no text, as one character for each byte. */
  lemma WrittenIsRead(s: seq<byte>)
    ensures ReadString(Written(s)) == Text(Meaning(s), [])
  {
    hide ReadChars, WellFormed;
    assert Written(s)[1..] == Body(s, WellFormed(s)) + [QUOTE];
    if WellFormed(s) { ReadsText(s); } else { ReadsBytes(s); }
  }

  // ------------------------------------------------------------------- what can be told

  lemma {:induction false} NumbersTell(a: seq<byte>, b: seq<byte>)
    requires Numbers(a) == Numbers(b)
    ensures a == b
  {
    if a != [] && b != [] {
      assert Numbers(a)[0] == Numbers(b)[0];
      assert Numbers(a)[1..] == Numbers(a[1..]) && Numbers(b)[1..] == Numbers(b[1..]);
      NumbersTell(a[1..], b[1..]);
      assert a == [a[0]] + a[1..] && b == [b[0]] + b[1..];
    }
  }

  lemma SameParts(a: seq<byte>, b: seq<byte>, n: nat)
    requires n <= |a| && n <= |b| && a[..n] == b[..n] && a[n..] == b[n..]
    ensures a == b
  {
    assert a == a[..n] + a[n..] && b == b[..n] + b[n..];
  }

  lemma {:induction false} CodePointsTell(a: seq<byte>, b: seq<byte>)
    requires WellFormed(a) && WellFormed(b) && CodePoints(a) == CodePoints(b)
    ensures a == b
    decreases |a|
  {
    if a != [] && b != [] {
      DecodeMeetsGrammar(a);
      DecodeMeetsGrammar(b);
      assert CodePoints(a)[0] == CodePoints(b)[0];
      assert CodePoints(a)[1..] == CodePoints(a[CharAt(a)..]) && CodePoints(b)[1..] == CodePoints(b[CharAt(b)..]);
      assert a[..CharAt(a)] == b[..CharAt(b)];
      CodePointsTell(a[CharAt(a)..], b[CharAt(b)..]);
      SameParts(a, b, CharAt(a));
    }
  }

  /** The UTF-8 text whose characters have the numbers of the given bytes. */
  function Latin1(b: seq<byte>): seq<byte> {
    if b == [] then [] else Encode(b[0] as int) + Latin1(b[1..])
  }

  lemma {:induction false} Latin1IsText(b: seq<byte>)
    ensures WellFormed(Latin1(b)) && CodePoints(Latin1(b)) == Numbers(b)
  {
    if b != [] {
      hide Encode, Decode, CharAt, Scalar;
      var e, rest := Encode(b[0] as int), Latin1(b[1..]);
      Latin1IsText(b[1..]);
      EncodeDecodes(b[0] as int, rest);
      EncodeNotEmpty(b[0]);
      assert (e + rest)[|e|..] == rest;
    }
  }

  lemma EncodeNotEmpty(c: byte)
    ensures Scalar(c as int) && Encode(c as int) != []
  {
  }

  /** Two token texts are read alike from their strings exactly when they are the same, or when one is
      no UTF-8 and the other is the UTF-8 text of its byte numbers. */
  lemma StringTells(a: seq<byte>, b: seq<byte>)
    ensures Meaning(a) == Meaning(b) <==>
            if WellFormed(a) == WellFormed(b) then a == b
            else if WellFormed(a) then a == Latin1(b) else b == Latin1(a)
  {
    hide WellFormed, CodePoints, Numbers, Latin1;
    if WellFormed(a) && WellFormed(b) {
      if Meaning(a) == Meaning(b) { CodePointsTell(a, b); }
    } else if WellFormed(a) {
      TextTells(a, b);
    } else if WellFormed(b) {
      TextTells(b, a);
    } else {
      if Meaning(a) == Meaning(b) { NumbersTell(a, b); }
    }
  }

  lemma TextTells(a: seq<byte>, b: seq<byte>)
    requires WellFormed(a)
    ensures CodePoints(a) == Numbers(b) <==> a == Latin1(b)
  {
    hide WellFormed, CodePoints, Numbers, Latin1;
    Latin1IsText(b);
    if CodePoints(a) == Numbers(b) { CodePointsTell(a, Latin1(b)); }
  }

  /** So each text that is no UTF-8 shares its string with exactly one that is. */
  lemma StringIsShared(b: seq<byte>)
    requires !WellFormed(b)
    ensures WellFormed(Latin1(b)) && forall a :: WellFormed(a) ==> (Meaning(a) == Meaning(b) <==> a == Latin1(b))
  {
    hide WellFormed, CodePoints, Numbers, Latin1;
    Latin1IsText(b);
    forall a | WellFormed(a) ensures Meaning(a) == Meaning(b) <==> a == Latin1(b) { TextTells(a, b); }
  }

  /** For one: a letter with an accent and the lone byte of its number. */
  lemma StringDoesNotTell()
    ensures WellFormed([0xC3, 0xA9]) && !WellFormed([0xE9]) && Latin1([0xE9]) == [0xC3, 0xA9]
    ensures Meaning([0xC3, 0xA9]) == Meaning([0xE9])
  {
    var a: seq<byte>, b: seq<byte> := [0xC3, 0xA9], [0xE9];
    assert CharAt(a) == 2 && a[2..] == [];
    assert CharAt(b) == 0;
    assert Latin1(b) == Encode(0xE9) + Latin1([]) by { assert b[1..] == []; }
    StringIsShared(b);
  }

  method PutByte(out: seq<byte>, c: byte, valid: bool) returns (more: seq<byte>)
    ensures more == out + Piece(c, valid)
  {
    if c == QUOTE || c == BACKSLASH {
      more := out + [BACKSLASH] + [c];
    } else if c == 10 {
      more := out + [BACKSLASH, 0x6E];
    } else if c == 13 {
      more := out + [BACKSLASH, 0x72];
    } else if c == 9 {
      more := out + [BACKSLASH, 0x74];
    } else if c < 0x20 || (!valid && c >= 0x80) {
      more := out + [BACKSLASH, LETTER_U, 0x30, 0x30, HexDigit(c / 16), HexDigit(c % 16)];
    } else {
      more := out + [c];
    }
  }

  lemma BodyStep(out: seq<byte>, s: seq<byte>, i: nat, valid: bool)
    requires i < |s|
    ensures out + Body(s[i..], valid) == out + Piece(s[i], valid) + Body(s[i + 1..], valid)
  {
    hide Piece;
    assert s[i..][1..] == s[i + 1..];
  }

  method JsonWriteString(s: seq<byte>) returns (out: seq<byte>)
    ensures out == Written(s)
  {
    hide Piece, Body, WellFormed;
    var valid := JsonUtf8Valid(s);
    out := [QUOTE];
    var i := 0;
    assert s[0..] == s;
    while i < |s|
      invariant 0 <= i <= |s| && out + Body(s[i..], valid) == [QUOTE] + Body(s, valid)
    {
      BodyStep(out, s, i, valid);
      out := PutByte(out, s[i], valid);
      i := i + 1;
    }
    assert s[i..] == [];
    NoBody(out, valid);
    out := out + [QUOTE];
  }

  lemma NoBody(out: seq<byte>, valid: bool)
    ensures out + Body([], valid) == out
  {
  }

  /** The forms that are written, in instances: short ones for the quotation mark, the backslash and
      three controls, a number for another control and, outside UTF-8, for a byte from 0x80 on. */
  lemma Forms()
    ensures Written([34]) == [34, 92, 34, 34] && Written([92]) == [34, 92, 92, 34] && Written([65]) == [34, 65, 34]
    ensures Written([10]) == [34, 92, 110, 34] && Written([13]) == [34, 92, 114, 34]
    ensures Written([9]) == [34, 92, 116, 34] && Written([31]) == [34, 92, 117, 48, 48, 49, 102, 34]
    ensures Written([0xE9]) == [34, 92, 117, 48, 48, 101, 57, 34]
  {
    hide Piece, WellFormed, Written;
    StringDoesNotTell();
    OneForm(34);
    OneForm(92);
    OneForm(65);
    OneForm(10);
    OneForm(13);
    OneForm(9);
    OneForm(31);
    OneForm(0xE9);
    PieceForms();
  }

  lemma OneForm(c: byte)
    requires c < 0x80 || !WellFormed([c])
    ensures Written([c]) == [QUOTE] + Piece(c, c < 0x80) + [QUOTE]
  {
    hide Piece;
    assert [c][1..] == [];
    if c < 0x80 { assert CharAt([c]) == 1 && WellFormed([c]); }
    assert Body([c], c < 0x80) == Piece(c, c < 0x80) + Body([], c < 0x80) == Piece(c, c < 0x80);
  }

  lemma PieceForms()
    ensures Piece(34, true) == [92, 34] && Piece(92, true) == [92, 92] && Piece(65, true) == [65]
    ensures Piece(10, true) == [92, 110] && Piece(13, true) == [92, 114] && Piece(9, true) == [92, 116]
    ensures Piece(31, true) == [92, 117, 48, 48, 49, 102] && Piece(0xE9, false) == [92, 117, 48, 48, 101, 57]
  {
  }
}
