/** The two UTF-8 recognisers of the program, against the grammar of RFC 3629.

    Masks of the C code are written as ranges: a byte is a continuation byte when
    its top two bits are 10, that is when it lies in 0x80..0xBF, and so on. */
module Utf8 {

  newtype byte = x: int | 0 <= x < 256

  // ---------------------------------------------------------------- RFC 3629

  /** UTF8-tail of section 4. */
  predicate Tail(b: byte) {
    0x80 <= b < 0xC0
  }

  /** The second byte that section 4 allows after a given lead byte. */
  predicate SecondOk(lead: byte, second: byte) {
    && Tail(second)
    && (lead == 0xE0 ==> second >= 0xA0)
    && (lead == 0xED ==> second < 0xA0)
    && (lead == 0xF0 ==> second >= 0x90)
    && (lead == 0xF4 ==> second < 0x90)
  }

  /** Length of the UTF8-char of section 4 at the head of s, or 0 when there is none. */
  function CharAt(s: seq<byte>): (n: nat)
    ensures n <= 4 && n <= |s|
  {
    if |s| >= 1 && s[0] < 0x80 then 1
    else if |s| >= 2 && 0xC2 <= s[0] <= 0xDF && Tail(s[1]) then 2
    else if |s| >= 3 && 0xE0 <= s[0] <= 0xEF && SecondOk(s[0], s[1]) && Tail(s[2]) then 3
    else if |s| >= 4 && 0xF0 <= s[0] <= 0xF4 && SecondOk(s[0], s[1]) && Tail(s[2]) && Tail(s[3]) then 4
    else 0
  }

  /** UTF8-octets of section 4. */
  predicate WellFormed(s: seq<byte>)
    decreases |s|
  {
    s == [] || (CharAt(s) > 0 && WellFormed(s[CharAt(s)..]))
  }

  /** The code points section 3 allows: no surrogates, nothing past U+10FFFF. */
  predicate Scalar(cp: int) {
    0 <= cp <= 0x10FFFF && !(0xD800 <= cp <= 0xDFFF)
  }

  /** The encoding of section 3. */
  function Encode(cp: int): (s: seq<byte>)
    requires Scalar(cp)
  {
    if cp < 0x80 then [cp as byte]
    else if cp < 0x800 then [(0xC0 + cp / 64) as byte, (0x80 + cp % 64) as byte]
    else if cp < 0x10000 then
      [(0xE0 + cp / 4096) as byte, (0x80 + cp / 64 % 64) as byte, (0x80 + cp % 64) as byte]
    else
      [(0xF0 + cp / 262144) as byte, (0x80 + cp / 4096 % 64) as byte,
       (0x80 + cp / 64 % 64) as byte, (0x80 + cp % 64) as byte]
  }

  // ------------------------------------------------------- the first recogniser

  /** Number of bytes the lead byte announces; 1 for a byte that announces nothing. */
  function LeadLen(b: byte): (n: nat)
    ensures 1 <= n <= 4
  {
    if b < 0xC0 then 1 else if b < 0xE0 then 2 else if b < 0xF0 then 3 else if b < 0xF8 then 4 else 1
  }

  /** The payload bits of the announced bytes, put together. */
  function Assemble(s: seq<byte>): int
    requires s != [] && LeadLen(s[0]) <= |s|
  {
    match LeadLen(s[0])
    case 1 => s[0] as int
    case 2 => (s[0] as int % 32) * 64 + s[1] as int % 64
    case 3 => (s[0] as int % 16) * 4096 + (s[1] as int % 64) * 64 + s[2] as int % 64
    case 4 => (s[0] as int % 8) * 262144 + (s[1] as int % 64) * 4096 + (s[2] as int % 64) * 64 + s[3] as int % 64
  }

  const REPLACEMENT := 0xFFFD

  /** Bytes used and code point. No bytes used: the sequence is cut short. One byte used and
      U+FFFD: the byte at the head is not the start of a character. */
  function Decode(s: seq<byte>): (r: (nat, int))
    ensures r.0 <= |s| && r.0 <= 4
  {
    if s == [] then (0, REPLACEMENT)
    else
      var n := LeadLen(s[0]);
      if s[0] < 0x80 then (1, s[0] as int)
      else if s[0] < 0xC2 || s[0] > 0xF4 then (1, REPLACEMENT)
      else if exists i :: 1 <= i < n && i < |s| && !Tail(s[i]) then (1, REPLACEMENT)
      else if |s| < n then (0, REPLACEMENT)
      else
        var value := Assemble(s);
        if !Scalar(value) || (n == 3 && value < 0x800) || (n == 4 && value < 0x10000)
        then (1, REPLACEMENT) else (n, value)
  }

  /** What callers take for an accepted character: some bytes used, and not a stray high byte. */
  predicate Accepted(s: seq<byte>) {
    s != [] && Decode(s).0 > 0 && !(Decode(s).0 == 1 && s[0] >= 0x80)
  }

  /** Decoding step after step never meets an invalid or a cut-short sequence. */
  predicate AllAccepted(s: seq<byte>)
    decreases |s|
  {
    s == [] || (Accepted(s) && AllAccepted(s[Decode(s).0..]))
  }

  method Utf8Decode(s: seq<byte>) returns (n: nat, cp: int)
    ensures (n, cp) == Decode(s)
  {
    if |s| == 0 { return 0, REPLACEMENT; }
    var lead := s[0];
    var need := LeadLen(lead);
    if lead < 0x80 { return 1, lead as int; }
    if lead < 0xC2 || lead > 0xF4 { return 1, REPLACEMENT; }
    var i := 1;
    while i < need && i < |s|
      invariant 1 <= i <= need
      invariant forall k :: 1 <= k < i && k < |s| ==> Tail(s[k])
    {
      if !Tail(s[i]) { return 1, REPLACEMENT; }
      i := i + 1;
    }
    if |s| < need { return 0, REPLACEMENT; }
    var value := Assemble(s);
    if value > 0x10FFFF || 0xD800 <= value <= 0xDFFF
       || (need == 3 && value < 0x800) || (need == 4 && value < 0x10000) {
      return 1, REPLACEMENT;
    }
    return need, value;
  }

  /** The decoder accepts exactly the characters of the grammar, uses exactly their bytes, and
      what it returns is the scalar value whose encoding those bytes are. */
  lemma DecodeMeetsGrammar(s: seq<byte>)
    ensures Accepted(s) <==> CharAt(s) > 0
    ensures Accepted(s) ==>
      && Decode(s).0 == CharAt(s)
      && Scalar(Decode(s).1)
      && s[..CharAt(s)] == Encode(Decode(s).1)
  {
    if s != [] && 0xC2 <= s[0] <= 0xF4 && LeadLen(s[0]) <= |s| {
      match LeadLen(s[0])
      case 2 => DecodeTwo(s);
      case 3 => DecodeThree(s);
      case 4 => DecodeFour(s);
    }
  }

  lemma DecodeTwo(s: seq<byte>)
    requires |s| >= 2 && 0xC2 <= s[0] <= 0xDF
    ensures if Tail(s[1]) then Decode(s).0 == 2 && Scalar(Decode(s).1) && Encode(Decode(s).1) == s[..2]
            else Decode(s) == (1, REPLACEMENT)
  {
    if Tail(s[1]) {
      var x, y := s[0] as int - 0xC0, s[1] as int - 0x80;
      assert Assemble(s) == x * 64 + y;
      assert (x * 64 + y) / 64 == x && (x * 64 + y) % 64 == y;
    }
  }

  lemma DecodeThree(s: seq<byte>)
    requires |s| >= 3 && 0xE0 <= s[0] <= 0xEF
    ensures if SecondOk(s[0], s[1]) && Tail(s[2])
            then Decode(s).0 == 3 && Scalar(Decode(s).1) && Encode(Decode(s).1) == s[..3]
            else Decode(s) == (1, REPLACEMENT)
  {
    if Tail(s[1]) && Tail(s[2]) {
      assert forall i :: 1 <= i < 3 ==> Tail(s[i]);
      AssembleThree(s);
      ThreeInRange(s[0], s[1], s[2]);
      if SecondOk(s[0], s[1]) { ThreeEncodes(s[0], s[1], s[2]); }
      assert s[..3] == [s[0], s[1], s[2]];
    }
  }

  lemma DecodeFour(s: seq<byte>)
    requires |s| >= 4 && 0xF0 <= s[0] <= 0xF4
    ensures if SecondOk(s[0], s[1]) && Tail(s[2]) && Tail(s[3])
            then Decode(s).0 == 4 && Scalar(Decode(s).1) && Encode(Decode(s).1) == s[..4]
            else Decode(s) == (1, REPLACEMENT)
  {
    if Tail(s[1]) && Tail(s[2]) && Tail(s[3]) {
      assert forall i :: 1 <= i < 4 ==> Tail(s[i]);
      AssembleFour(s);
      FourInRange(s[0], s[1], s[2], s[3]);
      if SecondOk(s[0], s[1]) { FourEncodes(s[0], s[1], s[2], s[3]); }
      assert s[..4] == [s[0], s[1], s[2], s[3]];
    }
  }

  function Value3(a: byte, b: byte, c: byte): int {
    (a as int - 0xE0) * 4096 + (b as int - 0x80) * 64 + (c as int - 0x80)
  }

  function Value4(a: byte, b: byte, c: byte, d: byte): int {
    (a as int - 0xF0) * 262144 + (b as int - 0x80) * 4096 + (c as int - 0x80) * 64 + (d as int - 0x80)
  }

  lemma Low6(b: byte)
    requires Tail(b)
    ensures b as int % 64 == b as int - 0x80
  {
  }

  lemma AssembleThree(s: seq<byte>)
    requires |s| >= 3 && 0xE0 <= s[0] <= 0xEF && Tail(s[1]) && Tail(s[2])
    ensures Assemble(s) == Value3(s[0], s[1], s[2])
  {
    Low6(s[1]); Low6(s[2]);
  }

  lemma AssembleFour(s: seq<byte>)
    requires |s| >= 4 && 0xF0 <= s[0] <= 0xF4 && Tail(s[1]) && Tail(s[2]) && Tail(s[3])
    ensures Assemble(s) == Value4(s[0], s[1], s[2], s[3])
  {
    Low6(s[1]); Low6(s[2]); Low6(s[3]);
  }

  lemma ThreeInRange(a: byte, b: byte, c: byte)
    requires 0xE0 <= a <= 0xEF && Tail(b) && Tail(c)
    ensures Scalar(Value3(a, b, c)) && Value3(a, b, c) >= 0x800 <==> SecondOk(a, b)
  {
  }

  lemma FourInRange(a: byte, b: byte, c: byte, d: byte)
    requires 0xF0 <= a <= 0xF4 && Tail(b) && Tail(c) && Tail(d)
    ensures Scalar(Value4(a, b, c, d)) && Value4(a, b, c, d) >= 0x10000 <==> SecondOk(a, b)
  {
  }

  lemma ThreeEncodes(a: byte, b: byte, c: byte)
    requires 0xE0 <= a <= 0xEF && Tail(b) && Tail(c)
    requires Scalar(Value3(a, b, c)) && 0x800 <= Value3(a, b, c) < 0x10000
    ensures Encode(Value3(a, b, c)) == [a, b, c]
  {
    var x, y, z := a as int - 0xE0, b as int - 0x80, c as int - 0x80;
    Split64(x * 64 + y, z);
    Split64(x, y);
    Split4096(x, y * 64 + z);
  }

  lemma FourEncodes(a: byte, b: byte, c: byte, d: byte)
    requires 0xF0 <= a <= 0xF4 && Tail(b) && Tail(c) && Tail(d)
    requires Scalar(Value4(a, b, c, d)) && 0x10000 <= Value4(a, b, c, d)
    ensures Encode(Value4(a, b, c, d)) == [a, b, c, d]
  {
    FourDigits(a as int - 0xF0, b as int - 0x80, c as int - 0x80, d as int - 0x80);
    DigitsEncode(Value4(a, b, c, d), a as int - 0xF0, b as int - 0x80, c as int - 0x80, d as int - 0x80);
  }

  lemma DigitsEncode(v: int, x: int, y: int, z: int, w: int)
    requires Scalar(v) && v >= 0x10000 && 0 <= x < 16 && 0 <= y < 64 && 0 <= z < 64 && 0 <= w < 64
    requires v / 262144 == x && v / 4096 % 64 == y && v / 64 % 64 == z && v % 64 == w
    ensures Encode(v) == [(0xF0 + x) as byte, (0x80 + y) as byte, (0x80 + z) as byte, (0x80 + w) as byte]
  {
  }

  lemma FourDigits(x: int, y: int, z: int, w: int)
    requires 0 <= x && 0 <= y < 64 && 0 <= z < 64 && 0 <= w < 64
    ensures var v := x * 262144 + y * 4096 + z * 64 + w;
      v / 262144 == x && v / 4096 == x * 64 + y && v / 4096 % 64 == y && v / 64 % 64 == z && v % 64 == w
  {
    var v := x * 262144 + y * 4096 + z * 64 + w;
    Split64(x * 4096 + y * 64 + z, w);
    Split64(x * 64 + y, z);
    Split64(x, y);
    Split4096(x * 64 + y, z * 64 + w);
    Split262144(x, y * 4096 + z * 64 + w);
  }

  lemma Split64(a: int, r: int)
    requires 0 <= r < 64
    ensures (a * 64 + r) / 64 == a && (a * 64 + r) % 64 == r
  {
  }

  lemma Split4096(a: int, r: int)
    requires 0 <= r < 4096
    ensures (a * 4096 + r) / 4096 == a
  {
  }

  lemma Split262144(a: int, r: int)
    requires 0 <= r < 262144
    ensures (a * 262144 + r) / 262144 == a
  {
  }

  /** Every scalar value comes back from its own encoding, whatever follows it. */
  lemma EncodeDecodes(cp: int, rest: seq<byte>)
    requires Scalar(cp)
    ensures CharAt(Encode(cp) + rest) == |Encode(cp)|
    ensures Decode(Encode(cp) + rest) == (|Encode(cp)|, cp)
  {
    if cp >= 0x10000 {
      EncodeDecodesFour(cp, rest);
    } else if cp >= 0x800 {
      EncodeDecodesThree(cp, rest);
    } else if cp >= 0x80 {
      EncodeDecodesTwo(cp, rest);
    }
  }

  lemma EncodeDecodesTwo(cp: int, rest: seq<byte>)
    requires 0x80 <= cp < 0x800
    ensures CharAt(Encode(cp) + rest) == 2 && Decode(Encode(cp) + rest) == (2, cp)
  {
    Digits64(0, 0, cp / 64, cp % 64, cp);
    assert (0xC0 + cp / 64) % 32 == cp / 64;
    assert (0x80 + cp % 64) % 64 == cp % 64;
  }

  lemma EncodeDecodesThree(cp: int, rest: seq<byte>)
    requires 0x800 <= cp < 0x10000 && Scalar(cp)
    ensures CharAt(Encode(cp) + rest) == 3 && Decode(Encode(cp) + rest) == (3, cp)
  {
    var e, s := Encode(cp), Encode(cp) + rest;
    assert s[0] == e[0] && s[1] == e[1] && s[2] == e[2];
    Digits64(0, cp / 4096, cp / 64 % 64, cp % 64, cp);
    assert Value3(e[0], e[1], e[2]) == cp;
    ThreeInRange(e[0], e[1], e[2]);
    AssembleThree(s);
    assert forall i :: 1 <= i < 3 ==> Tail(s[i]);
  }

  lemma EncodeDecodesFour(cp: int, rest: seq<byte>)
    requires 0x10000 <= cp <= 0x10FFFF
    ensures CharAt(Encode(cp) + rest) == 4 && Decode(Encode(cp) + rest) == (4, cp)
  {
    var e, s := Encode(cp), Encode(cp) + rest;
    assert s[0] == e[0] && s[1] == e[1] && s[2] == e[2] && s[3] == e[3];
    Digits64(cp / 262144, cp / 4096 % 64, cp / 64 % 64, cp % 64, cp);
    assert Value4(e[0], e[1], e[2], e[3]) == cp;
    FourInRange(e[0], e[1], e[2], e[3]);
    AssembleFour(s);
    assert forall i :: 1 <= i < 4 ==> Tail(s[i]);
  }

  lemma Digits64(x: int, y: int, z: int, w: int, cp: int)
    requires 0 <= cp <= 0x10FFFF
    requires w == cp % 64 && z == cp / 64 % 64 && y == cp / 4096 % 64 && x == cp / 262144
    ensures cp == x * 262144 + y * 4096 + z * 64 + w
  {
    assert cp == cp / 64 * 64 + w;
    assert cp / 64 == cp / 4096 * 64 + z;
    assert cp / 4096 == x * 64 + y;
  }

  lemma {:induction false} AllAcceptedIsWellFormed(s: seq<byte>)
    ensures AllAccepted(s) <==> WellFormed(s)
    decreases |s|
  {
    if s != [] {
      DecodeMeetsGrammar(s);
      if CharAt(s) > 0 { AllAcceptedIsWellFormed(s[CharAt(s)..]); }
    }
  }

  // ------------------------------------------------------ the second recogniser

  /** The validator of the token dump: a table of lead bytes, then range checks. */
  method JsonUtf8Valid(s: seq<byte>) returns (ok: bool)
    ensures ok <==> WellFormed(s)
  {
    var i := 0;
    while i < |s|
      invariant 0 <= i <= |s|
      invariant WellFormed(s) <==> WellFormed(s[i..])
    {
      var n := JsonCharLen(s, i);
      if n == 0 { return false; }
      assert s[i..][n..] == s[i + n..];
      i := i + n;
    }
    return true;
  }

  /** One round of the validator: the bytes of the character at i, or 0 to reject. */
  method JsonCharLen(s: seq<byte>, i: nat) returns (n: nat)
    requires i < |s|
    ensures n == CharAt(s[i..])
  {
    ghost var rest := s[i..];
    assert forall k :: 0 <= k < |rest| ==> rest[k] == s[i + k];
    CharAtTails(rest);
    var c := s[i];
    if c < 0x80 { return 1; }
    var need := 0;
    if 0xC2 <= c <= 0xDF { need := 1; }
    else if 0xE0 <= c <= 0xEF { need := 2; }
    else if 0xF0 <= c <= 0xF4 { need := 3; }
    else { return 0; }
    if i + 1 + need > |s| { return 0; }
    var c1 := s[i + 1];
    if c == 0xE0 && c1 < 0xA0 { return 0; }
    if c == 0xED && c1 >= 0xA0 { return 0; }
    if c == 0xF0 && c1 < 0x90 { return 0; }
    if c == 0xF4 && c1 >= 0x90 { return 0; }
    var j := 0;
    while j < need
      invariant 0 <= j <= need
      invariant forall k :: 0 < k <= j ==> Tail(rest[k])
    {
      if !Tail(s[i + 1 + j]) {
        assert !Tail(rest[j + 1]);
        return 0;
      }
      assert Tail(rest[j + 1]);
      j := j + 1;
    }
    return 1 + need;
  }

  // ------------------------------------------------------------------ boundaries

  /** No character is cut at p: p is the end of s, or the byte at p is not a continuation byte. */
  predicate Boundary(s: seq<byte>, p: int) {
    0 <= p <= |s| && (p < |s| ==> !Tail(s[p]))
  }

  lemma CharAtPrefix(s: seq<byte>, t: seq<byte>)
    requires CharAt(s) > 0
    ensures CharAt(s + t) == CharAt(s)
  {
  }

  /** Between the first byte of a character and its end there is no boundary. */
  lemma CharAtTails(s: seq<byte>)
    ensures forall i :: 0 < i < CharAt(s) ==> Tail(s[i])
    ensures CharAt(s) > 0 ==> !Tail(s[0])
  {
  }

  lemma {:induction false} ConcatWellFormed(a: seq<byte>, b: seq<byte>)
    requires WellFormed(a) && WellFormed(b)
    ensures WellFormed(a + b)
    decreases |a|
  {
    hide CharAt;
    if a == [] {
      assert a + b == b;
    } else {
      var n := CharAt(a);
      CharAtPrefix(a, b);
      ConcatWellFormed(a[n..], b);
      assert (a + b)[n..] == a[n..] + b;
    }
  }

  /** Everything a step over the first character of well-formed text needs. */
  lemma FirstChar(s: seq<byte>)
    requires WellFormed(s) && s != []
    ensures 0 < CharAt(s) <= |s| && Decode(s).0 == CharAt(s)
    ensures WellFormed(s[CharAt(s)..]) && Boundary(s, CharAt(s)) && Boundary(s, 0)
    ensures forall i :: 0 < i < CharAt(s) ==> Tail(s[i])
  {
    DecodeMeetsGrammar(s);
    CharAtTails(s);
    var n := CharAt(s);
    if n < |s| { CharAtTails(s[n..]); assert s[n..][0] == s[n]; }
  }

  lemma CharAtCut(s: seq<byte>, p: nat)
    requires 0 < CharAt(s) <= p <= |s|
    ensures CharAt(s[..p]) == CharAt(s)
  {
  }

  lemma TailIsNoStart(s: seq<byte>, p: nat)
    requires p < |s| && Tail(s[p])
    ensures !WellFormed(s[p..])
  {
  }

  /** A boundary of well-formed text is exactly a place where it splits into two well-formed texts. */
  lemma {:induction false} BoundarySplits(s: seq<byte>, p: int)
    requires WellFormed(s) && 0 <= p <= |s|
    ensures Boundary(s, p) <==> WellFormed(s[..p]) && WellFormed(s[p..])
    decreases |s|
  {
    hide Tail, CharAt;
    if p == 0 {
      assert s[..0] == [] && s[0..] == s;
      CharAtTails(s);
    } else {
      var n := CharAt(s);
      CharAtTails(s);
      if p < n {
        TailIsNoStart(s, p);
      } else {
        BoundarySplits(s[n..], p - n);
        assert s[n..][..p - n] == s[..p][n..];
        assert s[n..][p - n..] == s[p..];
        CharAtCut(s, p);
      }
    }
  }

  /** Replacing the text between two boundaries by well-formed text leaves the whole well formed. */
  lemma SpliceWellFormed(s: seq<byte>, lo: int, hi: int, mid: seq<byte>)
    requires WellFormed(s) && WellFormed(mid)
    requires Boundary(s, lo) && Boundary(s, hi) && lo <= hi
    ensures WellFormed(s[..lo] + mid + s[hi..])
  {
    BoundarySplits(s, lo);
    BoundarySplits(s, hi);
    ConcatWellFormed(s[..lo], mid);
    ConcatWellFormed(s[..lo] + mid, s[hi..]);
  }

  lemma SliceWellFormed(s: seq<byte>, lo: int, hi: int)
    requires WellFormed(s) && Boundary(s, lo) && Boundary(s, hi) && lo <= hi
    ensures WellFormed(s[lo..hi])
  {
    BoundarySplits(s, hi);
    assert s[..hi][lo..] == s[lo..hi];
    BoundarySplits(s[..hi], lo);
  }
}
