/** How far one cursor step goes: the editor's approximation of grapheme clusters. */
module Grapheme {
  import opened Utf8

  predicate VariationSelector(cp: int) { cp == 0xFE0E || cp == 0xFE0F }
  predicate SkinTone(cp: int) { 0x1F3FB <= cp <= 0x1F3FF }
  predicate ZeroWidthJoiner(cp: int) { cp == 0x200D }
  predicate RegionalIndicator(cp: int) { 0x1F1E6 <= cp <= 0x1F1FF }
  predicate CombiningMark(cp: int) {
    || 0x0300 <= cp <= 0x036F || 0x1AB0 <= cp <= 0x1AFF || 0x1DC0 <= cp <= 0x1DFF
    || 0x20D0 <= cp <= 0x20FF || 0xFE20 <= cp <= 0xFE2F
  }
  predicate Extends(cp: int) {
    VariationSelector(cp) || SkinTone(cp) || ZeroWidthJoiner(cp) || CombiningMark(cp)
  }

  // -------------------------------------------------------------------- forward

  /** Bytes the cluster takes from s, the text after its first code points. */
  function ClusterTail(s: seq<byte>, regional: bool, joined: bool): (n: nat)
    ensures n <= |s|
    decreases |s|
  {
    var (used, cp) := Decode(s);
    if used == 0 then 0
    else if joined then used + ClusterTail(s[used..], regional, false)
    else if ZeroWidthJoiner(cp) then used + ClusterTail(s[used..], regional, true)
    else if Extends(cp) then used + ClusterTail(s[used..], regional, false)
    else if regional && RegionalIndicator(cp) then used + ClusterTail(s[used..], false, false)
    else 0
  }

  /** Bytes of the cluster at the head of s. */
  function NextCluster(s: seq<byte>): (n: nat)
    ensures n <= |s|
  {
    var (used, cp) := Decode(s);
    if used == 0 then 0 else used + ClusterTail(s[used..], RegionalIndicator(cp), false)
  }

  method NextGrapheme(s: seq<byte>) returns (used: nat)
    ensures used == NextCluster(s)
  {
    hide Decode, Extends, ZeroWidthJoiner, RegionalIndicator;
    var n, cp := Utf8Decode(s);
    used := n;
    if used == 0 { return; }
    var regional, joined := RegionalIndicator(cp), false;
    while used < |s|
      invariant used <= |s|
      invariant NextCluster(s) == used + ClusterTail(s[used..], regional, joined)
    {
      n, cp := Utf8Decode(s[used..]);
      if n == 0 { break; }
      if joined { joined := false; }
      else if ZeroWidthJoiner(cp) { joined := true; }
      else if Extends(cp) { }
      else if regional && RegionalIndicator(cp) { regional := false; }
      else { break; }
      assert s[used..][n..] == s[used + n..];
      used := used + n;
    }
  }

  /** In well-formed text a step to the right makes progress, stops between characters, and never
      stops in front of a mark that belongs to the character it passed. */
  lemma NextClusterStops(s: seq<byte>)
    requires WellFormed(s) && s != []
    ensures 0 < NextCluster(s) <= |s|
    ensures Boundary(s, NextCluster(s))
    ensures NextCluster(s) < |s| ==> !Extends(Decode(s[NextCluster(s)..]).1)
  {
    hide Decode, ClusterTail, WellFormed, Extends, CharAt, Boundary, RegionalIndicator;
    FirstChar(s);
    var (used, cp) := Decode(s);
    var rest := s[used..];
    ClusterTailStops(rest, RegionalIndicator(cp), false);
    RestStops(s, used, ClusterTail(rest, RegionalIndicator(cp), false));
  }

  lemma RestStops(s: seq<byte>, used: nat, n: nat)
    requires used + n <= |s|
    ensures s[used..][n..] == s[used + n..] && (Boundary(s[used..], n) ==> Boundary(s, used + n))
  {
  }

  lemma {:induction false} ClusterTailStops(s: seq<byte>, regional: bool, joined: bool)
    requires WellFormed(s)
    ensures Boundary(s, ClusterTail(s, regional, joined))
    ensures var n := ClusterTail(s, regional, joined); n < |s| ==> !Extends(Decode(s[n..]).1)
    decreases |s|
  {
    hide Decode, WellFormed, CharAt, CombiningMark;
    if s != [] {
      FirstChar(s);
      var (used, cp) := Decode(s);
      var rest := s[used..];
      var n := ClusterTail(s, regional, joined);
      if n > 0 {
        var regional', joined' := regional && (joined || Extends(cp)), !joined && ZeroWidthJoiner(cp);
        ClusterTailStops(rest, regional', joined');
        assert n == used + ClusterTail(rest, regional', joined');
        assert rest[n - used..] == s[n..];
        assert n < |s| ==> rest[n - used] == s[n];
      } else {
        assert s[0..] == s;
      }
    }
  }

  // ------------------------------------------------------------------- backward

  /** Where the scan for the first byte of the character before p stops, now looking at i. */
  function ScanBack(s: seq<byte>, p: nat, i: nat): (r: nat)
    requires i < p <= |s|
    ensures r <= i
  {
    if i > 0 && p - i < 4 && Tail(s[i]) then ScanBack(s, p, i - 1) else i
  }

  function PrevStart(s: seq<byte>, p: nat): (i: nat)
    requires 0 < p <= |s|
    ensures i < p
  {
    ScanBack(s, p, p - 1)
  }

  /** The code point that starts at i. */
  function CodePoint(s: seq<byte>, i: nat): int
    requires i < |s|
  {
    if LeadLen(s[i]) <= |s| - i then Assemble(s[i..]) else s[i] as int
  }

  method DecodePrev(s: seq<byte>, p: nat) returns (cp: int, cplen: nat)
    requires p <= |s|
    ensures p == 0 ==> cplen == 0
    ensures p > 0 ==> cplen == p - PrevStart(s, p) && cp == CodePoint(s, p - cplen)
  {
    if p == 0 { return 0, 0; }
    var i := p - 1;
    while i > 0 && p - i < 4 && Tail(s[i])
      invariant 0 <= i < p
      invariant PrevStart(s, p) == ScanBack(s, p, i)
    {
      i := i - 1;
    }
    cp := CodePoint(s, i);
    cplen := p - i;
  }

  /** Start of the cluster that already holds s[cur..] up to the cursor and whose first code point is cp. */
  function ClusterStart(s: seq<byte>, cur: nat, cp: int): (r: nat)
    requires cur <= |s|
    ensures r <= cur
  {
    if cur == 0 then 0
    else
      var p := PrevStart(s, cur);
      var prev := CodePoint(s, p);
      if ZeroWidthJoiner(prev) then
        if p == 0 then 0
        else var q := PrevStart(s, p); ClusterStart(s, q, CodePoint(s, q))
      else if Extends(cp) then ClusterStart(s, p, prev)
      else if RegionalIndicator(cp) && RegionalIndicator(prev) then p
      else cur
  }

  /** Bytes of the cluster that ends at p. */
  function PrevCluster(s: seq<byte>, p: nat): (n: nat)
    requires p <= |s|
    ensures n <= p
  {
    if p == 0 then 0
    else var i := PrevStart(s, p); p - ClusterStart(s, i, CodePoint(s, i))
  }

  method PrevCharLen(s: seq<byte>, p: nat) returns (total: nat)
    requires p <= |s|
    ensures total == PrevCluster(s, p)
  {
    hide PrevStart, CodePoint, Extends, ZeroWidthJoiner, RegionalIndicator;
    if p == 0 { return 0; }
    var cp, cplen := DecodePrev(s, p);
    total := cplen;
    var cur := p - cplen;
    while cur > 0
      invariant 0 <= cur <= |s| && total == p - cur
      invariant p - PrevCluster(s, p) == ClusterStart(s, cur, cp)
    {
      var prev, prevlen := DecodePrev(s, cur);
      if ZeroWidthJoiner(prev) {
        total := total + prevlen;
        cur := cur - prevlen;
        prev, prevlen := DecodePrev(s, cur);
        if prevlen == 0 { break; }
        total := total + prevlen;
        cur := cur - prevlen;
        cp := prev;
      } else if Extends(cp) {
        total := total + prevlen;
        cur := cur - prevlen;
        cp := prev;
      } else if RegionalIndicator(cp) && RegionalIndicator(prev) {
        total := total + prevlen;
        break;
      } else {
        break;
      }
    }
  }

  /** The backward scan finds the character whose last byte is just before the boundary p. */
  lemma PrevStartFindsChar(s: seq<byte>, p: nat)
    requires WellFormed(s) && Boundary(s, p) && p > 0
    ensures var i := PrevStart(s, p); Boundary(s, i) && i + CharAt(s[i..]) == p
  {
    hide WellFormed, CharAt, Tail;
    var i := CharBefore(s, p);
    ScanBackTo(s, p, p - 1, i);
  }

  lemma {:induction false} CharBefore(s: seq<byte>, p: nat) returns (i: nat)
    requires WellFormed(s) && Boundary(s, p) && p > 0
    ensures i < p && p - i <= 4 && !Tail(s[i]) && i + CharAt(s[i..]) == p
    ensures forall k :: i < k < p ==> Tail(s[k])
    decreases |s|
  {
    hide Decode, WellFormed, CharAt, Tail;
    FirstChar(s);
    var n := CharAt(s);
    if n == p {
      i := 0;
      assert s[0..] == s;
    } else {
      var rest := s[n..];
      assert forall k :: 0 <= k < |rest| ==> rest[k] == s[n + k];
      var j := CharBefore(rest, p - n);
      i := n + j;
      assert rest[j..] == s[i..];
      forall k | i < k < p ensures Tail(s[k]) { assert Tail(rest[k - n]); }
    }
  }

  lemma {:induction false} ScanBackTo(s: seq<byte>, p: nat, i: nat, start: nat)
    requires start <= i < p <= |s| && p - start <= 4 && !Tail(s[start])
    requires forall k :: start < k < p ==> Tail(s[k])
    ensures ScanBack(s, p, i) == start
    decreases i
  {
    if i > start { ScanBackTo(s, p, i - 1, start); }
  }

  /** In well-formed text a step to the left makes progress, stops between characters, and the
      cluster it passed starts at a base character unless the text itself starts there. */
  lemma PrevClusterStops(s: seq<byte>, p: nat)
    requires WellFormed(s) && Boundary(s, p) && p > 0
    ensures 0 < PrevCluster(s, p) <= p
    ensures Boundary(s, p - PrevCluster(s, p))
    ensures var i := p - PrevCluster(s, p); i == 0 || !Extends(CodePoint(s, i))
  {
    PrevStartFindsChar(s, p);
    var i := PrevStart(s, p);
    ClusterStartStops(s, i, CodePoint(s, i));
  }

  lemma {:induction false} ClusterStartStops(s: seq<byte>, cur: nat, cp: int)
    requires WellFormed(s) && Boundary(s, cur) && cur < |s| && cp == CodePoint(s, cur)
    ensures Boundary(s, ClusterStart(s, cur, cp))
    ensures var r := ClusterStart(s, cur, cp); r == 0 || !Extends(CodePoint(s, r))
    decreases cur
  {
    CharAtTails(s);
    if cur > 0 {
      PrevStartFindsChar(s, cur);
      var p := PrevStart(s, cur);
      var prev := CodePoint(s, p);
      if ZeroWidthJoiner(prev) {
        if p > 0 {
          PrevStartFindsChar(s, p);
          var q := PrevStart(s, p);
          ClusterStartStops(s, q, CodePoint(s, q));
        }
      } else if Extends(cp) {
        ClusterStartStops(s, p, prev);
      }
    }
  }
}
