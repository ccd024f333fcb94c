/** Which code points a cursor step takes, to either side. */
module Clusters {
  import opened Grapheme
  import opened Utf8

  predicate Scalars(c: seq<int>) {
    forall i :: 0 <= i < |c| ==> Scalar(c[i])
  }

  /** The text of some code points. */
  function Text(c: seq<int>): (s: seq<byte>)
    requires Scalars(c)
  {
    if c == [] then [] else Encode(c[0]) + Text(c[1..])
  }

  const JOINER := 0x200D

  /** Code points that belong to what stands in front: variation selectors, skin tones, the joiner and
      combining marks. */
  predicate Mark(cp: int) {
    || cp == 0xFE0E || cp == 0xFE0F || 0x1F3FB <= cp <= 0x1F3FF || cp == JOINER
    || 0x300 <= cp <= 0x36F || 0x1AB0 <= cp <= 0x1AFF || 0x1DC0 <= cp <= 0x1DFF || 0x20D0 <= cp <= 0x20FF
    || 0xFE20 <= cp <= 0xFE2F
  }

  predicate Flag(cp: int) {
    0x1F1E6 <= cp <= 0x1F1FF
  }

  // ------------------------------------------------------------------------ to the right

  /** The code point at i is tied to the one before by a joiner, which is not tied itself. */
  predicate Tied(c: seq<int>, i: nat)
    requires i <= |c|
  {
    i >= 2 && c[i - 1] == JOINER && !Tied(c, i - 1)
  }

  /** Half a flag at the start still waits for its other half at i. */
  predicate Waits(c: seq<int>, i: nat)
    requires 0 < i <= |c|
  {
    Flag(c[0]) && forall j :: 1 <= j < i && Flag(c[j]) ==> Tied(c, j)
  }

  /** The code point at i goes with the cluster that starts the text. */
  predicate Belongs(c: seq<int>, i: nat)
    requires 0 < i < |c|
  {
    Tied(c, i) || Mark(c[i]) || (Flag(c[i]) && Waits(c, i))
  }

  /** A step to the right takes the first code point and those that belong to it: what is tied by a
      joiner, marks, and the other half of a flag. It stops in front of the first that does not. */
  lemma StepRight(c: seq<int>, k: nat)
    requires Scalars(c) && 0 < k <= |c|
    requires (forall i :: 0 < i < k ==> Belongs(c, i)) && (k < |c| ==> !Belongs(c, k))
    ensures NextCluster(Text(c)) == |Text(c[..k])|
  {
    hide Decode, Encode, ClusterTail, Text;
    TextFirst(c, 0);
    assert c[0..] == c;
    Takes(c, 1, k);
    FirstOf(c[..k]);
    SomeBytes(c[0]);
    assert c[..k][1..] == c[1..k];
  }

  lemma {:induction false} Takes(c: seq<int>, i: nat, k: nat)
    requires Scalars(c) && 0 < i <= k <= |c|
    requires (forall j :: i <= j < k ==> Belongs(c, j)) && (k < |c| ==> !Belongs(c, k))
    ensures ClusterTail(Text(c[i..]), Waits(c, i), Tied(c, i)) == |Text(c[i..k])|
    decreases k - i
  {
    hide Encode, Text, Waits, Tied, Belongs, ClusterTail, Decode;
    if i < |c| {
      TakesOne(c, i);
      if i < k {
        Takes(c, i + 1, k);
        assert c[i..k][1..] == c[i + 1..k];
        FirstOf(c[i..k]);
      } else {
        NoText(c[i..k]);
      }
    } else {
      NoText(c[i..]);
      NoText(c[i..k]);
      NothingTaken(Waits(c, i), Tied(c, i));
    }
  }

  lemma NothingTaken(regional: bool, joined: bool)
    ensures ClusterTail([], regional, joined) == 0
  {
  }

  lemma TakesOne(c: seq<int>, i: nat)
    requires Scalars(c) && 0 < i < |c|
    ensures ClusterTail(Text(c[i..]), Waits(c, i), Tied(c, i)) ==
              if !Belongs(c, i) then 0
              else |Encode(c[i])| + ClusterTail(Text(c[i + 1..]), Waits(c, i + 1), Tied(c, i + 1))
  {
    hide Decode, Encode, Text, Waits;
    TextFirst(c, i);
    WaitsOn(c, i);
    SomeBytes(c[i]);
  }

  lemma SomeBytes(cp: int)
    requires Scalar(cp)
    ensures |Encode(cp)| > 0
  {
  }

  lemma NoText(c: seq<int>)
    requires c == []
    ensures Text(c) == [] && Decode([]).0 == 0
  {
  }

  lemma FirstOf(c: seq<int>)
    requires Scalars(c) && c != []
    ensures Text(c) == Encode(c[0]) + Text(c[1..])
  {
  }

  lemma WaitsOn(c: seq<int>, i: nat)
    requires 0 < i < |c|
    ensures Waits(c, i + 1) == (Waits(c, i) && (Flag(c[i]) ==> Tied(c, i)))
  {
  }

  /** The text from a code point on decodes to it and to what follows. */
  lemma TextFirst(c: seq<int>, i: nat)
    requires Scalars(c) && i < |c|
    ensures var s, n := Text(c[i..]), |Encode(c[i])|;
      Decode(s) == (n, c[i]) && n <= |s| && s[n..] == Text(c[i + 1..])
  {
    hide Decode, Encode;
    assert c[i..][1..] == c[i + 1..];
    EncodeDecodes(c[i], Text(c[i + 1..]));
  }

  lemma {:induction false} TextSplit(c: seq<int>, k: nat)
    requires Scalars(c) && k <= |c|
    ensures Text(c) == Text(c[..k]) + Text(c[k..])
  {
    hide Encode;
    if k > 0 {
      TextSplit(c[1..], k - 1);
      assert c[1..][..k - 1] == c[..k][1..] && c[1..][k - 1..] == c[k..];
    } else {
      assert c[..0] == [] && c[0..] == c;
    }
  }

  // ------------------------------------------------------------------------- to the left

  /** The code point at i goes with the one before it: there is a joiner between, or it is a mark. */
  predicate Attached(c: seq<int>, i: nat)
    requires i < |c|
  {
    i > 0 && (c[i - 1] == JOINER || Mark(c[i]))
  }

  /** Where the first i code points end. */
  function At(c: seq<int>, i: nat): nat
    requires Scalars(c) && i <= |c|
  {
    |Text(c[..i])|
  }

  /** A step to the left takes the last code point that goes with none before it, all behind it, and the
      one before it when the two are the halves of a flag. */
  lemma StepLeft(c: seq<int>, rest: seq<byte>, j: nat)
    requires Scalars(c) && j < |c| && !Attached(c, j) && forall i :: j < i < |c| ==> Attached(c, i)
    ensures var from := if j > 0 && Flag(c[j - 1]) && Flag(c[j]) then j - 1 else j;
      PrevCluster(Text(c) + rest, |Text(c)|) == |Text(c[from..])|
  {
    hide Text, ClusterStart, PrevStart, CodePoint;
    var n := |c| - 1;
    assert c[..|c|] == c;
    StartsAt(c, rest, n);
    Goes(c, rest, n, j);
    var from := if j > 0 && Flag(c[j - 1]) && Flag(c[j]) then j - 1 else j;
    TextSplit(c, from);
  }

  lemma {:induction false} Goes(c: seq<int>, rest: seq<byte>, i: nat, j: nat)
    requires Scalars(c) && j <= i < |c| && !Attached(c, j) && forall k :: j < k <= i ==> Attached(c, k)
    ensures At(c, i) <= |Text(c)|
    ensures var from := if j > 0 && Flag(c[j - 1]) && Flag(c[j]) then j - 1 else j;
      ClusterStart(Text(c) + rest, At(c, i), c[i]) == At(c, from)
    decreases i
  {
    hide Text, PrevStart, CodePoint, At;
    Inside(c, i);
    assert Attached(c, i) || j == i;
    if i > 0 {
      StartsAt(c, rest, i - 1);
      Inside(c, i - 1);
      if c[i - 1] == JOINER && i > 1 {
        StartsAt(c, rest, i - 2);
        assert Attached(c, i) && Attached(c, i - 1);
        Goes(c, rest, i - 2, j);
      } else if c[i - 1] != JOINER && Mark(c[i]) {
        assert Attached(c, i);
        Goes(c, rest, i - 1, j);
      }
    }
  }

  lemma Inside(c: seq<int>, i: nat)
    requires Scalars(c) && i <= |c|
    ensures At(c, i) <= |Text(c)| && (At(c, i) == 0 <==> i == 0)
  {
    hide Text;
    TextSplit(c, i);
    if i > 0 { FirstOf(c[..i]); } else { NoText(c[..i]); }
  }

  /** The code point before a place is found. */
  lemma StartsAt(c: seq<int>, rest: seq<byte>, i: nat)
    requires Scalars(c) && i < |c|
    ensures var s := Text(c) + rest;
      && At(c, i) < At(c, i + 1) <= |s|
      && PrevStart(s, At(c, i + 1)) == At(c, i) && CodePoint(s, At(c, i)) == c[i]
  {
    hide Text, Encode, PrevStart, CodePoint;
    var rest' := PlaceOf(c, rest, i);
    FoundBefore(Text(c) + rest, At(c, i), c[i], rest');
  }

  lemma PlaceOf(c: seq<int>, rest: seq<byte>, i: nat) returns (behind: seq<byte>)
    requires Scalars(c) && i < |c|
    ensures At(c, i) < At(c, i + 1) == At(c, i) + |Encode(c[i])| <= |Text(c)|
    ensures (Text(c) + rest)[At(c, i)..] == Encode(c[i]) + behind
  {
    hide Text, Encode;
    TextSplit(c, i);
    FirstOf(c[i..]);
    TextSplit(c[..i + 1], i);
    assert c[..i + 1][..i] == c[..i] && c[..i + 1][i..] == [c[i]];
    FirstOf([c[i]]);
    NoText([c[i]][1..]);
    SomeBytes(c[i]);
    behind := Text(c[i..][1..]) + rest;
  }

  lemma FoundBefore(s: seq<byte>, a: nat, cp: int, behind: seq<byte>)
    requires Scalar(cp) && a <= |s| && s[a..] == Encode(cp) + behind
    ensures 0 < |Encode(cp)| && a + |Encode(cp)| <= |s|
    ensures PrevStart(s, a + |Encode(cp)|) == a && CodePoint(s, a) == cp
  {
    hide Encode, Tail, ScanBack, Assemble, LeadLen;
    var e := Encode(cp);
    Shape(cp, behind);
    assert forall k :: 0 <= k < |e| ==> s[a + k] == s[a..][k] == e[k];
    forall k | a < k < a + |e| ensures Tail(s[k]) { assert s[k] == e[k - a]; }
    ScanBackTo(s, a + |e|, a + |e| - 1, a);
  }

  /** The first byte of a character tells its length and is the only one that starts one. */
  lemma Shape(cp: int, rest: seq<byte>)
    requires Scalar(cp)
    ensures var e := Encode(cp);
      && 1 <= |e| <= 4 && LeadLen(e[0]) == |e| && Assemble(e + rest) == cp
      && !Tail(e[0]) && forall k :: 1 <= k < |e| ==> Tail(e[k])
  {
    EncodeDecodes(cp, rest);
  }
}
