/** What a recalled entry shows and what it hides. */
module Recall {
  import opened Grapheme
  import opened LineModel
  import opened Utf8

  /** A text counts as long with 4096 bytes or with 16 lines. */
  predicate Long(s: seq<byte>) {
    |s| >= 4096 || multiset(s)[10] >= 15
  }

  /** Where the first k clusters end. */
  function Ahead(s: seq<byte>, k: nat): (p: nat)
    ensures p <= |s|
  {
    if k == 0 then 0
    else
      var p := Ahead(s, k - 1);
      if p == |s| then p else var n := NextCluster(s[p..]); p + if n > 0 then n else 1
  }

  /** Where the last k clusters begin. */
  function Behind(s: seq<byte>, k: nat): (p: nat)
    ensures p <= |s|
  {
    if k == 0 then |s| else var p := Behind(s, k - 1); p - PrevCluster(s, p)
  }

  /** A line break begins one of these clusters, counted from the start. */
  predicate BreaksAhead(s: seq<byte>, from: nat, to: nat) {
    exists k :: from <= k < to && BreakAt(s, Ahead(s, k))
  }

  /** The same, counted from the end. */
  predicate BreaksBehind(s: seq<byte>, from: nat, to: nat) {
    exists k :: from <= k < to && BreaksBack(s, k)
  }

  /** There is one more cluster, and a line break begins it. */
  predicate BreaksBack(s: seq<byte>, k: nat) {
    Behind(s, k) > 0 && BreakAt(s, Behind(s, k + 1))
  }

  predicate BreakAt(s: seq<byte>, p: nat) {
    p < |s| && s[p] == 10
  }

  lemma {:induction false} AheadIs(s: seq<byte>, k: nat, n: nat, nl: bool)
    ensures ContextAhead(s, Ahead(s, k), n, nl) == (Ahead(s, k + n), nl || BreaksAhead(s, k, k + n))
    decreases n
  {
    hide NextCluster, Ahead;
    var p := Ahead(s, k);
    if p == |s| {
      AtTheEnd(s, k, n);
      forall i | k <= i < k + n ensures !BreakAt(s, Ahead(s, i)) { AtTheEnd(s, k, i - k); }
    } else if n > 0 {
      AheadNext(s, k);
      AheadIs(s, k + 1, n - 1, nl || s[p] == NEWLINE);
      if BreaksAhead(s, k, k + n) {
        var i :| k <= i < k + n && BreakAt(s, Ahead(s, i));
        assert i == k || BreaksAhead(s, k + 1, k + n);
      }
      assert BreakAt(s, p) <==> s[p] == NEWLINE;
    }
  }

  lemma AheadNext(s: seq<byte>, k: nat)
    requires Ahead(s, k) < |s|
    ensures var p := Ahead(s, k); var n := NextCluster(s[p..]); Ahead(s, k + 1) == p + if n > 0 then n else 1
  {
    hide NextCluster;
  }

  lemma {:induction false} AtTheEnd(s: seq<byte>, k: nat, n: nat)
    requires Ahead(s, k) == |s|
    ensures Ahead(s, k + n) == |s|
  {
    hide NextCluster;
    if n > 0 { AtTheEnd(s, k, n - 1); }
  }

  lemma {:induction false} BehindIs(s: seq<byte>, k: nat, n: nat, nl: bool)
    ensures ContextBehind(s, Behind(s, k), n, nl) == (Behind(s, k + n), nl || BreaksBehind(s, k, k + n))
    decreases n
  {
    hide PrevCluster, Behind;
    var p := Behind(s, k);
    if p == 0 {
      AtTheStart(s, k, n);
      forall i | k <= i < k + n ensures !BreaksBack(s, i) { AtTheStart(s, k, i - k); }
    } else if n > 0 {
      BehindNext(s, k);
      PrevClusterMoves(s, p);
      var q := Behind(s, k + 1);
      BehindIs(s, k + 1, n - 1, nl || s[q] == NEWLINE);
      if BreaksBehind(s, k, k + n) {
        var i :| k <= i < k + n && BreaksBack(s, i);
        assert i == k || BreaksBehind(s, k + 1, k + n);
      }
      assert BreaksBack(s, k) <==> s[q] == NEWLINE;
    }
  }

  lemma BehindNext(s: seq<byte>, k: nat)
    ensures Behind(s, k + 1) == Behind(s, k) - PrevCluster(s, Behind(s, k))
  {
    hide PrevCluster;
  }

  lemma {:induction false} AtTheStart(s: seq<byte>, k: nat, n: nat)
    requires Behind(s, k) == 0
    ensures Behind(s, k + n) == 0
  {
    hide PrevCluster;
    if n > 0 { AtTheStart(s, k, n - 1); }
  }

  /** The part of a long text that is hidden: all of it if it has at most 192 bytes, and else what is
      between its first and its last 96 clusters, if there is anything, and at either end also those
      where a line break begins one of them. */
  function Hidden(s: seq<byte>): (nat, nat) {
    var a := if BreaksAhead(s, 0, 96) then 0 else Ahead(s, 96);
    var b := if BreaksBehind(s, 0, 96) then |s| else Behind(s, 96);
    if |s| <= 192 || a >= b then (0, |s|) else (a, b)
  }

  /** A recalled entry is the whole text with the cursor behind it. It is folded exactly if it is long
      and nothing is masked, and then over the part that is to be hidden. */
  lemma RecalledIs(s: seq<byte>, mask: bool)
    ensures var l, (a, b) := Recalled(s, mask), Hidden(s);
      && l.text == s && l.pos == |s|
      && l.folds == if Long(s) && !mask then [Fold(a, b, s[a..b])] else []
  {
    hide ContextAhead, ContextBehind, CountLines, Ahead, Behind, BreaksAhead, BreaksBehind;
    LinesAreBreaks(s);
    AheadIs(s, 0, 96, false);
    BehindIs(s, 0, 96, false);
    NoneYet(s);
  }

  lemma NoneYet(s: seq<byte>)
    ensures Ahead(s, 0) == 0 && Behind(s, 0) == |s|
  {
  }
}
