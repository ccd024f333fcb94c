/** Keeping the directory of checkpoint files within its budget. */
module Eviction {
  import opened CheckpointFile
  import opened Optional
  import opened Utf8

  /** An indexed file. */
  datatype Entry = Entry(sha: string, path: string, h: Header, textBytes: nat, fileSize: nat)

  // ---------------------------------------------------------------------------- score

  const MIN_EFFECTIVE_HITS: real := 0.01
  const ANCHOR_FACTOR: real := 2.0
  const PREFIX_MIN_FACTOR: real := 0.05
  const PREFIX_HIT_FACTOR: real := 0.45

  predicate IsAnchor(reason: byte) {
    reason == 1 || reason == 3 || reason == 4
  }

  function Worth(hits: nat, factor: real): real {
    hits as real * factor
  }

  /** What counts for next to nothing is dropped. */
  function Significant(worth: real): real {
    if worth < MIN_EFFECTIVE_HITS then 0.0 else worth
  }

  /** Hits count for less the longer ago the last one was; decay is the factor for an age. */
  function EffectiveHits(e: Entry, now: nat, decay: nat -> real): real {
    var usedAt := if e.h.lastUsed != 0 then e.h.lastUsed else e.h.createdAt;
    if usedAt == 0 then 0.0
    else if now > usedAt then Significant(Worth(e.h.hits, decay(now - usedAt)))
    else e.h.hits as real
  }

  /** How much an entry is worth keeping. Superseded entries are routine waypoints on the way to the
      checkpoint that is about to be stored. */
  function Score(e: Entry, now: nat, decay: nat -> real, superseded: bool): real {
    if e.fileSize == 0 then 0.0
    else
      var hits := EffectiveHits(e, now, decay);
      var base := (hits + 1.0) * e.h.tokens as real / e.fileSize as real;
      var kept := if IsAnchor(e.h.reason) then base * ANCHOR_FACTOR else base;
      if superseded then
        kept * (PREFIX_MIN_FACTOR + PREFIX_HIT_FACTOR * (if hits > 0.0 then hits / (hits + 1.0) else 0.0))
      else kept
  }

  ghost predicate Decaying(decay: nat -> real) {
    (forall a :: 0.0 < decay(a) <= 1.0) && (forall a, b :: a <= b ==> decay(b) <= decay(a))
  }

  /** Being superseded costs an entry at least half of its worth, and at most all but a twentieth. */
  lemma SupersededIsCheaper(e: Entry, now: nat, decay: nat -> real)
    requires Decaying(decay) && e.fileSize > 0
    ensures 0.0 <= Score(e, now, decay, false)
    ensures PREFIX_MIN_FACTOR * Score(e, now, decay, false) <= Score(e, now, decay, true)
    ensures Score(e, now, decay, true) <= 0.5 * Score(e, now, decay, false)
  {
    hide EffectiveHits;
    var hits := EffectiveHits(e, now, decay);
    HitsAreNonNegative(e, now, decay);
    var share := if hits > 0.0 then hits / (hits + 1.0) else 0.0;
    if hits > 0.0 { ShareIsPart(hits); }
    assert 0.0 <= share <= 1.0;
    var plain := Score(e, now, decay, false);
    BaseIsNonNegative(hits, e.h.tokens, e.fileSize);
    var factor := PREFIX_MIN_FACTOR + PREFIX_HIT_FACTOR * share;
    assert Score(e, now, decay, true) == plain * factor;
    Scaled(plain, PREFIX_MIN_FACTOR, factor);
    Scaled(plain, factor, 0.5);
  }

  lemma ShareIsPart(hits: real)
    requires hits > 0.0
    ensures 0.0 <= hits / (hits + 1.0) <= 1.0
  {
  }

  lemma Scaled(x: real, a: real, b: real)
    requires 0.0 <= x && a <= b
    ensures x * a <= x * b
  {
  }

  lemma ScaledDown(x: real, a: real)
    requires 0.0 <= x && a <= 1.0
    ensures x * a <= x
  {
    assert x * (1.0 - a) >= 0.0;
  }

  lemma BaseIsNonNegative(hits: real, tokens: nat, size: nat)
    requires hits >= 0.0 && size > 0
    ensures 0.0 <= (hits + 1.0) * tokens as real / size as real
  {
  }

  lemma HitsAreNonNegative(e: Entry, now: nat, decay: nat -> real)
    requires Decaying(decay)
    ensures EffectiveHits(e, now, decay) >= 0.0
  {
    hide Worth;
    var usedAt := if e.h.lastUsed != 0 then e.h.lastUsed else e.h.createdAt;
    if now > usedAt { WorthIsLess(e.h.hits, decay(now - usedAt)); }
  }

  /** The same file is never worth more later, all else unchanged. */
  lemma HitsFade(e: Entry, now: nat, later: nat, decay: nat -> real)
    requires Decaying(decay) && now <= later
    ensures EffectiveHits(e, later, decay) <= EffectiveHits(e, now, decay)
  {
    hide Worth;
    var usedAt := if e.h.lastUsed != 0 then e.h.lastUsed else e.h.createdAt;
    if usedAt != 0 && later > usedAt {
      WorthIsLess(e.h.hits, decay(later - usedAt));
      if now > usedAt { WorthGrows(e.h.hits, decay(later - usedAt), decay(now - usedAt)); }
    }
  }

  lemma WorthGrows(hits: nat, a: real, b: real)
    requires a <= b
    ensures Worth(hits, a) <= Worth(hits, b)
  {
    Scaled(hits as real, a, b);
  }

  lemma WorthIsLess(hits: nat, factor: real)
    requires 0.0 <= factor <= 1.0
    ensures 0.0 <= Worth(hits, factor) <= hits as real
  {
    ScaledDown(hits as real, factor);
    NonNegative(hits as real, factor);
  }

  lemma NonNegative(x: real, y: real)
    requires 0.0 <= x && 0.0 <= y
    ensures 0.0 <= x * y
  {
  }

  // ------------------------------------------------------------- the score, in numbers

  /** An entry is worth its tokens for each byte, once and once more for every hit that still counts,
      and twice that where its reason is one of those that last: cold, evict and shutdown. */
  lemma ScorePerByte(e: Entry, now: nat, decay: nat -> real)
    requires e.fileSize > 0
    ensures Score(e, now, decay, false) * e.fileSize as real ==
              (EffectiveHits(e, now, decay) + 1.0) * e.h.tokens as real * (if e.h.reason in {1, 3, 4} then 2.0 else 1.0)
  {
    hide EffectiveHits;
    var all := (EffectiveHits(e, now, decay) + 1.0) * e.h.tokens as real;
    Divided(all, e.fileSize as real);
    var base := all / e.fileSize as real;
    if e.h.reason in {1, 3, 4} { Doubling(base, e.fileSize as real); }
  }

  lemma Divided(x: real, y: real)
    requires y > 0.0
    ensures x / y * y == x
  {
  }

  lemma Doubling(x: real, y: real)
    ensures x * 2.0 * y == x * y * 2.0
  {
  }

  /** An entry without size is worth nothing. A superseded one that was never hit keeps a twentieth,
      and more for every hit, but never half: with h hits, 10h + 1 of 20h + 20 parts. */
  lemma SupersededKeeps(e: Entry, now: nat, decay: nat -> real)
    requires Decaying(decay)
    ensures e.fileSize == 0 ==> Score(e, now, decay, false) == Score(e, now, decay, true) == 0.0
    ensures var h := EffectiveHits(e, now, decay);
      20.0 * (h + 1.0) * Score(e, now, decay, true) == (10.0 * h + 1.0) * Score(e, now, decay, false)
  {
    hide EffectiveHits;
    var h := EffectiveHits(e, now, decay);
    HitsAreNonNegative(e, now, decay);
    if e.fileSize > 0 {
      var share := if h > 0.0 then h / (h + 1.0) else 0.0;
      if h > 0.0 { Divided(h, h + 1.0); }
      var factor := PREFIX_MIN_FACTOR + PREFIX_HIT_FACTOR * share;
      Parts(h, share);
      assert Score(e, now, decay, true) == Score(e, now, decay, false) * factor;
      Regrouped(20.0 * (h + 1.0), Score(e, now, decay, false), factor);
    }
  }

  lemma Parts(h: real, share: real)
    requires share * (h + 1.0) == h
    ensures 20.0 * (h + 1.0) * (PREFIX_MIN_FACTOR + PREFIX_HIT_FACTOR * share) == 10.0 * h + 1.0
  {
    assert PREFIX_HIT_FACTOR * share * (h + 1.0) == PREFIX_HIT_FACTOR * (share * (h + 1.0));
  }

  lemma Regrouped(a: real, x: real, f: real)
    ensures a * (x * f) == (a * f) * x
  {
  }

  /** Of two entries alike in all else, neither of them superseded, the one stored cold, on eviction or
      at shutdown is worth twice as much as another, which has to go first. */
  lemma AnchorsStay(a: Entry, b: Entry, now: nat, decay: nat -> real, score: Scores)
    requires Decaying(decay) && a.h.reason in {1, 3, 4} && b.h.reason !in {1, 3, 4}
    requires a.h.hits == b.h.hits && a.h.createdAt == b.h.createdAt && a.h.lastUsed == b.h.lastUsed
    requires a.h.tokens == b.h.tokens > 0 && a.fileSize == b.fileSize > 0
    requires score(a) == Score(a, now, decay, false) && score(b) == Score(b, now, decay, false)
    ensures score(a) == 2.0 * score(b) && score(b) > 0.0 && Before(b, a, score)
  {
    hide EffectiveHits;
    assert EffectiveHits(a, now, decay) == EffectiveHits(b, now, decay) by { AlikeHits(a, b, now, decay); }
    HitsAreNonNegative(b, now, decay);
    Positive(EffectiveHits(b, now, decay) + 1.0, b.h.tokens as real);
    Quotient((EffectiveHits(b, now, decay) + 1.0) * b.h.tokens as real, b.fileSize as real);
  }

  lemma AlikeHits(a: Entry, b: Entry, now: nat, decay: nat -> real)
    requires a.h.hits == b.h.hits && a.h.createdAt == b.h.createdAt && a.h.lastUsed == b.h.lastUsed
    ensures EffectiveHits(a, now, decay) == EffectiveHits(b, now, decay)
  {
  }

  lemma Positive(x: real, y: real)
    requires x > 0.0 && y > 0.0
    ensures x * y > 0.0
  {
  }

  lemma Quotient(x: real, y: real)
    requires x > 0.0 && y > 0.0
    ensures x / y > 0.0
  {
  }

  /** More tokens, more hits that count or a smaller file never make an entry worth less. */
  lemma ScoreOrder(a: Entry, b: Entry, now: nat, decay: nat -> real)
    requires Decaying(decay) && (a.h.reason in {1, 3, 4} ==> b.h.reason in {1, 3, 4})
    requires EffectiveHits(a, now, decay) <= EffectiveHits(b, now, decay)
    requires a.h.tokens <= b.h.tokens && a.fileSize >= b.fileSize > 0
    ensures Score(a, now, decay, false) <= Score(b, now, decay, false)
  {
    hide EffectiveHits, Score;
    HitsAreNonNegative(a, now, decay);
    PlainScore(a, now, decay);
    PlainScore(b, now, decay);
    var p, q := EffectiveHits(a, now, decay) + 1.0, EffectiveHits(b, now, decay) + 1.0;
    var m, n := a.h.tokens as real, b.h.tokens as real;
    Products(p, m, q, n);
    Quotients(p * m, a.fileSize as real, q * n, b.fileSize as real);
  }

  lemma PlainScore(e: Entry, now: nat, decay: nat -> real)
    requires e.fileSize > 0
    ensures var x := (EffectiveHits(e, now, decay) + 1.0) * e.h.tokens as real / e.fileSize as real;
      Score(e, now, decay, false) == if e.h.reason in {1, 3, 4} then 2.0 * x else x
  {
    hide EffectiveHits;
  }

  lemma Products(p: real, m: real, q: real, n: real)
    requires 0.0 <= p <= q && 0.0 <= m <= n
    ensures 0.0 <= p * m <= q * n
  {
    Scaled(p, m, n);
    Scaled(n, p, q);
    NonNegative(p, m);
  }

  lemma Quotients(x: real, s: real, y: real, t: real)
    requires 0.0 <= x <= y && 0.0 < t <= s
    ensures 0.0 <= x / s <= y / t
  {
    Divided(x, s);
    Divided(y, t);
    var u, v := x / s, y / t;
    assert u >= 0.0;
    if u > v { Scaled(u, t, s); Products(v, t, v, t); assert v * t < u * t; }
  }

  const HALF_LIFE: nat := 21600

  /** The factor of the program: a half for every six hours. */
  ghost predicate Halving(decay: nat -> real) {
    decay(0) == 1.0 && forall a: nat :: decay(a) == 2.0 * decay(a + HALF_LIFE)
  }

  function Halved(x: real, k: nat): real {
    if k == 0 then x else Halved(x, k - 1) / 2.0
  }

  lemma {:induction false} HalvedFactor(decay: nat -> real, hits: nat, k: nat)
    requires Halving(decay)
    ensures Worth(hits, decay(k * HALF_LIFE)) == Halved(hits as real, k)
  {
    if k > 0 {
      HalvedFactor(decay, hits, k - 1);
      assert (k - 1) * HALF_LIFE + HALF_LIFE == k * HALF_LIFE;
      assert decay((k - 1) * HALF_LIFE) == 2.0 * decay(k * HALF_LIFE);
    }
  }

  /** Hits count whole until the time of the last use, or of creation where there was none, half as
      much six hours later, and so on, until they are down to less than a hundredth and count for
      nothing. They also count for nothing where neither time is known. */
  lemma HitsHalve(e: Entry, k: nat, decay: nat -> real)
    requires Halving(decay)
    ensures var used := if e.h.lastUsed == 0 then e.h.createdAt else e.h.lastUsed;
      var left := Halved(e.h.hits as real, k);
      && (used == 0 ==> forall now: nat :: EffectiveHits(e, now, decay) == 0.0)
      && (used > 0 ==> forall now: nat :: now <= used ==> EffectiveHits(e, now, decay) == e.h.hits as real)
      && (used > 0 ==> EffectiveHits(e, used + k * HALF_LIFE, decay) == if left * 100.0 < 1.0 then 0.0 else left)
  {
    HalvedFactor(decay, e.h.hits, k);
    assert k > 0 ==> k * HALF_LIFE > 0;
  }

  // ------------------------------------------------------------------------ the order

  type Scores = Entry -> real

  /** Cheaper, or as cheap and not used for longer. */
  predicate Before(a: Entry, b: Entry, score: Scores) {
    score(a) < score(b) || (score(a) == score(b) && a.h.lastUsed < b.h.lastUsed)
  }

  predicate SameRank(a: Entry, b: Entry, score: Scores) {
    score(a) == score(b) && a.h.lastUsed == b.h.lastUsed
  }

  function Without<T>(s: seq<T>, i: nat): (r: seq<T>)
    requires i < |s|
    ensures |r| == |s| - 1
  {
    s[..i] + s[i + 1..]
  }

  /** The first of the least. */
  function Victim(es: seq<Entry>, score: Scores): (v: nat)
    requires es != []
    ensures v < |es|
    ensures forall j :: 0 <= j < |es| ==> !Before(es[j], es[v], score)
    ensures forall j :: 0 <= j < v ==> Before(es[v], es[j], score)
  {
    if |es| == 1 then 0
    else
      var v := Victim(es[..|es| - 1], score);
      if Before(es[|es| - 1], es[v], score) then |es| - 1 else v
  }

  /** Who has to go: nobody is worth less, of those worth as little nobody was used longer ago, and of
      those used as long ago nobody stands before it in the index. */
  lemma GoesFirst(es: seq<Entry>, score: Scores, j: nat)
    requires j < |es|
    ensures var v := Victim(es, score);
      || score(es[v]) < score(es[j])
      || (score(es[v]) == score(es[j])
          && (es[v].h.lastUsed < es[j].h.lastUsed || (es[v].h.lastUsed == es[j].h.lastUsed && v <= j)))
  {
    var v := Victim(es, score);
    assert !Before(es[j], es[v], score) && (j < v ==> Before(es[v], es[j], score));
  }

  /** All entries, in the order in which they would have to go. */
  function Ranked(es: seq<Entry>, score: Scores): (r: seq<Entry>)
    ensures |r| == |es|
    decreases |es|
  {
    if es == [] then []
    else
      var v := Victim(es, score);
      [es[v]] + Ranked(Without(es, v), score)
  }

  lemma WithoutParts<T>(s: seq<T>, i: nat)
    requires i < |s|
    ensures multiset(s) == multiset{s[i]} + multiset(Without(s, i))
    ensures forall x :: x in Without(s, i) ==> x in s
  {
    assert s == s[..i] + [s[i]] + s[i + 1..];
  }

  /** The order is a rearrangement ... */
  lemma {:induction false} RankedIsRearranged(es: seq<Entry>, score: Scores)
    ensures multiset(Ranked(es, score)) == multiset(es)
    decreases |es|
  {
    if es != [] {
      var v := Victim(es, score);
      WithoutParts(es, v);
      RankedIsRearranged(Without(es, v), score);
    }
  }

  lemma {:induction false} RankedSame(es: seq<Entry>, score: Scores, x: Entry)
    ensures x in Ranked(es, score) <==> x in es
  {
    RankedIsRearranged(es, score);
    assert x in multiset(es) <==> x in es;
    assert x in multiset(Ranked(es, score)) <==> x in Ranked(es, score);
  }

  /** ... in which no entry comes before one that has to go before it ... */
  lemma {:induction false} RankedIsSorted(es: seq<Entry>, score: Scores, i: nat, j: nat)
    requires i < j < |es|
    ensures !Before(Ranked(es, score)[j], Ranked(es, score)[i], score)
    decreases |es|
  {
    var v := Victim(es, score);
    var rest := Ranked(Without(es, v), score);
    if i == 0 {
      RankedSame(Without(es, v), score, rest[j - 1]);
      WithoutParts(es, v);
      assert rest[j - 1] in es;
    } else {
      RankedIsSorted(Without(es, v), score, i - 1, j - 1);
    }
  }

  /** The entries that rank as x does. */
  function Alike(es: seq<Entry>, x: Entry, score: Scores): seq<Entry> {
    if es == [] then []
    else (if SameRank(es[0], x, score) then [es[0]] else []) + Alike(es[1..], x, score)
  }

  lemma {:induction false} AlikeConcat(a: seq<Entry>, b: seq<Entry>, x: Entry, score: Scores)
    ensures Alike(a + b, x, score) == Alike(a, x, score) + Alike(b, x, score)
  {
    if a == [] {
      assert a + b == b;
    } else {
      assert (a + b)[1..] == a[1..] + b;
      AlikeConcat(a[1..], b, x, score);
    }
  }

  lemma {:induction false} NoneAlike(a: seq<Entry>, x: Entry, score: Scores)
    requires forall e :: e in a ==> !SameRank(e, x, score)
    ensures Alike(a, x, score) == []
  {
    if a != [] { NoneAlike(a[1..], x, score); }
  }

  lemma AlikeAround(es: seq<Entry>, v: nat, x: Entry, score: Scores)
    requires v < |es|
    ensures Alike(es, x, score) == Alike(es[..v], x, score) + Alike([es[v]], x, score) + Alike(es[v + 1..], x, score)
    ensures Alike(Without(es, v), x, score) == Alike(es[..v], x, score) + Alike(es[v + 1..], x, score)
  {
    hide Alike;
    assert es == es[..v] + [es[v]] + es[v + 1..];
    AlikeConcat(es[..v] + [es[v]], es[v + 1..], x, score);
    AlikeConcat(es[..v], [es[v]], x, score);
    AlikeConcat(es[..v], es[v + 1..], x, score);
  }

  /** ... and entries that rank alike keep the order of the index. */
  lemma {:induction false} RankedIsStable(es: seq<Entry>, score: Scores, x: Entry)
    ensures Alike(Ranked(es, score), x, score) == Alike(es, x, score)
    decreases |es|
  {
    if es != [] {
      hide Alike, SameRank, Victim, Without;
      var v := Victim(es, score);
      RankedIsStable(Without(es, v), score, x);
      AlikeAround(es, v, x, score);
      AlikeConcat([es[v]], Ranked(Without(es, v), score), x, score);
      FirstAlike(es, x, score);
      Swapped(Alike(es[..v], x, score), Alike([es[v]], x, score), Alike(es[v + 1..], x, score));
    }
  }

  lemma Swapped<T>(a: seq<T>, b: seq<T>, c: seq<T>)
    requires a == [] || b == []
    ensures a + b + c == b + (a + c)
  {
  }

  /** Nothing in front of a victim ranks as it does. */
  lemma FirstAlike(es: seq<Entry>, x: Entry, score: Scores)
    requires es != []
    ensures var v := Victim(es, score); Alike([es[v]], x, score) == [] || Alike(es[..v], x, score) == []
  {
    var v := Victim(es, score);
    assert Alike([], x, score) == [];
    if SameRank(es[v], x, score) { NoneAlike(es[..v], x, score); }
  }

  // ------------------------------------------------------------------------ eviction

  function Total(es: seq<Entry>): nat {
    if es == [] then 0 else es[0].fileSize + Total(es[1..])
  }

  /** What is left in the index, what was deleted, and the entry, if any, that could not be deleted. */
  datatype Evicted = Evicted(left: seq<Entry>, removed: seq<Entry>, failed: Option<Entry>)

  /** Deleting entries until the total fits. A file that cannot be deleted ends it, as the total is then
      taken to be zero; its entry leaves the index all the same. */
  function Evict(es: seq<Entry>, total: nat, target: nat, score: Scores, unlinks: string -> bool): (r: Evicted)
    decreases |es|
  {
    if total <= target || es == [] then Evicted(es, [], None)
    else
      var v := Victim(es, score);
      var e := es[v];
      if unlinks(e.path) then
        var r := Evict(Without(es, v), if total >= e.fileSize then total - e.fileSize else 0, target, score, unlinks);
        r.(removed := [e] + r.removed)
      else Evicted(Without(es, v), [], Some(e))
  }

  lemma {:induction false} TotalConcat(a: seq<Entry>, b: seq<Entry>)
    ensures Total(a + b) == Total(a) + Total(b)
  {
    if a == [] {
      assert a + b == b;
    } else {
      assert (a + b)[1..] == a[1..] + b;
      TotalConcat(a[1..], b);
    }
  }

  lemma TotalWithout(es: seq<Entry>, v: nat)
    requires v < |es|
    ensures Total(es) == es[v].fileSize + Total(Without(es, v))
  {
    hide Total;
    SplitAt(es, v);
    TotalConcat(es[..v], [es[v]] + es[v + 1..]);
    TotalFirst(es[v], es[v + 1..]);
    TotalConcat(es[..v], es[v + 1..]);
  }

  lemma SplitAt<T>(s: seq<T>, i: nat)
    requires i < |s|
    ensures s == s[..i] + ([s[i]] + s[i + 1..])
  {
  }

  lemma TotalOne(e: Entry)
    ensures Total([e]) == e.fileSize
  {
    assert [e][1..] == [];
  }

  ghost predicate AllUnlink(es: seq<Entry>, unlinks: string -> bool) {
    forall e :: e in es ==> unlinks(e.path)
  }

  /** When every file can be deleted, what is deleted is the shortest start of the order after which
      the rest fits. */
  lemma {:induction false} EvictsAStart(es: seq<Entry>, target: nat, score: Scores, unlinks: string -> bool)
    requires AllUnlink(es, unlinks)
    ensures var r := Evict(es, Total(es), target, score, unlinks);
      && r.failed.None? && |r.removed| <= |es|
      && r.removed == Ranked(es, score)[..|r.removed|]
      && Total(r.left) + Total(r.removed) == Total(es) && Total(r.left) <= target
      && (r.removed != [] ==> Total(r.left) + r.removed[|r.removed| - 1].fileSize > target)
    decreases |es|
  {
    hide Total;
    if Total(es) > target && es != [] {
      hide Victim, Without, Evict, Ranked;
      var v := Victim(es, score);
      TotalWithout(es, v);
      WithoutParts(es, v);
      EvictsAStart(Without(es, v), target, score, unlinks);
      EvictStep(es, target, score, unlinks);
      var rest := Evict(Without(es, v), Total(Without(es, v)), target, score, unlinks);
      TotalFirst(es[v], rest.removed);
    } else {
      EmptyTotal();
    }
  }

  lemma EvictStep(es: seq<Entry>, target: nat, score: Scores, unlinks: string -> bool)
    requires AllUnlink(es, unlinks) && Total(es) > target && es != []
    ensures var v := Victim(es, score);
      var rest := Evict(Without(es, v), Total(Without(es, v)), target, score, unlinks);
      && Evict(es, Total(es), target, score, unlinks) == rest.(removed := [es[v]] + rest.removed)
      && Ranked(es, score) == [es[v]] + Ranked(Without(es, v), score)
  {
    hide Total, Victim, Without;
    TotalWithout(es, Victim(es, score));
  }

  lemma EmptyTotal()
    ensures Total([]) == 0
  {
  }

  lemma TotalFirst(e: Entry, removed: seq<Entry>)
    ensures Total([e] + removed) == e.fileSize + Total(removed) && Total([]) == 0
  {
    assert ([e] + removed)[1..] == removed;
  }

  /** Nothing else happens to the index: it loses the entries that were deleted or could not be. */
  lemma {:induction false} EvictParts(es: seq<Entry>, total: nat, target: nat, score: Scores, unlinks: string -> bool)
    ensures var r := Evict(es, total, target, score, unlinks);
      var lost := if r.failed.Some? then multiset{r.failed.value} else multiset{};
      && multiset(es) == multiset(r.left) + multiset(r.removed) + lost
      && (forall e :: e in r.removed ==> unlinks(e.path))
      && (r.failed.Some? ==> !unlinks(r.failed.value.path))
    decreases |es|
  {
    if total > target && es != [] {
      hide Victim, Without;
      var v := Victim(es, score);
      WithoutParts(es, v);
      if unlinks(es[v].path) {
        var left := if total >= es[v].fileSize then total - es[v].fileSize else 0;
        EvictParts(Without(es, v), left, target, score, unlinks);
      }
    }
  }

  /** What is left of a total when entries are taken off it. */
  function Less(total: nat, gone: seq<Entry>): nat {
    if total >= Total(gone) then total - Total(gone) else 0
  }

  /** Whether or not files can be deleted: they go in order, one after the other as long as the total is
      too great. It ends when that is not so any more, when there is no file left, or at the first one
      that cannot be deleted. */
  lemma {:induction false} EvictsInOrder(es: seq<Entry>, total: nat, target: nat, score: Scores,
                                         unlinks: string -> bool)
    ensures var r, order := Evict(es, total, target, score, unlinks), Ranked(es, score);
      var k := |r.removed|;
      && k <= |order| == |es| && r.removed == order[..k]
      && (forall j :: 0 <= j < k ==> unlinks(order[j].path) && Less(total, order[..j]) > target)
      && (r.failed.Some? <==> k < |es| && Less(total, order[..k]) > target)
      && (r.failed.Some? ==> r.failed.value == order[k] && !unlinks(order[k].path))
    decreases |es|
  {
    hide Total, Victim, Without, Less;
    LessNone(total);
    if total > target && es != [] {
      var v := Victim(es, score);
      var e := es[v];
      if unlinks(e.path) {
        var left := if total >= e.fileSize then total - e.fileSize else 0;
        var rest, more := Evict(Without(es, v), left, target, score, unlinks), Ranked(Without(es, v), score);
        EvictsInOrder(Without(es, v), left, target, score, unlinks);
        var r, order := Evict(es, total, target, score, unlinks), Ranked(es, score);
        assert r.removed == [e] + rest.removed && order == [e] + more;
        forall j | 0 < j <= |r.removed| ensures Less(total, order[..j]) == Less(left, more[..j - 1]) {
          assert order[..j] == [e] + more[..j - 1];
          LessFirst(total, e, more[..j - 1]);
        }
        assert order[..0] == [];
        assert forall j :: 0 < j < |order| ==> order[j] == more[j - 1];
      }
    }
  }

  lemma LessNone(total: nat)
    ensures Less(total, []) == total
  {
  }

  lemma LessFirst(total: nat, e: Entry, gone: seq<Entry>)
    ensures Less(total, [e] + gone) == Less(if total >= e.fileSize then total - e.fileSize else 0, gone)
  {
    hide Total;
    TotalFirst(e, gone);
  }

  /** No survivor has to go before a victim. */
  lemma {:induction false} SurvivorsRankHigher(es: seq<Entry>, total: nat, target: nat, score: Scores,
                                               unlinks: string -> bool, e: Entry, s: Entry)
    requires var r := Evict(es, total, target, score, unlinks); e in r.removed && s in r.left
    ensures !Before(s, e, score)
    decreases |es|
  {
    hide Victim, Without, Before;
    var v := Victim(es, score);
    WithoutParts(es, v);
    var left := if total >= es[v].fileSize then total - es[v].fileSize else 0;
    var r := Evict(Without(es, v), left, target, score, unlinks);
    EvictParts(Without(es, v), left, target, score, unlinks);
    if e in r.removed {
      SurvivorsRankHigher(Without(es, v), left, target, score, unlinks, e, s);
    } else {
      assert e == es[v];
      assert s in multiset(Without(es, v));
      assert s in es;
    }
  }
}
