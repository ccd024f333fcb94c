/** The line being edited, as a value: its text, the cursor, and the folded ranges.
    Each editing command is a function on this value; the lemmas say what every command keeps.
    The editor class carries out the same commands in place and is proved equal to them. */
module LineModel {
  import opened Utf8
  import opened Grapheme

  /** A range shown as a marker. `origin` is the text the fold was created over. */
  datatype Fold = Fold(start: nat, end: nat, origin: seq<byte>)

  datatype Line = Line(text: seq<byte>, pos: nat, folds: seq<Fold>)

  const MAX_FOLDS: nat := 16
  const NEWLINE: byte := 10
  const SPACE: byte := 32
  const PASTE_FOLD_THRESHOLD := 200
  const HISTORY_FOLD_THRESHOLD := 4096
  const HISTORY_FOLD_MULTILINE_LINES := 16
  const HISTORY_FOLD_CONTEXT: nat := 96

  const EMPTY_LINE := Line([], 0, [])

  // ------------------------------------------------------------------ invariant

  /** A fold covers whole characters of the line, and still the bytes it was made for. */
  predicate FoldOk(text: seq<byte>, f: Fold) {
    && f.start < f.end <= |text|
    && Boundary(text, f.start) && Boundary(text, f.end)
    && f.origin == text[f.start..f.end]
  }

  /** Non-empty ranges, in order, without overlap. */
  predicate Disjoint(folds: seq<Fold>) {
    && (forall i :: 0 <= i < |folds| ==> folds[i].start < folds[i].end)
    && (forall i, j :: 0 <= i < j < |folds| ==> folds[i].end <= folds[j].start)
  }

  predicate FoldsOk(text: seq<byte>, folds: seq<Fold>) {
    && |folds| <= MAX_FOLDS
    && Disjoint(folds)
    && forall f :: f in folds ==> FoldOk(text, f)
  }

  /** Text that may stand in the line: well-formed UTF-8 without NUL. */
  predicate CleanText(s: seq<byte>) {
    WellFormed(s) && 0 !in s
  }

  predicate Good(l: Line) {
    CleanText(l.text) && Boundary(l.text, l.pos) && FoldsOk(l.text, l.folds)
  }

  // --------------------------------------------------------------- tracking folds

  /** The edit that replaces the bytes from lo to hi reaches into the fold. */
  predicate Touches(f: Fold, lo: nat, hi: nat) {
    f.start < hi && lo < f.end
  }

  function Shifted(x: nat, lo: nat, hi: nat, n: nat): nat
    requires lo <= hi
  {
    if x >= hi then x - (hi - lo) + n else x
  }

  /** Where an untouched fold is once the bytes from lo to hi have become n bytes. */
  function Moved(f: Fold, lo: nat, hi: nat, n: nat): Fold
    requires lo <= hi
  {
    if f.start >= hi then Fold(Shifted(f.start, lo, hi, n), Shifted(f.end, lo, hi, n), f.origin) else f
  }

  /** The folds after the bytes from lo to hi have become n bytes. */
  function Track(folds: seq<Fold>, lo: nat, hi: nat, n: nat): seq<Fold>
    requires lo <= hi
  {
    if folds == [] then []
    else if Touches(folds[0], lo, hi) then Track(folds[1..], lo, hi, n)
    else [Moved(folds[0], lo, hi, n)] + Track(folds[1..], lo, hi, n)
  }

  lemma TrackHead(folds: seq<Fold>, lo: nat, hi: nat, n: nat)
    requires lo <= hi
    ensures Track([], lo, hi, n) == []
    ensures folds != [] ==>
      var head := if Touches(folds[0], lo, hi) then [] else [Moved(folds[0], lo, hi, n)];
      Track(folds, lo, hi, n) == head + Track(folds[1..], lo, hi, n)
  {
  }

  function Replaced(text: seq<byte>, lo: nat, hi: nat, ins: seq<byte>): (r: seq<byte>)
    requires lo <= hi <= |text|
    ensures |r| == |text| - (hi - lo) + |ins|
  {
    text[..lo] + ins + text[hi..]
  }

  /** Every editing command but recall and transpose is one of these. The cursor ends up behind
      the new bytes. */
  function Splice(l: Line, lo: nat, hi: nat, ins: seq<byte>): Line
    requires lo <= hi <= |l.text|
  {
    Line(Replaced(l.text, lo, hi, ins), lo + |ins|, Track(l.folds, lo, hi, |ins|))
  }

  /** A fold outlives the edit exactly when the edit does not reach into it, and then moves with
      its text; nothing else becomes a fold. */
  lemma {:induction false} TrackSurvivors(folds: seq<Fold>, lo: nat, hi: nat, n: nat)
    requires lo <= hi
    ensures |Track(folds, lo, hi, n)| <= |folds|
    ensures forall f :: f in folds && !Touches(f, lo, hi) ==> Moved(f, lo, hi, n) in Track(folds, lo, hi, n)
    ensures forall g :: g in Track(folds, lo, hi, n) ==>
              exists f :: f in folds && !Touches(f, lo, hi) && g == Moved(f, lo, hi, n)
    ensures (forall f :: f in folds ==> !Touches(f, lo, hi)) ==> |Track(folds, lo, hi, n)| == |folds|
  {
    if folds != [] {
      TrackSurvivors(folds[1..], lo, hi, n);
      assert folds == [folds[0]] + folds[1..];
      assert forall f :: f in folds <==> f == folds[0] || f in folds[1..];
    }
  }

  lemma TrackKeeps(text: seq<byte>, folds: seq<Fold>, lo: nat, hi: nat, ins: seq<byte>)
    requires lo <= hi <= |text| && Boundary(text, lo) && Boundary(text, hi)
    requires FoldsOk(text, folds) && WellFormed(ins)
    ensures FoldsOk(Replaced(text, lo, hi, ins), Track(folds, lo, hi, |ins|))
    ensures forall g :: g in Track(folds, lo, hi, |ins|) ==> g.end <= lo || lo + |ins| <= g.start
  {
    hide WellFormed, FoldOk, Boundary, Track, Replaced;
    TrackSurvivors(folds, lo, hi, |ins|);
    TrackDisjoint(folds, lo, hi, |ins|);
    forall g | g in Track(folds, lo, hi, |ins|)
      ensures FoldOk(Replaced(text, lo, hi, ins), g)
      ensures g.end <= lo || lo + |ins| <= g.start
    {
      var f :| f in folds && !Touches(f, lo, hi) && g == Moved(f, lo, hi, |ins|);
      assert FoldOk(text, f);
      MovedOk(text, f, lo, hi, ins);
    }
  }

  lemma {:induction false} TrackDisjoint(folds: seq<Fold>, lo: nat, hi: nat, n: nat)
    requires lo <= hi && Disjoint(folds)
    ensures Disjoint(Track(folds, lo, hi, n))
  {
    if folds != [] {
      var f, rest := folds[0], folds[1..];
      TrackDisjoint(rest, lo, hi, n);
      var all, after := Track(folds, lo, hi, n), Track(rest, lo, hi, n);
      if !Touches(f, lo, hi) {
        TrackAbove(rest, lo, hi, n, f.end);
        assert forall i :: 1 <= i < |all| ==> all[i] == after[i - 1] && after[i - 1] in after;
      }
    }
  }

  /** Folds that start at or after a place are tracked to places at or after where it goes. */
  lemma {:induction false} TrackAbove(folds: seq<Fold>, lo: nat, hi: nat, n: nat, place: nat)
    requires lo <= hi && (place <= lo || place >= hi)
    requires forall i :: 0 <= i < |folds| ==> place <= folds[i].start < folds[i].end
    ensures forall g :: g in Track(folds, lo, hi, n) ==>
              g.start >= if place <= lo then place else Shifted(place, lo, hi, n)
  {
    if folds != [] { TrackAbove(folds[1..], lo, hi, n, place); }
  }

  lemma MovedOk(text: seq<byte>, f: Fold, lo: nat, hi: nat, ins: seq<byte>)
    requires lo <= hi <= |text| && FoldOk(text, f) && !Touches(f, lo, hi)
    requires Boundary(text, lo) && Boundary(text, hi) && WellFormed(ins)
    ensures FoldOk(Replaced(text, lo, hi, ins), Moved(f, lo, hi, |ins|))
    ensures var g := Moved(f, lo, hi, |ins|); g.end <= lo || lo + |ins| <= g.start
  {
    hide WellFormed, Boundary, Replaced;
    if f.start >= hi {
      MovedBehind(text, f, lo, hi, ins);
    } else {
      KeptBefore(text, f, lo, hi, ins);
    }
  }

  lemma MovedBehind(text: seq<byte>, f: Fold, lo: nat, hi: nat, ins: seq<byte>)
    requires lo <= hi <= |text| && FoldOk(text, f) && hi <= f.start
    requires Boundary(text, lo) && Boundary(text, hi) && WellFormed(ins)
    ensures FoldOk(Replaced(text, lo, hi, ins), Moved(f, lo, hi, |ins|))
  {
    hide WellFormed, Boundary, Replaced, Shifted;
    SpliceBoundary(text, lo, hi, ins, f.start);
    SpliceBoundary(text, lo, hi, ins, f.end);
    SliceBehind(text, lo, hi, ins, f.start, f.end);
  }

  lemma KeptBefore(text: seq<byte>, f: Fold, lo: nat, hi: nat, ins: seq<byte>)
    requires lo <= hi <= |text| && FoldOk(text, f) && f.end <= lo
    requires Boundary(text, lo) && Boundary(text, hi) && WellFormed(ins)
    ensures FoldOk(Replaced(text, lo, hi, ins), f)
  {
    hide WellFormed, Boundary, Replaced;
    SpliceBoundary(text, lo, hi, ins, f.start);
    SpliceBoundary(text, lo, hi, ins, f.end);
    SliceBefore(text, lo, hi, ins, f.start, f.end);
  }

  lemma SliceBefore(text: seq<byte>, lo: nat, hi: nat, ins: seq<byte>, i: nat, j: nat)
    requires i <= j <= lo <= hi <= |text|
    ensures Replaced(text, lo, hi, ins)[i..j] == text[i..j]
  {
  }

  lemma SliceBehind(text: seq<byte>, lo: nat, hi: nat, ins: seq<byte>, i: nat, j: nat)
    requires lo <= hi <= i <= j <= |text|
    ensures var a, b := Shifted(i, lo, hi, |ins|), Shifted(j, lo, hi, |ins|);
      a <= b <= |Replaced(text, lo, hi, ins)| && Replaced(text, lo, hi, ins)[a..b] == text[i..j] && (i < j ==> a < b)
  {
  }

  /** Boundaries on either side of a splice stay boundaries. */
  lemma SpliceBoundary(text: seq<byte>, lo: nat, hi: nat, ins: seq<byte>, x: nat)
    requires lo <= hi <= |text| && Boundary(text, lo) && Boundary(text, hi) && WellFormed(ins)
    requires Boundary(text, x)
    ensures x <= lo ==> Boundary(Replaced(text, lo, hi, ins), x)
    ensures x >= hi ==> Boundary(Replaced(text, lo, hi, ins), Shifted(x, lo, hi, |ins|))
  {
    hide WellFormed, CharAt, Tail;
    if ins != [] { FirstChar(ins); }
    var after, d := Replaced(text, lo, hi, ins), lo + |ins| - hi;
    if x < lo {
      assert after[x] == text[x];
    } else if x == lo && x < |after| {
      assert after[lo] == if ins != [] then ins[0] else text[hi];
    }
    if hi <= x < |text| { assert after[x + d] == text[x]; }
  }

  /** One edit between character boundaries keeps the whole invariant. */
  lemma SpliceGood(l: Line, lo: nat, hi: nat, ins: seq<byte>)
    requires Good(l) && lo <= hi && Boundary(l.text, lo) && Boundary(l.text, hi) && CleanText(ins)
    ensures Good(Splice(l, lo, hi, ins))
    ensures forall g :: g in Splice(l, lo, hi, ins).folds ==> g.end <= lo || lo + |ins| <= g.start
  {
    hide WellFormed, FoldsOk, Tail, Replaced, Track;
    SpliceClean(l.text, lo, hi, ins);
    SpliceEnd(l.text, lo, hi, ins);
    TrackKeeps(l.text, l.folds, lo, hi, ins);
  }

  lemma SpliceClean(text: seq<byte>, lo: nat, hi: nat, ins: seq<byte>)
    requires CleanText(text) && CleanText(ins) && lo <= hi && Boundary(text, lo) && Boundary(text, hi)
    ensures CleanText(Replaced(text, lo, hi, ins))
  {
    hide WellFormed, Tail;
    SpliceWellFormed(text, lo, hi, ins);
  }

  /** Behind the new bytes there is a boundary. */
  lemma SpliceEnd(text: seq<byte>, lo: nat, hi: nat, ins: seq<byte>)
    requires lo <= hi <= |text| && Boundary(text, hi)
    ensures Boundary(Replaced(text, lo, hi, ins), lo + |ins|)
  {
    hide Tail;
    var t := Replaced(text, lo, hi, ins);
    if lo + |ins| < |t| { assert t[lo + |ins|] == text[hi]; }
  }

  // ---------------------------------------------------------------- adding a fold

  /** Insertion from the back, keeping the starts in order. */
  function FoldInserted(folds: seq<Fold>, f: Fold): seq<Fold> {
    if folds == [] || f.start >= folds[|folds| - 1].start then folds + [f]
    else FoldInserted(folds[..|folds| - 1], f) + [folds[|folds| - 1]]
  }

  lemma {:induction false} FoldInsertedAt(folds: seq<Fold>, f: Fold, j: nat)
    requires j <= |folds| && (j > 0 ==> folds[j - 1].start <= f.start)
    requires forall i :: j <= i < |folds| ==> f.start < folds[i].start
    ensures FoldInserted(folds, f) == folds[..j] + [f] + folds[j..]
  {
    var n := |folds|;
    if j < n {
      FoldInsertedAt(folds[..n - 1], f, j);
      assert folds[..n - 1][..j] == folds[..j] && folds[..n - 1][j..] + [folds[n - 1]] == folds[j..];
    }
  }

  function FoldAdded(folds: seq<Fold>, f: Fold): seq<Fold> {
    if f.start >= f.end || |folds| == MAX_FOLDS then folds else FoldInserted(folds, f)
  }

  lemma {:induction false} FoldInsertedHas(folds: seq<Fold>, f: Fold)
    ensures |FoldInserted(folds, f)| == |folds| + 1
    ensures forall g :: g in FoldInserted(folds, f) <==> g == f || g in folds
  {
    var n := |folds|;
    if n > 0 && f.start < folds[n - 1].start {
      assert folds == folds[..n - 1] + [folds[n - 1]];
      FoldInsertedHas(folds[..n - 1], f);
    }
  }

  lemma {:induction false} FoldInsertedKeeps(folds: seq<Fold>, f: Fold)
    requires Disjoint(folds) && f.start < f.end
    requires forall i :: 0 <= i < |folds| ==> folds[i].end <= f.start || f.end <= folds[i].start
    ensures Disjoint(FoldInserted(folds, f))
  {
    var n := |folds|;
    if n > 0 && f.start < folds[n - 1].start {
      var init, last := folds[..n - 1], folds[n - 1];
      FoldInsertedKeeps(init, f);
      FoldInsertedHas(init, f);
      var r := FoldInserted(init, f);
      forall i | 0 <= i < |r| ensures r[i].end <= last.start {
        assert r[i] in r;
      }
      assert FoldInserted(folds, f) == r + [last];
    } else {
      assert FoldInserted(folds, f) == folds + [f];
    }
  }

  /** Adding a fold that reaches into no other keeps the folds in order, apart and few enough. It is
      added exactly when it is not empty and there is room. */
  lemma FoldAddedKeeps(folds: seq<Fold>, f: Fold)
    requires Disjoint(folds) && |folds| <= MAX_FOLDS
    requires forall i :: 0 <= i < |folds| ==> folds[i].end <= f.start || f.end <= folds[i].start
    ensures Disjoint(FoldAdded(folds, f)) && |FoldAdded(folds, f)| <= MAX_FOLDS
    ensures forall g :: g in FoldAdded(folds, f) <==> g in folds || (g == f && f.start < f.end && |folds| < MAX_FOLDS)
  {
    hide FoldInserted, Disjoint;
    if f.start < f.end {
      FoldInsertedKeeps(folds, f);
      FoldInsertedHas(folds, f);
    }
  }

  // ------------------------------------------------------------------- cursor steps

  /** First fold that starts at p, as an index; |folds| when there is none. */
  function FoldStartingAt(folds: seq<Fold>, p: nat): (j: nat)
    ensures j <= |folds|
    ensures j < |folds| ==> folds[j].start == p
    ensures forall i :: 0 <= i < j ==> folds[i].start != p
  {
    if folds == [] then 0 else if folds[0].start == p then 0
    else
      var j := FoldStartingAt(folds[1..], p);
      assert forall i :: 1 <= i < j + 1 ==> folds[i] == folds[1..][i - 1];
      1 + j
  }

  function FoldEndingAt(folds: seq<Fold>, p: nat): (j: nat)
    ensures j <= |folds|
    ensures j < |folds| ==> folds[j].end == p
    ensures forall i :: 0 <= i < j ==> folds[i].end != p
  {
    if folds == [] then 0 else if folds[0].end == p then 0
    else
      var j := FoldEndingAt(folds[1..], p);
      assert forall i :: 1 <= i < j + 1 ==> folds[i] == folds[1..][i - 1];
      1 + j
  }

  /** Folds are neither shown nor stepped over while input is masked. */
  function Shown(l: Line, mask: bool): seq<Fold> {
    if mask then [] else l.folds
  }

  /** Bytes from p to the next cursor place: a whole fold, or a cluster. */
  function NextLen(l: Line, mask: bool, p: nat): nat
    requires p <= |l.text| && Good(l)
  {
    var fs := Shown(l, mask);
    var j := FoldStartingAt(fs, p);
    if j < |fs| then fs[j].end - fs[j].start
    else if p == |l.text| then 0
    else var n := NextCluster(l.text[p..]); if n > 0 then n else 1
  }

  function PrevLen(l: Line, mask: bool, p: nat): nat
    requires p <= |l.text| && Good(l)
  {
    var fs := Shown(l, mask);
    var j := FoldEndingAt(fs, p);
    if j < |fs| then fs[j].end - fs[j].start else PrevCluster(l.text, p)
  }

  /** A step right from a boundary lands on a later boundary of the line. */
  lemma NextLenStops(l: Line, mask: bool, p: nat)
    requires Good(l) && Boundary(l.text, p) && p < |l.text|
    ensures 0 < NextLen(l, mask, p) && Boundary(l.text, p + NextLen(l, mask, p))
  {
    hide WellFormed, Decode, CharAt, NextCluster, FoldStartingAt;
    var fs := Shown(l, mask);
    var j := FoldStartingAt(fs, p);
    if j < |fs| {
      assert fs[j] in l.folds;
    } else {
      var rest := l.text[p..];
      BoundarySplits(l.text, p);
      NextClusterStops(rest);
      var n := NextCluster(rest);
      assert n < |rest| ==> rest[n] == l.text[p + n];
    }
  }

  /** A fold that starts there is passed in one step; otherwise it is one cluster. */
  lemma NextLenJumps(l: Line, mask: bool, p: nat)
    requires Good(l) && Boundary(l.text, p) && p < |l.text|
    ensures forall f :: f in Shown(l, mask) && f.start == p ==> p + NextLen(l, mask, p) == f.end
    ensures (forall f :: f in Shown(l, mask) ==> f.start != p) ==> NextLen(l, mask, p) == NextCluster(l.text[p..])
  {
    hide WellFormed, Decode, CharAt, NextCluster, FoldStartingAt;
    BoundarySplits(l.text, p);
    NextClusterStops(l.text[p..]);
    var fs := Shown(l, mask);
    var j := FoldStartingAt(fs, p);
    forall f | f in fs && f.start == p ensures j < |fs| && f == fs[j] {
      var i :| 0 <= i < |fs| && fs[i] == f;
      assert l.folds[i] == f;
    }
  }

  lemma PrevLenStops(l: Line, mask: bool, p: nat)
    requires Good(l) && Boundary(l.text, p) && p > 0
    ensures 0 < PrevLen(l, mask, p) <= p && Boundary(l.text, p - PrevLen(l, mask, p))
  {
    hide WellFormed, Decode, CharAt, PrevCluster, FoldEndingAt, CodePoint;
    PrevClusterStops(l.text, p);
    var fs := Shown(l, mask);
    var j := FoldEndingAt(fs, p);
    assert j < |fs| ==> fs[j] in l.folds;
  }

  lemma PrevLenJumps(l: Line, mask: bool, p: nat)
    requires Good(l) && Boundary(l.text, p) && p > 0
    ensures forall f :: f in Shown(l, mask) && f.end == p ==> p - PrevLen(l, mask, p) == f.start
    ensures (forall f :: f in Shown(l, mask) ==> f.end != p) ==> PrevLen(l, mask, p) == PrevCluster(l.text, p)
  {
    hide WellFormed, Decode, CharAt, PrevCluster, FoldEndingAt, CodePoint;
    var fs := Shown(l, mask);
    var j := FoldEndingAt(fs, p);
    forall f | f in fs && f.end == p ensures j < |fs| && f == fs[j] {
      var i :| 0 <= i < |fs| && fs[i] == f;
      assert l.folds[i] == f;
    }
  }

  /** A step does not depend on where the cursor is now. */
  lemma PrevLenOfPos(l: Line, mask: bool, p: nat)
    requires Good(l) && Boundary(l.text, p)
    ensures Good(l.(pos := p)) && PrevLen(l.(pos := p), mask, p) == PrevLen(l, mask, p)
  {
  }

  // ----------------------------------------------------------------------- commands

  function Insert(l: Line, c: seq<byte>): Line
    requires l.pos <= |l.text|
  {
    Splice(l, l.pos, l.pos, c)
  }

  function InsertFolded(l: Line, c: seq<byte>): Line
    requires l.pos <= |l.text|
  {
    var t := Insert(l, c);
    t.(folds := FoldAdded(t.folds, Fold(l.pos, l.pos + |c|, c)))
  }

  function MoveLeft(l: Line, mask: bool): Line
    requires Good(l)
  {
    if l.pos > 0 then PrevLenStops(l, mask, l.pos); l.(pos := l.pos - PrevLen(l, mask, l.pos)) else l
  }

  function MoveRight(l: Line, mask: bool): Line
    requires Good(l)
  {
    if l.pos != |l.text| then l.(pos := l.pos + NextLen(l, mask, l.pos)) else l
  }

  function Delete(l: Line, mask: bool): Line
    requires Good(l)
  {
    if l.pos < |l.text| then
      NextLenStops(l, mask, l.pos);
      Splice(l, l.pos, l.pos + NextLen(l, mask, l.pos), [])
    else l
  }

  function Backspace(l: Line, mask: bool): Line
    requires Good(l)
  {
    if l.pos > 0 then
      PrevLenStops(l, mask, l.pos);
      Splice(l, l.pos - PrevLen(l, mask, l.pos), l.pos, [])
    else l
  }

  /** Steps left from p while the byte before the cursor is a space (or while it is not). */
  function SkipBack(l: Line, mask: bool, spaces: bool, p: nat): (r: nat)
    requires Good(l) && Boundary(l.text, p)
    ensures r <= p && Boundary(l.text, r)
    decreases p
  {
    if p > 0 && (l.text[p - 1] == SPACE) == spaces then
      PrevLenStops(l, mask, p);
      SkipBack(l, mask, spaces, p - PrevLen(l, mask, p))
    else p
  }

  function WordStart(l: Line, mask: bool): (r: nat)
    requires Good(l)
    ensures r <= l.pos && Boundary(l.text, r)
  {
    SkipBack(l, mask, false, SkipBack(l, mask, true, l.pos))
  }

  lemma {:induction false} SkipBackOfPos(l: Line, mask: bool, spaces: bool, q: nat, p: nat)
    requires Good(l) && Boundary(l.text, p) && Boundary(l.text, q)
    ensures Good(l.(pos := q)) && SkipBack(l.(pos := q), mask, spaces, p) == SkipBack(l, mask, spaces, p)
    decreases p
  {
    hide WellFormed, FoldsOk, Tail, PrevLen;
    PrevLenOfPos(l.(pos := q), mask, p);
    PrevLenOfPos(l, mask, p);
    if p > 0 && (l.text[p - 1] == SPACE) == spaces {
      PrevLenStops(l, mask, p);
      SkipBackOfPos(l, mask, spaces, q, p - PrevLen(l, mask, p));
    }
  }

  function DeletePrevWord(l: Line, mask: bool): Line
    requires Good(l)
  {
    Splice(l, WordStart(l, mask), l.pos, [])
  }

  function KillToEnd(l: Line): Line
    requires l.pos <= |l.text|
  {
    Splice(l, l.pos, |l.text|, [])
  }

  /** The transposed line when the swap goes ahead: both sides fit the 32-byte scratch buffer
      and neither reaches into a fold. */
  predicate CanTranspose(l: Line, mask: bool)
    requires Good(l)
  {
    && 0 < l.pos < |l.text|
    && PrevLen(l, mask, l.pos) <= 32 && NextLen(l, mask, l.pos) <= 32
    && PrevLen(l, mask, l.pos) <= l.pos
    && forall i :: 0 <= i < |l.folds| ==>
         !Touches(l.folds[i], l.pos - PrevLen(l, mask, l.pos), l.pos + NextLen(l, mask, l.pos))
  }

  function Transpose(l: Line, mask: bool): Line
    requires Good(l)
  {
    if CanTranspose(l, mask) then
      NextLenStops(l, mask, l.pos);
      var a, b := l.pos - PrevLen(l, mask, l.pos), l.pos + NextLen(l, mask, l.pos);
      Line(Exchange(l.text, a, l.pos, b), b, l.folds)
    else l
  }

  lemma InsertGood(l: Line, c: seq<byte>)
    requires Good(l) && CleanText(c)
    ensures Good(Insert(l, c))
  {
    SpliceGood(l, l.pos, l.pos, c);
  }

  lemma InsertFoldedGood(l: Line, c: seq<byte>)
    requires Good(l) && CleanText(c) && c != [] && |l.folds| < MAX_FOLDS
    ensures Good(InsertFolded(l, c))
    ensures Fold(l.pos, l.pos + |c|, c) in InsertFolded(l, c).folds
  {
    hide WellFormed, Tail, Track, FoldInserted;
    var t, f := Insert(l, c), Fold(l.pos, l.pos + |c|, c);
    SpliceGood(l, l.pos, l.pos, c);
    TrackSurvivors(l.folds, l.pos, l.pos, |c|);
    SpliceBoundary(l.text, l.pos, l.pos, c, l.pos);
    assert t.text[f.start..f.end] == c;
    FoldInsertedKeeps(t.folds, f);
    FoldInsertedHas(t.folds, f);
  }

  /** A deletion of whole characters. */
  lemma CutGood(l: Line, lo: nat, hi: nat)
    requires Good(l) && lo <= hi && Boundary(l.text, lo) && Boundary(l.text, hi)
    ensures Good(Splice(l, lo, hi, [])) && |Splice(l, lo, hi, []).text| <= |l.text|
  {
    SpliceGood(l, lo, hi, []);
  }

  lemma StepsGood(l: Line, mask: bool)
    requires Good(l)
    ensures Good(MoveLeft(l, mask)) && Good(MoveRight(l, mask))
    ensures Good(Delete(l, mask)) && Good(Backspace(l, mask))
    ensures Good(DeletePrevWord(l, mask)) && Good(KillToEnd(l))
    ensures MoveLeft(l, mask).text == l.text == MoveRight(l, mask).text
    ensures |Delete(l, mask).text| <= |l.text| && |Backspace(l, mask).text| <= |l.text|
    ensures |DeletePrevWord(l, mask).text| <= |l.text| && |KillToEnd(l).text| <= |l.text|
  {
    hide WellFormed, NextLen, PrevLen, Splice, WordStart, FoldsOk, Tail;
    CutGood(l, WordStart(l, mask), l.pos);
    EndBoundary(l.text);
    CutGood(l, l.pos, |l.text|);
    if l.pos < |l.text| {
      NextLenStops(l, mask, l.pos);
      CutGood(l, l.pos, l.pos + NextLen(l, mask, l.pos));
    }
    if l.pos > 0 {
      PrevLenStops(l, mask, l.pos);
      CutGood(l, l.pos - PrevLen(l, mask, l.pos), l.pos);
    }
  }

  lemma HomeEndGood(l: Line)
    requires Good(l)
    ensures Good(l.(pos := 0)) && Good(l.(pos := |l.text|))
  {
    if l.text != [] { FirstChar(l.text); }
  }

  lemma EndBoundary(s: seq<byte>)
    ensures Boundary(s, |s|)
  {
  }

  lemma TransposeGood(l: Line, mask: bool)
    requires Good(l)
    ensures Good(Transpose(l, mask)) && |Transpose(l, mask).text| == |l.text|
  {
    hide WellFormed, NextLen, PrevLen, CharAt;
    if CanTranspose(l, mask) {
      NextLenStops(l, mask, l.pos);
      PrevLenStops(l, mask, l.pos);
      var a, p, b := l.pos - PrevLen(l, mask, l.pos), l.pos, l.pos + NextLen(l, mask, l.pos);
      SwapGood(l, a, p, b);
    }
  }

  /** Transposing changes the line exactly when there is something of at most 32 bytes on either side
      and the swap reaches into no fold. It then exchanges what the two steps cover, and the cursor goes
      behind them. */
  lemma TransposeExchanges(l: Line, mask: bool)
    requires Good(l)
    ensures Transpose(l, mask) != l <==> CanTranspose(l, mask)
    ensures CanTranspose(l, mask) ==>
      var back, ahead, t := PrevLen(l, mask, l.pos), NextLen(l, mask, l.pos), Transpose(l, mask);
      && 0 < back <= l.pos && 0 < ahead && l.pos + ahead == t.pos <= |l.text| == |t.text|
      && (forall i :: 0 <= i < l.pos - back || t.pos <= i < |t.text| ==> t.text[i] == l.text[i])
      && t.text[l.pos - back..t.pos - back] == l.text[l.pos..t.pos]
      && t.text[t.pos - back..t.pos] == l.text[l.pos - back..l.pos]
  {
    hide WellFormed, NextLen, PrevLen, FoldsOk, Tail, Exchange;
    if CanTranspose(l, mask) {
      NextLenStops(l, mask, l.pos);
      PrevLenStops(l, mask, l.pos);
      Exchanged(l.text, l.pos - PrevLen(l, mask, l.pos), l.pos, l.pos + NextLen(l, mask, l.pos));
    }
  }

  /** The bytes from a to p and those from p to b, the other way round. */
  function Exchange(s: seq<byte>, a: nat, p: nat, b: nat): (t: seq<byte>)
    requires a <= p <= b <= |s|
    ensures |t| == |s|
  {
    s[..a] + s[p..b] + s[a..p] + s[b..]
  }

  lemma Exchanged(s: seq<byte>, a: nat, p: nat, b: nat)
    requires a <= p <= b <= |s|
    ensures var t := Exchange(s, a, p, b);
      && |t| == |s| && (forall i :: 0 <= i < a || b <= i < |s| ==> t[i] == s[i])
      && t[a..a + (b - p)] == s[p..b] && t[a + (b - p)..b] == s[a..p]
  {
  }

  lemma SwapGood(l: Line, a: nat, p: nat, b: nat)
    requires Good(l) && a < p < b && Boundary(l.text, a) && Boundary(l.text, p) && Boundary(l.text, b)
    requires forall i :: 0 <= i < |l.folds| ==> !Touches(l.folds[i], a, b)
    ensures Good(Line(Exchange(l.text, a, p, b), b, l.folds))
  {
    hide WellFormed, Tail, FoldOk;
    var x, y := l.text[p..b], l.text[a..p];
    SliceWellFormed(l.text, p, b);
    SliceWellFormed(l.text, a, p);
    ConcatWellFormed(x, y);
    SpliceWellFormed(l.text, a, b, x + y);
    var t := l.text[..a] + x + y + l.text[b..];
    assert t == l.text[..a] + (x + y) + l.text[b..];
    SpliceBoundary(l.text, a, b, x + y, b);
    forall f | f in l.folds ensures FoldOk(t, f) {
      MovedOk(l.text, f, a, b, x + y);
    }
  }

  /** What a command does to the text: nothing, or the bytes from lo to hi become n bytes. */
  datatype Reach = Untouched | Edited(lo: nat, hi: nat, n: nat)

  /** Folds follow an edit: those that it does not reach into are there, moved with their text, in
      their order, and there is no other. */
  predicate FoldsFollow(after: seq<Fold>, before: seq<Fold>, r: Reach) {
    match r
    case Untouched => after == before
    case Edited(lo, hi, n) =>
      && lo <= hi && |after| <= |before|
      && (forall f :: f in before && !Touches(f, lo, hi) ==> Moved(f, lo, hi, n) in after)
      && (forall g :: g in after ==> exists f :: f in before && !Touches(f, lo, hi) && g == Moved(f, lo, hi, n))
  }

  lemma SpliceFolds(l: Line, lo: nat, hi: nat, ins: seq<byte>)
    requires lo <= hi <= |l.text|
    ensures FoldsFollow(Splice(l, lo, hi, ins).folds, l.folds, Edited(lo, hi, |ins|))
  {
    hide Track;
    TrackSurvivors(l.folds, lo, hi, |ins|);
  }

  function DeleteReach(l: Line, mask: bool): Reach
    requires Good(l)
  {
    if l.pos < |l.text| then Edited(l.pos, l.pos + NextLen(l, mask, l.pos), 0) else Untouched
  }

  function BackspaceReach(l: Line, mask: bool): Reach
    requires Good(l)
  {
    if l.pos > 0 then PrevLenStops(l, mask, l.pos); Edited(l.pos - PrevLen(l, mask, l.pos), l.pos, 0) else Untouched
  }

  /** Every deletion makes the folds follow what it deletes; moving and transposing leave them. */
  lemma StepsFolds(l: Line, mask: bool)
    requires Good(l)
    ensures FoldsFollow(Delete(l, mask).folds, l.folds, DeleteReach(l, mask))
    ensures FoldsFollow(Backspace(l, mask).folds, l.folds, BackspaceReach(l, mask))
    ensures FoldsFollow(DeletePrevWord(l, mask).folds, l.folds, Edited(WordStart(l, mask), l.pos, 0))
    ensures FoldsFollow(KillToEnd(l).folds, l.folds, Edited(l.pos, |l.text|, 0))
    ensures Transpose(l, mask).folds == l.folds
    ensures MoveLeft(l, mask).folds == l.folds == MoveRight(l, mask).folds
  {
    hide WellFormed, NextLen, PrevLen, Splice, WordStart, FoldsOk, Tail, FoldsFollow;
    SameFolds(l.folds);
    SpliceFolds(l, WordStart(l, mask), l.pos, []);
    SpliceFolds(l, l.pos, |l.text|, []);
    if l.pos < |l.text| {
      NextLenStops(l, mask, l.pos);
      SpliceFolds(l, l.pos, l.pos + NextLen(l, mask, l.pos), []);
    }
    if l.pos > 0 {
      PrevLenStops(l, mask, l.pos);
      SpliceFolds(l, l.pos - PrevLen(l, mask, l.pos), l.pos, []);
    }
  }

  lemma SameFolds(folds: seq<Fold>)
    ensures FoldsFollow(folds, folds, Untouched)
  {
  }

  /** Inserting a text as a fold makes the folds follow, and adds that one where there is room. */
  lemma InsertFoldedFolds(l: Line, c: seq<byte>)
    requires l.pos <= |l.text| && |l.folds| <= MAX_FOLDS && c != []
    ensures FoldsFollow(Insert(l, c).folds, l.folds, Edited(l.pos, l.pos, |c|))
    ensures forall g :: g in InsertFolded(l, c).folds <==>
              g in Insert(l, c).folds || (|Insert(l, c).folds| < MAX_FOLDS && g == Fold(l.pos, l.pos + |c|, c))
  {
    hide Track, FoldsFollow, FoldInserted;
    SpliceFolds(l, l.pos, l.pos, c);
    var kept := Insert(l, c).folds;
    FoldInsertedHas(kept, Fold(l.pos, l.pos + |c|, c));
    TrackSurvivors(l.folds, l.pos, l.pos, |c|);
  }

  /** A line put in place of another keeps none of its folds. */
  lemma RecalledFolds(s: seq<byte>, mask: bool)
    ensures |Recalled(s, mask).folds| <= 1
    ensures forall g :: g in Recalled(s, mask).folds ==>
              !mask && g.start < g.end <= |s| && g.origin == s[g.start..g.end]
  {
    hide HistoryFoldRange, ShouldFoldHistoryText;
  }

  // ------------------------------------------------------------------------ recall

  function CountLines(s: seq<byte>): (n: nat)
    ensures n >= 1
    ensures n > 1 <==> NEWLINE in s
  {
    if s == [] then 1
    else
      var n := CountLines(s[..|s| - 1]);
      assert s == s[..|s| - 1] + [s[|s| - 1]];
      n + if s[|s| - 1] == NEWLINE then 1 else 0
  }

  /** There is one line more than there are line breaks. */
  lemma {:induction false} LinesAreBreaks(s: seq<byte>)
    ensures CountLines(s) == 1 + multiset(s)[10]
  {
    if s != [] {
      LinesAreBreaks(s[..|s| - 1]);
      assert s == s[..|s| - 1] + [s[|s| - 1]];
    }
  }

  predicate ShouldFoldText(s: seq<byte>) {
    NEWLINE in s || |s| >= PASTE_FOLD_THRESHOLD
  }

  predicate ShouldFoldHistoryText(s: seq<byte>) {
    || |s| >= HISTORY_FOLD_THRESHOLD
    || (CountLines(s) > 1 && CountLines(s) >= HISTORY_FOLD_MULTILINE_LINES)
  }

  /** Place reached by up to n clusters to the right of p, and whether a line break was passed. */
  function ContextAhead(s: seq<byte>, p: nat, n: nat, nl: bool): (r: (nat, bool))
    requires p <= |s|
    ensures p <= r.0 <= |s|
    decreases n
  {
    if p == |s| || n == 0 then (p, nl)
    else
      var step := NextCluster(s[p..]);
      ContextAhead(s, p + if step > 0 then step else 1, n - 1, nl || s[p] == NEWLINE)
  }

  function ContextBehind(s: seq<byte>, p: nat, n: nat, nl: bool): (r: (nat, bool))
    requires p <= |s|
    ensures r.0 <= p
    decreases n
  {
    if p == 0 || n == 0 then (p, nl)
    else
      PrevClusterMoves(s, p);
      var q := p - PrevCluster(s, p);
      ContextBehind(s, q, n - 1, nl || s[q] == NEWLINE)
  }

  method FoldCountLines(s: seq<byte>) returns (lines: nat)
    ensures lines == CountLines(s)
  {
    lines := 1;
    var j := 0;
    while j < |s|
      invariant 0 <= j <= |s| && lines == CountLines(s[..j])
    {
      assert s[..j + 1][..j] == s[..j];
      if s[j] == NEWLINE { lines := lines + 1; }
      j := j + 1;
    }
    assert s[..|s|] == s;
  }

  method FindContextAhead(s: seq<byte>) returns (p: nat, nl: bool)
    ensures (p, nl) == ContextAhead(s, 0, HISTORY_FOLD_CONTEXT, false)
  {
    hide NextCluster;
    p, nl := 0, false;
    var chars := 0;
    while p < |s| && chars < HISTORY_FOLD_CONTEXT
      invariant 0 <= p <= |s| && 0 <= chars <= HISTORY_FOLD_CONTEXT
      invariant ContextAhead(s, 0, HISTORY_FOLD_CONTEXT, false) == ContextAhead(s, p, HISTORY_FOLD_CONTEXT - chars, nl)
      decreases HISTORY_FOLD_CONTEXT - chars
    {
      var step := NextGrapheme(s[p..]);
      if step == 0 { step := 1; }
      if s[p] == NEWLINE { nl := true; }
      p := p + step;
      chars := chars + 1;
    }
  }

  method FindContextBehind(s: seq<byte>) returns (p: nat, nl: bool)
    ensures (p, nl) == ContextBehind(s, |s|, HISTORY_FOLD_CONTEXT, false)
  {
    hide PrevCluster;
    p, nl := |s|, false;
    var chars := 0;
    while p > 0 && chars < HISTORY_FOLD_CONTEXT
      invariant 0 <= p <= |s| && 0 <= chars <= HISTORY_FOLD_CONTEXT
      invariant ContextBehind(s, |s|, HISTORY_FOLD_CONTEXT, false)
             == ContextBehind(s, p, HISTORY_FOLD_CONTEXT - chars, nl)
      decreases HISTORY_FOLD_CONTEXT - chars
    {
      PrevClusterMoves(s, p);
      var step := PrevCharLen(s, p);
      p := p - step;
      if s[p] == NEWLINE { nl := true; }
      chars := chars + 1;
    }
  }

  lemma PrevClusterMoves(s: seq<byte>, p: nat)
    requires 0 < p <= |s|
    ensures PrevCluster(s, p) > 0
  {
  }

  /** The range hidden when s is recalled: all of it, or all but a few clusters at either end. */
  function HistoryFoldRange(s: seq<byte>): (r: (nat, nat))
    requires s != []
    ensures r.0 < r.1 <= |s|
  {
    if |s| <= HISTORY_FOLD_CONTEXT * 2 then (0, |s|)
    else
      var (a, nlA) := ContextAhead(s, 0, HISTORY_FOLD_CONTEXT, false);
      var (b, nlB) := ContextBehind(s, |s|, HISTORY_FOLD_CONTEXT, false);
      var start := if nlA then 0 else a;
      var end := if nlB then |s| else b;
      if start >= end then (0, |s|) else (start, end)
  }

  function HistoryFolds(s: seq<byte>, mask: bool): seq<Fold> {
    if s == [] || mask || !ShouldFoldHistoryText(s) then []
    else var (a, b) := HistoryFoldRange(s); [Fold(a, b, s[a..b])]
  }

  /** The line that shows a history entry. */
  function Recalled(s: seq<byte>, mask: bool): Line {
    Line(s, |s|, HistoryFolds(s, mask))
  }

  lemma {:induction false} ContextAheadStops(s: seq<byte>, p: nat, n: nat, nl: bool)
    requires WellFormed(s) && Boundary(s, p)
    ensures Boundary(s, ContextAhead(s, p, n, nl).0)
    decreases n
  {
    hide WellFormed, NextCluster, CharAt, Decode, Tail;
    if p != |s| && n != 0 {
      BoundarySplits(s, p);
      NextClusterStops(s[p..]);
      var step := NextCluster(s[p..]);
      assert p + step < |s| ==> s[p..][step] == s[p + step];
      ContextAheadStops(s, p + step, n - 1, nl || s[p] == NEWLINE);
    }
  }

  lemma {:induction false} ContextBehindStops(s: seq<byte>, p: nat, n: nat, nl: bool)
    requires WellFormed(s) && Boundary(s, p)
    ensures Boundary(s, ContextBehind(s, p, n, nl).0)
    decreases n
  {
    hide WellFormed, PrevCluster, CharAt, Decode, Tail;
    if p != 0 && n != 0 {
      PrevClusterStops(s, p);
      var q := p - PrevCluster(s, p);
      ContextBehindStops(s, q, n - 1, nl || s[q] == NEWLINE);
    }
  }

  /** Recalling clean text gives a good line: the fold it may get covers whole characters. */
  lemma RecalledGood(s: seq<byte>, mask: bool)
    requires CleanText(s)
    ensures Good(Recalled(s, mask))
  {
    hide WellFormed, ShouldFoldHistoryText, HistoryFoldRange, Tail;
    EndBoundary(s);
    if s != [] { HistoryFoldRangeStops(s); }
  }

  lemma HistoryFoldRangeStops(s: seq<byte>)
    requires WellFormed(s) && s != []
    ensures Boundary(s, HistoryFoldRange(s).0) && Boundary(s, HistoryFoldRange(s).1)
  {
    hide WellFormed, ContextAhead, ContextBehind, Tail, CharAt;
    EndBoundary(s);
    FirstChar(s);
    ContextAheadStops(s, 0, HISTORY_FOLD_CONTEXT, false);
    ContextBehindStops(s, |s|, HISTORY_FOLD_CONTEXT, false);
  }

  /** An entry that has to be cut to fit stays clean text exactly when the cut falls between
      characters. */
  lemma CutEntryClean(s: seq<byte>, n: nat)
    requires CleanText(s) && n <= |s|
    ensures CleanText(s[..n]) <==> Boundary(s, n)
  {
    BoundarySplits(s, n);
    if WellFormed(s[..n]) {
      PrefixBoundary(s, n);
    }
    assert forall b :: b in s[..n] ==> b in s;
  }

  /** For one: a letter with an accent, cut in two. */
  lemma CutInCharacter()
    ensures CleanText([0xC3, 0xA9]) && !CleanText([0xC3, 0xA9][..1])
  {
    var s: seq<byte> := [0xC3, 0xA9];
    assert CharAt(s) == 2 && s[2..] == [];
    CutEntryClean(s, 1);
  }

  lemma {:induction false} PrefixBoundary(s: seq<byte>, n: nat)
    requires WellFormed(s) && n <= |s| && WellFormed(s[..n])
    ensures Boundary(s, n)
    decreases |s|
  {
    if n == 0 {
      if s != [] { FirstChar(s); }
    } else {
      var k := CharAt(s[..n]);
      CharAtPrefix(s[..n], s[n..]);
      assert s[..n] + s[n..] == s;
      assert s[k..][..n - k] == s[..n][k..];
      PrefixBoundary(s[k..], n - k);
      assert n < |s| ==> s[k..][n - k] == s[n];
    }
  }
}
