/** What the terminal shows of the line: every fold as a short marker, and the cursor moved along. */
module RenderLine {
  import opened Utf8
  import opened LineModel
  import Decimal

  // ---------------------------------------------------------------------- markers

  function Ascii(s: string): (b: seq<byte>)
    requires forall i :: 0 <= i < |s| ==> s[i] as int < 128
    ensures |b| == |s|
  {
    seq(|s|, i requires 0 <= i < |s| => s[i] as int as byte)
  }

  /** The marker that stands for the hidden bytes. */
  function Marker(hidden: seq<byte>): seq<byte> {
    var lines := CountLines(hidden);
    if lines > 1 then Ascii("[... ") + Ascii(Decimal.Show(lines)) + Ascii(" pasted lines ...]")
    else Ascii("[... ") + Ascii(Decimal.Show(|hidden|)) + Ascii(" pasted chars ...]")
  }

  function Hidden(text: seq<byte>, f: Fold): seq<byte>
    requires f.start <= f.end <= |text|
  {
    text[f.start..f.end]
  }

  // -------------------------------------------------------------------- rendering

  /** Ranges in order inside the text, from `src` on. */
  predicate Ranges(text: seq<byte>, folds: seq<Fold>, src: nat) {
    && src <= |text|
    && (folds != [] ==> src <= folds[0].start < folds[0].end && Ranges(text, folds[1..], folds[0].end))
  }

  /** The text from `src` on, with a marker in place of each fold. */
  function Rendered(text: seq<byte>, folds: seq<Fold>, src: nat): seq<byte>
    requires Ranges(text, folds, src)
  {
    if folds == [] then text[src..]
    else var f := folds[0];
      RangesHead(text, folds, src);
      text[src..f.start] + Marker(Hidden(text, f)) + Rendered(text, folds[1..], f.end)
  }

  lemma RangesHead(text: seq<byte>, folds: seq<Fold>, src: nat)
    requires Ranges(text, folds, src) && folds != []
    ensures folds[0].end <= |text|
  {
  }

  /** The rendered length as the code computes it beforehand. */
  function LengthAfter(text: seq<byte>, folds: seq<Fold>, src: nat, len: int): int
    requires Ranges(text, folds, src)
  {
    if folds == [] then len
    else var f := folds[0];
      RangesHead(text, folds, src);
      LengthAfter(text, folds[1..], f.end, len - (f.end - f.start) + |Marker(Hidden(text, f))|)
  }

  lemma {:induction false} LengthIsRight(text: seq<byte>, folds: seq<Fold>, src: nat, len: int)
    requires Ranges(text, folds, src)
    ensures LengthAfter(text, folds, src, len) == len - (|text| - src) + |Rendered(text, folds, src)|
    decreases |folds|
  {
    hide Marker;
    if folds != [] {
      var f := folds[0];
      RangesHead(text, folds, src);
      LengthIsRight(text, folds[1..], f.end, len - (f.end - f.start) + |Marker(Hidden(text, f))|);
    }
  }

  /** Where the cursor at p is shown, counted from where `src` is shown. */
  function Cursor(text: seq<byte>, folds: seq<Fold>, src: nat, p: nat): (c: nat)
    requires Ranges(text, folds, src) && src <= p <= |text|
  {
    if folds == [] then p - src
    else var f := folds[0];
      RangesHead(text, folds, src);
      if p <= f.start then p - src
      else if p <= f.end then f.start - src + |Marker(Hidden(text, f))|
      else f.start - src + |Marker(Hidden(text, f))| + Cursor(text, folds[1..], f.end, p)
  }

  /** The cursor never moves back on the screen when it moves on in the text, and stays in the line. */
  lemma {:induction false} CursorMonotone(text: seq<byte>, folds: seq<Fold>, src: nat, p: nat, q: nat)
    requires Ranges(text, folds, src) && src <= p <= q <= |text|
    ensures Cursor(text, folds, src, p) <= Cursor(text, folds, src, q) <= |Rendered(text, folds, src)|
    decreases |folds|
  {
    hide Marker;
    if folds != [] {
      RangesHead(text, folds, src);
      var f := folds[0];
      if q > f.end { CursorMonotone(text, folds[1..], f.end, if p > f.end then p else f.end, q); }
      if q > f.end && p <= f.end { CursorAtSource(text, folds[1..], f.end); }
    }
  }

  lemma CursorAtSource(text: seq<byte>, folds: seq<Fold>, src: nat)
    requires Ranges(text, folds, src)
    ensures Cursor(text, folds, src, src) == 0
  {
  }

  /** The folds that are over before p. */
  function Before(folds: seq<Fold>, p: nat): seq<Fold> {
    if folds == [] || folds[0].end > p then [] else [folds[0]] + Before(folds[1..], p)
  }

  predicate Inside(folds: seq<Fold>, p: nat) {
    exists i :: 0 <= i < |folds| && folds[i].start < p < folds[i].end
  }

  lemma {:induction false} BeforeRanges(text: seq<byte>, folds: seq<Fold>, src: nat, p: nat)
    requires Ranges(text, folds, src) && src <= p <= |text|
    ensures Ranges(text[..p], Before(folds, p), src)
    decreases |folds|
  {
    if folds != [] && folds[0].end <= p {
      RangesHead(text, folds, src);
      BeforeRanges(text, folds[1..], folds[0].end, p);
      assert Before(folds, p)[1..] == Before(folds[1..], p);
    }
  }

  /** Outside every fold the cursor stands right behind what is shown of the text before it. */
  lemma {:induction false} CursorOutside(text: seq<byte>, folds: seq<Fold>, src: nat, p: nat)
    requires Ranges(text, folds, src) && src <= p <= |text| && !Inside(folds, p)
    ensures Ranges(text[..p], Before(folds, p), src)
    ensures Cursor(text, folds, src, p) == |Rendered(text[..p], Before(folds, p), src)|
    decreases |folds|
  {
    hide Marker;
    BeforeRanges(text, folds, src, p);
    if folds != [] {
      var f := folds[0];
      RangesHead(text, folds, src);
      assert !(f.start < p < f.end);
      if f.end <= p {
        assert forall i :: 0 <= i < |folds[1..]| ==> folds[1..][i] == folds[i + 1];
        CursorOutside(text, folds[1..], f.end, p);
        CursorAtSource(text, folds[1..], f.end);
        assert Before(folds, p)[1..] == Before(folds[1..], p);
        assert Hidden(text[..p], f) == Hidden(text, f);
      }
    }
  }

  /** Strictly inside a fold the cursor is shown where it would be at the fold's end, past the marker. */
  lemma {:induction false} CursorInside(text: seq<byte>, folds: seq<Fold>, src: nat, p: nat, i: nat)
    requires Ranges(text, folds, src) && src <= p <= |text|
    requires i < |folds| && folds[i].start < p < folds[i].end
    ensures p < folds[i].end <= |text|
    ensures Cursor(text, folds, src, p) == Cursor(text, folds, src, folds[i].end)
    decreases |folds|
  {
    hide Marker;
    RangesHead(text, folds, src);
    if i > 0 {
      RangesApart(text, folds, src, i);
      CursorInside(text, folds[1..], folds[0].end, p, i - 1);
    }
  }

  lemma {:induction false} RangesApart(text: seq<byte>, folds: seq<Fold>, src: nat, i: nat)
    requires Ranges(text, folds, src) && i < |folds|
    ensures src <= folds[i].start < folds[i].end <= |text|
    ensures i > 0 ==> folds[0].end <= folds[i].start
    decreases |folds|
  {
    RangesHead(text, folds, src);
    if i > 0 { RangesApart(text, folds[1..], folds[0].end, i - 1); }
  }

  /** The folds of a good line are ranges in order. */
  lemma GoodRanges(l: Line)
    requires Good(l)
    ensures Ranges(l.text, l.folds, 0)
  {
    if l.folds != [] { assert l.folds[0] in l.folds; }
    RangesFrom(l.text, l.folds, 0);
  }

  lemma {:induction false} RangesFrom(text: seq<byte>, folds: seq<Fold>, src: nat)
    requires Disjoint(folds) && src <= |text| && forall f :: f in folds ==> f.end <= |text|
    requires folds != [] ==> src <= folds[0].start
    ensures Ranges(text, folds, src)
    decreases |folds|
  {
    if folds != [] {
      assert folds[0] in folds;
      assert forall i :: 0 <= i < |folds[1..]| ==> folds[1..][i] == folds[i + 1];
      RangesFrom(text, folds[1..], folds[0].end);
    }
  }

  /** One fold's worth of rendering. */
  lemma OneFold(text: seq<byte>, fs: seq<Fold>, j: nat, src: nat, p: nat)
    requires j < |fs| && Ranges(text, fs[j..], src) && p <= |text|
    ensures src <= fs[j].start < fs[j].end <= |text| && Ranges(text, fs[j + 1..], fs[j].end)
    ensures var f := fs[j];
      Rendered(text, fs[j..], src) == text[src..f.start] + Marker(Hidden(text, f)) + Rendered(text, fs[j + 1..], f.end)
    ensures var f := fs[j];
      var past := f.start - src + |Marker(Hidden(text, f))|;
      && (src <= p <= f.start ==> Cursor(text, fs[j..], src, p) == p - src)
      && (f.start < p <= f.end ==> Cursor(text, fs[j..], src, p) == past)
      && (f.end < p ==> Cursor(text, fs[j..], src, p) == past + Cursor(text, fs[j + 1..], f.end, p))
  {
    hide Marker;
    RangesHead(text, fs[j..], src);
    assert fs[j..][0] == fs[j] && fs[j..][1..] == fs[j + 1..];
  }

  lemma NoFolds(text: seq<byte>, src: nat, p: nat)
    requires src <= |text| && p <= |text|
    ensures Rendered(text, [], src) == text[src..]
    ensures src <= p ==> Cursor(text, [], src, p) == p - src
  {
  }

  // -------------------------------------------------------------------- the method

  /** memcpy into the output. */
  method CopyInto(r: array<byte>, dst: nat, s: seq<byte>)
    requires dst + |s| <= r.Length
    modifies r
    ensures r[..dst + |s|] == old(r[..dst]) + s
  {
    forall i | 0 <= i < |s| { r[dst + i] := s[i]; }
    assert r[..dst] == old(r[..dst]);
  }

  /** Builds the shown line in a buffer of exactly the length computed beforehand. */
  method RenderBuffer(l: Line, mask: bool) returns (r: array<byte>, outlen: nat, outpos: nat)
    requires Good(l)
    ensures Ranges(l.text, Shown(l, mask), 0) && fresh(r)
    ensures r.Length == outlen + 1 && r[outlen] == 0
    ensures r[..outlen] == Rendered(l.text, Shown(l, mask), 0)
    ensures outpos == Cursor(l.text, Shown(l, mask), 0, l.pos)
  {
    hide Marker, WellFormed, FoldsOk, Tail;
    var fs := Shown(l, mask);
    GoodRanges(l);
    assert Ranges(l.text, fs, 0);
    LengthIsRight(l.text, fs, 0, |l.text|);
    var len: int := |l.text|;
    var j := 0;
    ghost var at := 0;
    while j < |fs|
      invariant 0 <= j <= |fs| && Ranges(l.text, fs[j..], at) && len >= |l.text| - at
      invariant LengthAfter(l.text, fs, 0, |l.text|) == LengthAfter(l.text, fs[j..], at, len)
    {
      RangesHead(l.text, fs[j..], at);
      assert fs[j..][1..] == fs[j + 1..];
      len := len - (fs[j].end - fs[j].start) + |Marker(Hidden(l.text, fs[j]))|;
      at := fs[j].end;
      j := j + 1;
    }
    outlen := len;
    r := new byte[outlen + 1];
    outpos := Fill(l, fs, r);
    r[outlen] := 0;
  }

  /** Copies gaps and markers in turn, noting where the cursor comes out. */
  method Fill(l: Line, fs: seq<Fold>, r: array<byte>) returns (pos: nat)
    requires Ranges(l.text, fs, 0) && l.pos <= |l.text|
    requires r.Length == |Rendered(l.text, fs, 0)| + 1
    modifies r
    ensures r[..r.Length - 1] == Rendered(l.text, fs, 0)
    ensures pos == Cursor(l.text, fs, 0, l.pos)
  {
    hide Marker, Rendered, Cursor, Ranges, Hidden;
    var src, dst, posSet := 0, 0, false;
    pos := 0;
    var j := 0;
    ghost var whole := Rendered(l.text, fs, 0);
    assert fs[0..] == fs;
    while j < |fs|
      invariant 0 <= j <= |fs| && 0 <= src <= |l.text| && Ranges(l.text, fs[j..], src)
      invariant 0 <= dst && dst + |Rendered(l.text, fs[j..], src)| == |whole| == r.Length - 1
      invariant r[..dst] + Rendered(l.text, fs[j..], src) == whole
      invariant posSet ==> pos == Cursor(l.text, fs, 0, l.pos)
      invariant !posSet ==> src <= l.pos
      invariant !posSet ==> Cursor(l.text, fs, 0, l.pos) == dst + Cursor(l.text, fs[j..], src, l.pos)
    {
      var f := fs[j];
      OneFold(l.text, fs, j, src, l.pos);
      var gap, marker := l.text[src..f.start], Marker(Hidden(l.text, f));
      ghost var done, rest := r[..dst], Rendered(l.text, fs[j + 1..], f.end);
      assert done + (gap + marker + rest) == done + gap + marker + rest;
      if !posSet && l.pos <= f.start {
        pos, posSet := dst + (l.pos - src), true;
      }
      CopyInto(r, dst, gap);
      dst := dst + |gap|;
      if !posSet && l.pos < f.end {
        pos, posSet := dst + |marker|, true;
      }
      CopyInto(r, dst, marker);
      dst := dst + |marker|;
      if !posSet && l.pos == f.end {
        pos, posSet := dst, true;
      }
      src := f.end;
      j := j + 1;
    }
    assert fs[j..] == [];
    NoFolds(l.text, src, l.pos);
    if !posSet { pos := dst + (l.pos - src); }
    CopyInto(r, dst, l.text[src..]);
  }

  // --------------------------------------------------------------------- to the letter

  /** The marker counts lines where there are line breaks, one more than these, and else bytes. */
  lemma MarkerIs(hidden: seq<byte>)
    ensures var m, breaks := Marker(hidden), multiset(hidden)[10];
      var text := if breaks > 0 then "[... " + Decimal.Show(breaks + 1) + " pasted lines ...]"
                  else "[... " + Decimal.Show(|hidden|) + " pasted chars ...]";
      |m| == |text| && forall k :: 0 <= k < |m| ==> m[k] as int == text[k] as int
  {
    hide CountLines, Decimal.Show, Ascii;
    LinesAreBreaks(hidden);
    var n := if multiset(hidden)[10] > 0 then multiset(hidden)[10] + 1 else |hidden|;
    ThreeParts("[... ", Decimal.Show(n), " pasted lines ...]");
    ThreeParts("[... ", Decimal.Show(n), " pasted chars ...]");
  }

  lemma ThreeParts(a: string, b: string, c: string)
    requires forall i :: 0 <= i < |a| ==> a[i] as int < 128
    requires forall i :: 0 <= i < |b| ==> b[i] as int < 128
    requires forall i :: 0 <= i < |c| ==> c[i] as int < 128
    ensures var m, text := Ascii(a) + Ascii(b) + Ascii(c), a + b + c;
      |m| == |text| && forall k :: 0 <= k < |m| ==> m[k] as int == text[k] as int
  {
  }

  /** A further fold behind the others puts its marker in place of its text. */
  lemma {:induction false} RenderedMore(text: seq<byte>, folds: seq<Fold>, f: Fold, src: nat)
    requires Ranges(text, folds + [f], src)
    ensures src <= f.start < f.end <= |text| && Ranges(text[..f.start], folds, src)
    ensures Rendered(text, folds + [f], src)
         == Rendered(text[..f.start], folds, src) + Marker(text[f.start..f.end]) + text[f.end..]
    decreases |folds|
  {
    hide Marker, Rendered;
    var all := folds + [f];
    RangesApart(text, all, src, |folds|);
    var cut := text[..f.start];
    RenderedFirst(text, all, src);
    if folds == [] {
      assert all[1..] == [];
      NoFolds(text, f.end, f.end);
      NoFolds(cut, src, src);
      assert cut[src..] == text[src..f.start];
    } else {
      var g := folds[0];
      assert all[1..] == folds[1..] + [f];
      RangesApart(text, all, src, 0);
      assert g.end <= f.start;
      RenderedMore(text, folds[1..], f, g.end);
      RenderedFirst(cut, folds, src);
      assert cut[src..g.start] == text[src..g.start] && cut[g.start..g.end] == text[g.start..g.end];
    }
  }

  lemma RenderedFirst(text: seq<byte>, folds: seq<Fold>, src: nat)
    requires Ranges(text, folds, src) && folds != []
    ensures var g := folds[0];
      && src <= g.start < g.end <= |text|
      && Rendered(text, folds, src)
         == text[src..g.start] + Marker(text[g.start..g.end]) + Rendered(text, folds[1..], g.end)
  {
    hide Marker;
    RangesHead(text, folds, src);
  }
}
