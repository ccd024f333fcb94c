/** What each key does to the line, key by key. */
module EditorKeys {
  import opened EditorModel
  import Grapheme
  import opened LineModel
  import opened PasteModel
  import opened Utf8

  /** An editor that waits for a key. */
  predicate Idle(e: Editor) {
    Invariant(e) && !e.done && !e.pasting && e.pending == []
  }

  /** The bytes from lo to hi are gone, the cursor is where they were, and the folds have followed. */
  predicate Loses(after: Line, l: Line, lo: nat, hi: nat)
    requires lo <= hi <= |l.text|
  {
    && after.text == l.text[..lo] + l.text[hi..] && after.pos == lo
    && FoldsFollow(after.folds, l.folds, Edited(lo, hi, 0))
  }

  /** New bytes stand at the cursor, which is behind them, and the folds have followed. */
  predicate Gains(after: Line, l: Line, c: seq<byte>)
    requires l.pos <= |l.text|
  {
    && after.text == l.text[..l.pos] + c + l.text[l.pos..] && after.pos == l.pos + |c|
    && FoldsFollow(after.folds, l.folds, Edited(l.pos, l.pos, |c|))
  }

  /** Nothing but the line has changed. */
  predicate OnlyLine(after: Editor, e: Editor) {
    after == e.(line := after.line)
  }

  /** What it means that folds follow. An edit reaches into a fold when one of its bytes is the fold's, or
      when it inserts between two of these; one in front of the edit stays, and one behind it moves on by
      what the text has grown. */
  lemma Reaching(f: Fold, lo: nat, hi: nat, n: nat)
    requires lo <= hi && f.start < f.end
    ensures lo < hi ==> (Touches(f, lo, hi) <==> exists k :: Within(k, lo, hi) && Within(k, f.start, f.end))
    ensures lo == hi ==> (Touches(f, lo, hi) <==> f.start < lo < f.end)
    ensures f.end <= lo ==> Moved(f, lo, hi, n) == f
    ensures f.start >= hi ==>
              && f.start + n >= hi - lo
              && Moved(f, lo, hi, n) == Fold(f.start + n - (hi - lo), f.end + n - (hi - lo), f.origin)
  {
    if lo < hi && Touches(f, lo, hi) {
      var k := if f.start < lo then lo else f.start;
      assert Within(k, lo, hi) && Within(k, f.start, f.end);
    }
  }

  predicate Within(k: int, lo: int, hi: int) {
    lo <= k < hi
  }

  /** What a step is: a fold that starts or ends at the cursor, unless the line is masked, or a cluster. */
  lemma Steps(l: Line, mask: bool, f: Fold)
    requires Good(l) && f in l.folds
    ensures l.pos < |l.text| && f.start == l.pos && !mask ==> l.pos + NextLen(l, mask, l.pos) == f.end
    ensures l.pos > 0 && f.end == l.pos && !mask ==> l.pos - PrevLen(l, mask, l.pos) == f.start
  {
    hide WellFormed, FoldsOk, Tail, NextLen, PrevLen;
    assert !mask ==> f in Shown(l, mask);
    if l.pos < |l.text| { NextLenJumps(l, mask, l.pos); }
    if l.pos > 0 { PrevLenJumps(l, mask, l.pos); }
  }

  lemma PlainSteps(l: Line, mask: bool)
    requires Good(l)
    ensures l.pos < |l.text| && (mask || forall f :: f in l.folds ==> f.start != l.pos) ==>
              NextLen(l, mask, l.pos) == Grapheme.NextCluster(l.text[l.pos..])
    ensures l.pos > 0 && (mask || forall f :: f in l.folds ==> f.end != l.pos) ==>
              PrevLen(l, mask, l.pos) == Grapheme.PrevCluster(l.text, l.pos)
  {
    hide WellFormed, FoldsOk, Tail, NextLen, PrevLen;
    assert forall f :: f in Shown(l, mask) ==> !mask && f in l.folds;
    if l.pos < |l.text| { NextLenJumps(l, mask, l.pos); }
    if l.pos > 0 { PrevLenJumps(l, mask, l.pos); }
  }

  lemma LineShape(e: Editor)
    requires Invariant(e)
    ensures Good(e.line) && Boundary(e.line.text, e.line.pos) && e.line.pos <= |e.line.text| <= Cap(e.room)
    ensures RoomOk(e.room) && |e.line.text| <= e.room.buflen && (!e.done ==> e.index < |e.history|)
  {
    hide WellFormed, FoldsOk, Tail, EntriesOk;
  }

  // --------------------------------------------------------------------------- moving

  /** Ctrl-A. */
  lemma HomeKey(e: Editor)
    requires Idle(e)
    ensures Step(e, 1) == (e.(line := Line(e.line.text, 0, e.line.folds)), More)
  {
    hide Good, EntriesOk;
  }

  /** Ctrl-E. */
  lemma EndKey(e: Editor)
    requires Idle(e)
    ensures Step(e, 5) == (e.(line := Line(e.line.text, |e.line.text|, e.line.folds)), More)
  {
    hide Good, EntriesOk;
  }

  /** Ctrl-B: one step to the left, if there is one. */
  lemma LeftKey(e: Editor)
    requires Idle(e)
    ensures var l, (a, o) := e.line, Step(e, 2);
      && o == More && OnlyLine(a, e) && a.line.text == l.text && a.line.folds == l.folds && Good(l)
      && (l.pos == 0 ==> a.line.pos == 0)
      && (l.pos > 0 ==> 0 < PrevLen(l, e.mode.mask, l.pos) && a.line.pos == l.pos - PrevLen(l, e.mode.mask, l.pos))
  {
    hide WellFormed, FoldsOk, Tail, EntriesOk, PrevLen;
    if e.line.pos > 0 { PrevLenStops(e.line, e.mode.mask, e.line.pos); }
  }

  /** Ctrl-F: one step to the right, if there is one. */
  lemma RightKey(e: Editor)
    requires Idle(e)
    ensures var l, (a, o) := e.line, Step(e, 6);
      && o == More && OnlyLine(a, e) && a.line.text == l.text && a.line.folds == l.folds && Good(l)
      && (l.pos == |l.text| ==> a.line.pos == l.pos)
      && (l.pos < |l.text| ==>
            0 < NextLen(l, e.mode.mask, l.pos) && a.line.pos == l.pos + NextLen(l, e.mode.mask, l.pos))
  {
    hide WellFormed, FoldsOk, Tail, EntriesOk, NextLen;
    if e.line.pos < |e.line.text| { NextLenStops(e.line, e.mode.mask, e.line.pos); }
  }

  // -------------------------------------------------------------------------- erasing

  /** Backspace and Ctrl-H: the step left of the cursor, if there is one. */
  lemma BackspaceKey(e: Editor, c: byte)
    requires Idle(e) && (c == 127 || c == 8)
    ensures var l, (a, o) := e.line, Step(e, c);
      && o == More && OnlyLine(a, e) && Good(l)
      && (l.pos == 0 ==> a == e)
      && (l.pos > 0 ==>
            var n := PrevLen(l, e.mode.mask, l.pos);
            0 < n <= l.pos <= |l.text| && Loses(a.line, l, l.pos - n, l.pos))
  {
    hide WellFormed, FoldsOk, Tail, EntriesOk, PrevLen, FoldsFollow, Track;
    LineShape(e);
    var l := e.line;
    if l.pos > 0 {
      PrevLenStops(l, e.mode.mask, l.pos);
      SpliceFolds(l, l.pos - PrevLen(l, e.mode.mask, l.pos), l.pos, []);
      CutOut(l.text, l.pos - PrevLen(l, e.mode.mask, l.pos), l.pos);
    }
  }

  lemma CutOut(s: seq<byte>, lo: nat, hi: nat)
    requires lo <= hi <= |s|
    ensures Replaced(s, lo, hi, []) == s[..lo] + s[hi..]
  {
    assert s[..lo] + [] == s[..lo];
  }

  /** What erasing to the right leaves. */
  predicate ErasesRight(a: Editor, e: Editor)
    requires Good(e.line)
  {
    var l := e.line;
    && OnlyLine(a, e)
    && (l.pos >= |l.text| ==> a == e)
    && (l.pos < |l.text| ==>
          var n := NextLen(l, e.mode.mask, l.pos);
          0 < n && l.pos + n <= |l.text| && Loses(a.line, l, l.pos, l.pos + n))
  }

  /** Ctrl-D in a line that is not empty: the step right of the cursor, if there is one. */
  lemma DeleteKey(e: Editor)
    requires Idle(e) && e.line.text != []
    ensures Good(e.line) && Step(e, 4).1 == More && ErasesRight(Step(e, 4).0, e)
  {
    hide WellFormed, FoldsOk, Tail, EntriesOk, NextLen, FoldsFollow, Track;
    DeleteErases(e);
  }

  lemma DeleteErases(e: Editor)
    requires Invariant(e)
    ensures Good(e.line) && ErasesRight(e.(line := Delete(e.line, e.mode.mask)), e)
  {
    hide WellFormed, FoldsOk, Tail, EntriesOk, NextLen, FoldsFollow, Track;
    LineShape(e);
    var l := e.line;
    if l.pos < |l.text| {
      NextLenStops(l, e.mode.mask, l.pos);
      SpliceFolds(l, l.pos, l.pos + NextLen(l, e.mode.mask, l.pos), []);
      CutOut(l.text, l.pos, l.pos + NextLen(l, e.mode.mask, l.pos));
    }
  }

  /** Ctrl-K: from the cursor to the end. */
  lemma KillKey(e: Editor)
    requires Idle(e)
    ensures var l, (a, o) := e.line, Step(e, 11);
      o == More && OnlyLine(a, e) && l.pos <= |l.text| && Loses(a.line, l, l.pos, |l.text|)
  {
    hide WellFormed, FoldsOk, Tail, EntriesOk, FoldsFollow, Track;
    LineShape(e);
    SpliceFolds(e.line, e.line.pos, |e.line.text|, []);
    CutOut(e.line.text, e.line.pos, |e.line.text|);
  }

  /** Ctrl-U: the whole line, with its folds. */
  lemma EraseKey(e: Editor)
    requires Idle(e)
    ensures Step(e, 21) == (e.(line := Line([], 0, [])), More)
  {
    hide Good, EntriesOk;
  }

  /** Ctrl-W: the word left of the cursor and the blanks behind it, counted in steps. */
  lemma WordKey(e: Editor)
    requires Idle(e)
    ensures Good(e.line)
    ensures var l, (a, o) := e.line, Step(e, 23);
      && o == More && OnlyLine(a, e) && l.pos <= |l.text|
      && exists blanks: nat, letters: nat :: WordBehind(l, e.mode.mask, l.pos, blanks, letters) &&
           Loses(a.line, l, Leftward(l, e.mode.mask, l.pos, blanks + letters), l.pos)
  {
    hide Good, EntriesOk, DeletePrevWord, Loses, WordBehind, Leftward, Boundary;
    LineShape(e);
    var blanks, letters := WordErases(e.line, e.mode.mask);
    assert Step(e, 23) == (e.(line := DeletePrevWord(e.line, e.mode.mask)), More);
  }

  lemma WordErases(l: Line, m: bool) returns (blanks: nat, letters: nat)
    requires Good(l)
    ensures Boundary(l.text, l.pos) && l.pos <= |l.text| && WordBehind(l, m, l.pos, blanks, letters)
    ensures Loses(DeletePrevWord(l, m), l, Leftward(l, m, l.pos, blanks + letters), l.pos)
  {
    hide WellFormed, FoldsOk, Tail, FoldsFollow, Track, SkipBack, WordBehind;
    blanks, letters := WordIs(l, m);
    SpliceFolds(l, WordStart(l, m), l.pos, []);
    CutOut(l.text, WordStart(l, m), l.pos);
  }

  /** Where so many steps to the left lead. */
  function Leftward(l: Line, mask: bool, p: nat, k: nat): (r: nat)
    requires Good(l) && Boundary(l.text, p)
    ensures r <= p && Boundary(l.text, r)
  {
    if k == 0 then p
    else
      var q := Leftward(l, mask, p, k - 1);
      if q == 0 then 0 else OneLeft(l, mask, q)
  }

  function OneLeft(l: Line, mask: bool, q: nat): (r: nat)
    requires Good(l) && Boundary(l.text, q) && q > 0
    ensures r < q && Boundary(l.text, r)
  {
    PrevLenStops(l, mask, q);
    q - PrevLen(l, mask, q)
  }

  /** So many steps over blanks, all there are, and then so many over others, all there are. */
  predicate WordBehind(l: Line, mask: bool, p: nat, blanks: nat, letters: nat)
    requires Good(l) && Boundary(l.text, p)
  {
    && (forall k :: 0 <= k < blanks ==> BlankBehind(l, Leftward(l, mask, p, k)))
    && !BlankBehind(l, Leftward(l, mask, p, blanks))
    && (forall k :: blanks <= k < blanks + letters ==> LetterBehind(l, Leftward(l, mask, p, k)))
    && !LetterBehind(l, Leftward(l, mask, p, blanks + letters))
  }

  predicate BlankBehind(l: Line, p: nat)
    requires p <= |l.text|
  {
    p > 0 && l.text[p - 1] == 32
  }

  predicate LetterBehind(l: Line, p: nat)
    requires p <= |l.text|
  {
    p > 0 && l.text[p - 1] != 32
  }

  lemma OneLeftIs(l: Line, mask: bool, q: nat)
    requires Good(l) && Boundary(l.text, q) && q > 0
    ensures 0 < PrevLen(l, mask, q) <= q && OneLeft(l, mask, q) == q - PrevLen(l, mask, q)
  {
    hide WellFormed, FoldsOk, Tail, PrevLen;
    PrevLenStops(l, mask, q);
  }

  lemma LeftwardMore(l: Line, mask: bool, p: nat, k: nat)
    requires Good(l) && Boundary(l.text, p)
    ensures var q := Leftward(l, mask, p, k);
      Leftward(l, mask, p, k + 1) == if q == 0 then 0 else OneLeft(l, mask, q)
  {
    hide WellFormed, FoldsOk, Tail, PrevLen, OneLeft, Boundary, Good;
  }

  lemma {:induction false} Skipped(l: Line, mask: bool, spaces: bool, p: nat, k: nat) returns (n: nat)
    requires Good(l) && Boundary(l.text, p)
    ensures SkipBack(l, mask, spaces, Leftward(l, mask, p, k)) == Leftward(l, mask, p, k + n)
    ensures forall i :: k <= i < k + n ==>
              var q := Leftward(l, mask, p, i); if spaces then BlankBehind(l, q) else LetterBehind(l, q)
    ensures var q := Leftward(l, mask, p, k + n); if spaces then !BlankBehind(l, q) else !LetterBehind(l, q)
    decreases Leftward(l, mask, p, k)
  {
    hide WellFormed, FoldsOk, Tail, PrevLen, Leftward, Good, OneLeft;
    LeftwardMore(l, mask, p, k);
    var q := Leftward(l, mask, p, k);
    n := 0;
    if q > 0 && (l.text[q - 1] == SPACE) == spaces {
      OneLeftIs(l, mask, q);
      var m := Skipped(l, mask, spaces, p, k + 1);
      n := m + 1;
    }
  }

  lemma WordIs(l: Line, mask: bool) returns (blanks: nat, letters: nat)
    requires Good(l)
    ensures WordBehind(l, mask, l.pos, blanks, letters)
    ensures WordStart(l, mask) == Leftward(l, mask, l.pos, blanks + letters)
  {
    hide WellFormed, FoldsOk, Tail, PrevLen, SkipBack;
    assert Leftward(l, mask, l.pos, 0) == l.pos;
    blanks := Skipped(l, mask, true, l.pos, 0);
    letters := Skipped(l, mask, false, l.pos, blanks);
  }

  // ----------------------------------------------------------------------- exchanging

  /** Ctrl-T: what the steps on either side of the cursor cover changes places, and the cursor goes
      behind both, when there are both, each of at most 32 bytes and no fold among them. */
  lemma SwapKey(e: Editor)
    requires Idle(e)
    ensures Good(e.line) && Swaps(Step(e, 20).0.line, e.line, e.mode.mask)
    ensures Step(e, 20).1 == More && OnlyLine(Step(e, 20).0, e)
  {
    hide Good, EntriesOk, Transpose, Swaps;
    Swapped(e.line, e.mode.mask);
  }

  predicate Swaps(after: Line, l: Line, m: bool)
    requires Good(l)
  {
    && after.folds == l.folds
    && (l.pos == 0 || l.pos >= |l.text| ==> after == l)
    && (0 < l.pos < |l.text| ==>
          var p, n := PrevLen(l, m, l.pos), NextLen(l, m, l.pos);
          && 0 < p <= l.pos && 0 < n && l.pos + n <= |l.text|
          && if p <= 32 && n <= 32 && forall f :: f in l.folds ==> f.end <= l.pos - p || l.pos + n <= f.start
             then after.text == l.text[..l.pos - p] + l.text[l.pos..l.pos + n] + l.text[l.pos - p..l.pos]
                                + l.text[l.pos + n..]
                  && after.pos == l.pos + n
             else after == l)
  }

  lemma Swapped(l: Line, m: bool)
    requires Good(l)
    ensures Swaps(Transpose(l, m), l, m)
  {
    hide WellFormed, Tail, PrevLen, NextLen, FoldOk;
    if 0 < l.pos < |l.text| {
      PrevLenStops(l, m, l.pos);
      NextLenStops(l, m, l.pos);
      NoneAmong(l, l.pos - PrevLen(l, m, l.pos), l.pos + NextLen(l, m, l.pos));
    }
  }

  lemma NoneAmong(l: Line, lo: nat, hi: nat)
    requires Good(l) && lo < hi
    ensures (forall i :: 0 <= i < |l.folds| ==> !Touches(l.folds[i], lo, hi)) <==>
              forall f :: f in l.folds ==> f.end <= lo || hi <= f.start
  {
    hide FoldOk, WellFormed;
  }

  // ----------------------------------------------------------------------- typing

  /** A printable byte goes in at the cursor, where there is room. */
  lemma TypeKey(e: Editor, c: byte)
    requires Idle(e) && 32 <= c <= 126
    ensures Typing(Step(e, c), e, [c])
  {
    hide Good, EntriesOk, Track, Typed, Typing;
    TypesText(e, [c]);
  }

  /** A text typed: it is in at the cursor, or, without room for it, nothing has changed. */
  predicate Typing(r: (Editor, Outcome), e: Editor, c: seq<byte>)
    requires Invariant(e)
  {
    LineShape(e);
    && r.1 == More
    && (|e.line.text| + |c| > Cap(e.room) ==> r.0 == e)
    && (|e.line.text| + |c| <= Cap(e.room) ==>
          && r.0 == e.(line := r.0.line, room := r.0.room) && Cap(r.0.room) == Cap(e.room)
          && Gains(r.0.line, e.line, c))
  }

  lemma TypesText(e: Editor, c: seq<byte>)
    requires Invariant(e)
    ensures Typing((Typed(e, c), More), e, c)
  {
    hide Good, EntriesOk, Track, FoldsFollow, Doubled;
    LineShape(e);
    SpliceFolds(e.line, e.line.pos, e.line.pos, c);
  }

  /** A byte that cannot start a character stands for the replacement character. */
  lemma StrayKey(e: Editor, c: byte)
    requires Idle(e) && (0x80 <= c < 0xC2 || c > 0xF4)
    ensures Typing(Step(e, c), e, [0xEF, 0xBF, 0xBD])
  {
    hide Good, EntriesOk, Track, Typed, Typing;
    TypesText(e, [0xEF, 0xBF, 0xBD]);
  }

  /** The other control keys do nothing. */
  lemma OtherKey(e: Editor, c: byte)
    requires Idle(e) && c < 32
    requires c in {0, 7, 9, 10, 12, 15, 17, 18, 19, 22, 24, 25, 26, 28, 29, 30, 31}
    ensures Step(e, c) == (e, More)
  {
    NothingAsked(c);
    hide Good, EntriesOk, ByteCommand;
    assert c < 32 && c != 3 && c != 4 && c != 13 && c != 27;
  }

  lemma NothingAsked(c: byte)
    requires c in {0, 7, 9, 10, 12, 15, 17, 18, 19, 22, 24, 25, 26, 28, 29, 30, 31}
    ensures ByteCommand(c) == Nothing && c < 32 && c != 3 && c != 4 && c != 13 && c != 27
  {
  }

  // ---------------------------------------------------------------------- ending

  /** Enter gives out the text and takes the line out of the history. */
  lemma EnterKey(e: Editor)
    requires Idle(e)
    ensures var (a, o) := Step(e, 13);
      && o == Submitted(e.line.text) && a.done && e.history != [] && a.history == e.history[..|e.history| - 1]
      && a.line.text == e.line.text && a.line.folds == e.line.folds
  {
    hide Good, EntriesOk;
  }

  /** Ctrl-C leaves everything as it is, and Ctrl-D in an empty line ends the input. */
  lemma CancelKeys(e: Editor)
    requires Idle(e)
    ensures Step(e, 3) == (e, Interrupted)
    ensures e.line.text == [] ==>
              && Step(e, 4).1 == EndOfFile && e.history != []
              && Step(e, 4).0 == e.(history := e.history[..|e.history| - 1], done := true)
  {
    hide Good, EntriesOk;
  }

  // ---------------------------------------------------------------------- history

  /** Moving to another entry: the line is put down where it belongs in the history, and the entry,
      as much of it as fits, is shown with the cursor at its end. Where there is no other entry that
      way, only the line is put down, and with a single entry not even that. */
  predicate Recalls(a: Editor, e: Editor, older: bool)
    requires e.index < |e.history|
  {
    var n := |e.history|;
    var to: int := if older then e.index + 1 else e.index - 1;
    if n == 1 then a == e
    else
      && a == e.(history := e.history[n - 1 - e.index := e.line.text], index := a.index, line := a.line, room := a.room)
      && if to < 0 || to >= n then a.index == e.index && a.line == e.line && a.room == e.room
         else
           && a.index == to && Cap(a.room) == Cap(e.room) && a.line.pos == |a.line.text|
           && a.line.text <= e.history[n - 1 - to]
           && (|e.history[n - 1 - to]| <= Cap(e.room) ==> a.line.text == e.history[n - 1 - to])
  }

  /** Ctrl-P and Ctrl-N. */
  lemma HistoryKeys(e: Editor)
    requires Idle(e)
    ensures e.index < |e.history|
    ensures Step(e, 16).1 == More && Recalls(Step(e, 16).0, e, true)
    ensures Step(e, 14).1 == More && Recalls(Step(e, 14).0, e, false)
  {
    hide Good, EntriesOk, HistoryMoved, Recalls;
    LineShape(e);
    Recalling(e, true);
    Recalling(e, false);
  }

  lemma Recalling(e: Editor, older: bool)
    requires Invariant(e) && !e.done
    ensures Recalls(HistoryMoved(e, older), e, older)
  {
    hide Good, EntriesOk, HistoryFolds, Doubled;
    LineShape(e);
  }

  // ---------------------------------------------------------------- escape sequences

  /** Bytes that do not end a sequence. */
  predicate Params(ps: seq<byte>) {
    |ps| <= 29 && forall i :: 0 <= i < |ps| ==> !(64 <= ps[i] <= 126)
  }

  lemma {:induction false} SequencePends(e: Editor, b: byte, ps: seq<byte>)
    requires Idle(e) && (b == 91 || b == 79) && Params(ps)
    ensures Invariant(e.(pending := [27, b] + ps)) && RunBytes(e, [27, b] + ps) == e.(pending := [27, b] + ps)
    decreases |ps|
  {
    hide Good, EntriesOk, RunBytes, Step;
    if ps == [] {
      EscPends(e, b);
    } else {
      var k := |ps| - 1;
      SequencePends(e, b, ps[..k]);
      var input := [27, b] + ps;
      assert input[..k + 2] == [27, b] + ps[..k] && input[..k + 2 + 1] == input && input[k + 2] == ps[k];
      RunBytesSnoc(e, input, k + 2);
      ParamPends(e.(pending := [27, b] + ps[..k]), ps[k]);
      assert [27, b] + ps[..k] + [ps[k]] == input;
    }
  }

  lemma EscPends(e: Editor, b: byte)
    requires Idle(e) && (b == 91 || b == 79)
    ensures Invariant(e.(pending := [27, b])) && RunBytes(e, [27, b] + []) == e.(pending := [27, b] + [])
  {
    hide Good, EntriesOk, RunBytes;
    assert [27, b] + [] == [27, b] && [27, b][..1] == [27] && [27, b][..2] == [27, b] && [27, b][..0] == [];
    RunNothing(e);
    RunBytesSnoc(e, [27, b], 0);
    RunBytesSnoc(e, [27, b], 1);
    assert [27] + [b] == [27, b];
  }

  lemma ParamPends(e: Editor, c: byte)
    requires Invariant(e) && !e.done && !e.pasting && 2 <= |e.pending| <= 30 && e.pending[0] == 27
    requires !(64 <= c <= 126)
    ensures Step(e, c) == (e.(pending := e.pending + [c]), More) && Invariant(e.(pending := e.pending + [c]))
  {
    StepGood(e, c);
    hide Good, EntriesOk;
  }

  /** What a whole sequence does: its last byte decides, except for two sequences with a tilde. */
  lemma SequenceKey(e: Editor, b: byte, ps: seq<byte>, x: byte)
    requires Idle(e) && (b == 91 || b == 79) && Params(ps) && 64 <= x <= 126
    requires !(b == 91 && x == 126 && (ps == [51] || ps == [50, 48, 48]))
    ensures var a := RunBytes(e, [27, b] + ps + [x]);
      && (x == 65 ==> a == Step(e, 16).0) && (x == 66 ==> a == Step(e, 14).0)
      && (x == 67 ==> a == Step(e, 6).0) && (x == 68 ==> a == Step(e, 2).0)
      && (x == 72 ==> a == Step(e, 1).0) && (x == 70 ==> a == Step(e, 5).0)
      && (x !in {65, 66, 67, 68, 70, 72} ==> a == e)
  {
    hide Good, EntriesOk, RunBytes, Step, Apply;
    SequenceEnds(e, b, ps, x);
    var s := [b] + ps + [x];
    assert s[|s| - 1] == x && s[0] == b && s[1..|s| - 1] == ps;
    assert [91, 51, 126][1..2] == [51] && [91, 50, 48, 48, 126][1..4] == [50, 48, 48];
    KeysApply(e);
  }

  lemma SequenceEnds(e: Editor, b: byte, ps: seq<byte>, x: byte)
    requires Idle(e) && (b == 91 || b == 79) && Params(ps) && 64 <= x <= 126
    ensures RunBytes(e, [27, b] + ps + [x]) == Apply(e, EscapeCommand([b] + ps + [x]))
  {
    hide Good, EntriesOk, RunBytes, Step, Apply, EscapeCommand;
    SequencePends(e, b, ps);
    var input, k := [27, b] + ps + [x], |ps| + 2;
    assert input[..k] == [27, b] + ps && input[..k + 1] == input && input[k] == x;
    RunBytesSnoc(e, input, k);
    var f := e.(pending := [27, b] + ps);
    StepEscape(f, x);
    assert (f.pending + [x])[1..] == [b] + ps + [x];
    assert f.(pending := []) == e;
  }

  /** A sequence of 32 bytes that has not ended is dropped. */
  lemma SequenceDropped(e: Editor, b: byte, ps: seq<byte>, x: byte)
    requires Idle(e) && (b == 91 || b == 79) && Params(ps) && |ps| == 29 && !(64 <= x <= 126)
    ensures RunBytes(e, [27, b] + ps + [x]) == e
  {
    hide Good, EntriesOk, RunBytes;
    SequencePends(e, b, ps);
    var input, k := [27, b] + ps + [x], |ps| + 2;
    assert input[..k] == [27, b] + ps && input[..k + 1] == input && input[k] == x;
    RunBytesSnoc(e, input, k);
    assert e.(pending := [27, b] + ps).(pending := []) == e;
  }

  lemma KeysApply(e: Editor)
    requires Idle(e)
    ensures Step(e, 16).0 == Apply(e, Older) && Step(e, 14).0 == Apply(e, Newer)
    ensures Step(e, 6).0 == Apply(e, Right) && Step(e, 2).0 == Apply(e, Left)
    ensures Step(e, 1).0 == Apply(e, Home) && Step(e, 5).0 == Apply(e, End)
    ensures Apply(e, Nothing) == e
  {
    hide Good, EntriesOk, Step, HistoryMoved, MoveLeft, MoveRight;
    KeyApplies(e, 16);
    KeyApplies(e, 14);
    KeyApplies(e, 6);
    KeyApplies(e, 2);
    KeyApplies(e, 1);
    KeyApplies(e, 5);
  }

  lemma KeyApplies(e: Editor, c: byte)
    requires Idle(e) && c < 27 && c !in {3, 4, 13}
    ensures Step(e, c).0 == Apply(e, ByteCommand(c))
  {
    hide Good, EntriesOk, Apply, ByteCommand;
  }

  /** ESC [ 3 ~ is Delete, and ESC [ 2 0 0 ~ begins a paste. */
  lemma TildeKeys(e: Editor)
    requires Idle(e)
    ensures Good(e.line) && ErasesRight(RunBytes(e, [27, 91, 51, 126]), e)
    ensures RunBytes(e, [27, 91, 50, 48, 48, 126]) == e.(pasting := true, paste := Paste([], 0, false))
  {
    hide Good, EntriesOk, RunBytes, Step, Delete, ErasesRight;
    SequenceEnds(e, 91, [51], 126);
    SequenceEnds(e, 91, [50, 48, 48], 126);
    assert [27, 91] + [51] + [126] == [27, 91, 51, 126] && [91] + [51] + [126] == [91, 51, 126];
    assert [27, 91] + [50, 48, 48] + [126] == [27, 91, 50, 48, 48, 126];
    assert [91] + [50, 48, 48] + [126] == [91, 50, 48, 48, 126];
    DeleteErases(e);
  }

  /** A lone ESC is dropped, and the byte behind it is a key of its own. */
  lemma LoneEscape(e: Editor, c: byte)
    requires Idle(e) && c != 91 && c != 79
    ensures RunBytes(e, [27, c]) == Step(e, c).0
  {
    hide Good, EntriesOk, RunBytes, FreshKey;
    EscapeAlone(e);
    assert [27, c][..1] == [27] && [27, c][..2] == [27, c];
    RunBytesSnoc(e, [27, c], 1);
    RunOne(e, 27);
    StepFresh(e, c);
    StepEscape(e.(pending := [27]), c);
    assert e.(pending := [27]).(pending := []) == e;
  }

  lemma EscapeAlone(e: Editor)
    requires Idle(e)
    ensures Step(e, 27) == (e.(pending := [27]), More) && Invariant(e.(pending := [27]))
  {
    StepGood(e, 27);
    hide Good, EntriesOk;
  }

  // ------------------------------------------------------------- characters of several bytes

  /** Its bytes: a first one that announces them, and the rest. */
  predicate Announced(p: seq<byte>) {
    p != [] && 0xC2 <= p[0] <= 0xF4 && |p| == LeadLen(p[0]) && forall i :: 1 <= i < |p| ==> Tail(p[i])
  }

  lemma {:induction false} CharPends(e: Editor, p: seq<byte>, k: nat)
    requires Idle(e) && Announced(p) && 0 < k < |p|
    ensures Invariant(e.(pending := p[..k])) && RunBytes(e, p[..k]) == e.(pending := p[..k])
  {
    hide Good, EntriesOk, RunBytes, LeadLen;
    if k == 1 {
      assert p[..1] == [p[0]];
      RunOne(e, p[0]);
      LeadPends(e, p[0]);
    } else {
      CharPends(e, p, k - 1);
      RunBytesSnoc(e, p, k - 1);
      var f := e.(pending := p[..k - 1]);
      assert f.pending[0] == p[0] && f.pending + [p[k - 1]] == p[..k];
      StepChar(f, p[k - 1]);
      StepGood(f, p[k - 1]);
    }
  }

  lemma LeadPends(e: Editor, c: byte)
    requires Idle(e) && 0xC2 <= c <= 0xF4
    ensures Step(e, c) == (e.(pending := [c]), More) && Invariant(e.(pending := [c]))
  {
    StepGood(e, c);
    hide Good, EntriesOk;
  }

  /** Bytes that make up a character are typed as that, and others as the replacement character. */
  lemma CharKey(e: Editor, p: seq<byte>)
    requires Idle(e) && Announced(p)
    ensures Typing((RunBytes(e, p), More), e, if WellFormed(p) then p else [0xEF, 0xBF, 0xBD])
  {
    hide Good, EntriesOk, RunBytes, LeadLen, Typing, KeyText;
    var k := |p| - 1;
    Several(p);
    CharPends(e, p, k);
    assert p[..k + 1] == p;
    RunBytesSnoc(e, p, k);
    var f := e.(pending := p[..k]);
    assert f.pending[0] == p[0] && f.pending + [p[k]] == p;
    StepChar(f, p[k]);
    KeyTextClean(p);
    assert f.(pending := []) == e;
    TypesText(e, KeyText(p));
  }

  lemma Several(p: seq<byte>)
    requires Announced(p)
    ensures |p| >= 2
  {
  }

  /** A character that is broken off counts as the replacement character, and the byte that breaks it
      off is a key of its own. */
  lemma BrokenKey(e: Editor, c: byte) returns (b: Editor)
    requires Invariant(e) && !e.done && !e.pasting && CharPending(e.pending) && !Tail(c)
    ensures Invariant(e.(pending := [])) && Typing((b, More), e.(pending := []), [0xEF, 0xBF, 0xBD])
    ensures Idle(b) && Step(e, c) == Step(b, c)
  {
    hide Good, EntriesOk, Typing, FreshKey;
    StepChar(e, c);
    b := Typed(e.(pending := []), REPLACEMENT_BYTES);
    TypesText(e.(pending := []), [0xEF, 0xBF, 0xBD]);
    StepFresh(b, c);
  }

  // ----------------------------------------------------------------------- pasting

  /** ESC [ 2 0 1 ~ stands at i. */
  predicate Terminator(s: seq<byte>, i: int) {
    0 <= i && i + 6 <= |s| && s[i..i + 6] == [27, 91, 50, 48, 49, 126]
  }

  lemma TerminatorIsEnd(s: seq<byte>, i: int)
    ensures Terminator(s, i) <==> EndAt(s, i)
  {
    if 0 <= i && i + 6 <= |s| {
      var t := s[i..i + 6];
      assert forall k :: i <= k < i + 6 ==> s[k] == t[k - i];
      if EndAt(s, i) {
        assert forall k :: 0 <= k < 6 ==> s[i + k] == EndByte(k);
        assert t == [27, 91, 50, 48, 49, 126];
      }
    }
  }

  /** Most bytes a paste may bring. */
  function PasteRoom(e: Editor): nat
    requires Invariant(e)
  {
    LineShape(e);
    var left := Cap(e.room) - |e.line.text|;
    if |e.line.folds| == 16 then 0 else if left > 1048576 then 1048576 else left
  }

  /** A text is in the line, the cursor is behind it, and the folds have followed. A fold of its own
      covers it if it has several lines or at least 200 bytes, and nothing is masked. */
  ghost predicate Pastes(after: Line, l: Line, s: seq<byte>, mask: bool)
    requires l.pos <= |l.text|
  {
    && after.text == l.text[..l.pos] + s + l.text[l.pos..] && after.pos == l.pos + |s|
    && exists kept :: FoldsFollow(kept, l.folds, Edited(l.pos, l.pos, |s|)) &&
         forall g :: g in after.folds <==>
           g in kept || (!mask && (10 in s || |s| >= 200) && g == Fold(l.pos, l.pos + |s|, s))
  }

  /** What a whole paste does, from behind its start marker to its terminator: with its line breaks
      normalised, it goes in exactly when it brings something, not more than there is room for, and
      that is well-formed text without control characters. Otherwise the line stays as it is. */
  lemma PasteGoesIn(e: Editor, input: seq<byte>, k: nat)
    requires Invariant(e) && !e.done && e.pasting && e.paste == Paste([], 0, false)
    requires Terminator(input, k) && forall i :: 0 <= i < k ==> !Terminator(input, i)
    ensures e.line.pos <= |e.line.text| && !RunBytes(e, input[..k + 6]).pasting
    ensures var l, s, after := e.line, Normalized(input[..k]), RunBytes(e, input[..k + 6]).line;
      if 0 < k <= PasteRoom(e) && WellFormed(s) && NoControls(s) && |l.text| + |s| <= Cap(e.room)
      then Pastes(after, l, s, e.mode.mask) else after == l
  {
    hide Good, EntriesOk, RunBytes, Pasted, EndAt, Terminator, Normalized, Pastes;
    LineShape(e);
    FirstEnd(e, input, k);
    var content := if k > PasteRoom(e) then [] else input[..k];
    PastedPastes(e.line, content, k > PasteRoom(e), Cap(e.room), e.mode.mask);
  }

  lemma FirstEnd(e: Editor, input: seq<byte>, k: nat)
    requires Invariant(e) && !e.done && e.pasting && e.paste == Paste([], 0, false)
    requires Terminator(input, k) && forall i :: 0 <= i < k ==> !Terminator(input, i)
    ensures e.line.pos <= |e.line.text| && k + 6 <= |input|
    ensures var after, over := RunBytes(e, input[..k + 6]), k > PasteRoom(e);
      && !after.pasting
      && after.line == Pasted(e.line, if over then [] else input[..k], over, Cap(e.room), e.mode.mask)
  {
    hide Good, EntriesOk, RunBytes, Pasted, EndAt;
    LineShape(e);
    TerminatorIsEnd(input, k);
    hide Terminator;
    forall i | 0 <= i < k ensures !EndAt(input, i) { TerminatorIsEnd(input, i); }
    PasteArrives(e, input);
  }

  lemma PastedPastes(l: Line, content: seq<byte>, overflowed: bool, cap: nat, mask: bool)
    requires Good(l) && (|l.folds| == 16 ==> overflowed || content == [])
    ensures l.pos <= |l.text|
    ensures var s, after := Normalized(content), Pasted(l, content, overflowed, cap, mask);
      if !overflowed && content != [] && WellFormed(s) && NoControls(s) && |l.text| + |s| <= cap
      then Pastes(after, l, s, mask) else after == l
  {
    hide WellFormed, NoControls, PasteOk, Normalized, Track, FoldsFollow, FoldOk, Disjoint, FoldInserted;
    var s := Normalized(content);
    PasteOkIsCleanText(s);
    if !overflowed && content != [] {
      SpliceFolds(l, l.pos, l.pos, s);
      TrackSurvivors(l.folds, l.pos, l.pos, |s|);
      InsertFoldedFolds(l, s);
    }
  }

  /** For one: a terminal sends two lines with a carriage return between them, and they arrive. */
  lemma TwoLines(e: Editor)
    requires Idle(e) && e.line.text == [] && Cap(e.room) >= 3
    ensures RunBytes(e, [27, 91, 50, 48, 48, 126] + [97, 13, 98, 27, 91, 50, 48, 49, 126]).line.text == [97, 10, 98]
  {
    hide Good, EntriesOk, RunBytes, WellFormed, FoldsFollow, Terminator, Normalized, NoControls, Pastes, PasteRoom;
    var begin: seq<byte>, rest: seq<byte> := [27, 91, 50, 48, 48, 126], [97, 13, 98, 27, 91, 50, 48, 49, 126];
    TildeKeys(e);
    RunBytesSplit(e, begin, rest);
    var f := RunBytes(e, begin);
    TwoLinesText();
    RoomForThree(f);
    assert rest[..9] == rest;
    PasteGoesIn(f, rest, 3);
    TwoLinesIn(RunBytes(f, rest).line, f.line, f.mode.mask);
  }

  lemma TwoLinesIn(after: Line, l: Line, mask: bool)
    requires l.pos <= |l.text| && l.text == [] && Pastes(after, l, [97, 10, 98], mask)
    ensures after.text == [97, 10, 98]
  {
    hide FoldsFollow;
  }

  lemma RoomForThree(e: Editor)
    requires Invariant(e) && e.line.text == [] && Cap(e.room) >= 3
    ensures 3 <= PasteRoom(e)
  {
    LineShape(e);
    EmptyHasNoFolds(e.line);
    hide Good, EntriesOk;
  }

  lemma EmptyHasNoFolds(l: Line)
    requires Good(l) && l.text == []
    ensures l.folds == []
  {
    hide WellFormed;
    assert l.folds != [] ==> FoldOk(l.text, l.folds[0]);
  }

  lemma TwoLinesText()
    ensures var rest: seq<byte> := [97, 13, 98, 27, 91, 50, 48, 49, 126];
      && Terminator(rest, 3) && (forall i :: 0 <= i < 3 ==> !Terminator(rest, i))
      && Normalized(rest[..3]) == [97, 10, 98]
    ensures WellFormed([97, 10, 98]) && NoControls([97, 10, 98])
  {
    hide Terminator, Normalized, WellFormed, NoControls;
    var rest: seq<byte> := [97, 13, 98, 27, 91, 50, 48, 49, 126];
    assert rest[..3] == [97, 13, 98] && rest[3..9] == [27, 91, 50, 48, 49, 126];
    EndsThere(rest, 3);
    BeginsWithEsc(rest, 0);
    BeginsWithEsc(rest, 1);
    BeginsWithEsc(rest, 2);
    TwoLinesClean();
  }

  lemma EndsThere(s: seq<byte>, i: nat)
    requires i + 6 <= |s| && s[i..i + 6] == [27, 91, 50, 48, 49, 126]
    ensures Terminator(s, i)
  {
  }

  lemma BeginsWithEsc(s: seq<byte>, i: nat)
    requires i < |s| && s[i] != 27
    ensures !Terminator(s, i)
  {
    if i + 6 <= |s| { assert s[i..i + 6][0] == s[i]; }
  }

  lemma TwoLinesClean()
    ensures Normalized([97, 13, 98]) == [97, 10, 98] && WellFormed([97, 10, 98]) && NoControls([97, 10, 98])
  {
    assert [97, 13, 98][1..] == [13, 98] && [13, 98][1..] == [98] && [98][1..] == [];
    assert [97, 10, 98][1..] == [10, 98] && [10, 98][1..] == [98];
    assert Normalized([98]) == [98];
    assert WellFormed([98]);
  }

  // ---------------------------------------------------------------------- from outside

  /** Clearing the line drops it, with a half-read key or paste, and nothing else. */
  lemma ClearDrops(e: Editor)
    ensures var c := EditorModel.Cleared(e);
      && c.line == Line([], 0, []) && c.pending == [] && !c.pasting && c.paste == Paste([], 0, false)
      && c.mode == e.mode && c.room == e.room && c.history == e.history && c.index == e.index && c.done == e.done
  {
  }
}
