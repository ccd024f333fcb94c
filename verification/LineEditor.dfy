/** The editor state of the program, changed in place: a growable byte buffer, two fixed arrays of
    fold offsets, a key buffer. Every command is proved to do what the editor model says. */
module LineEditor {
  import opened Utf8
  import opened Grapheme
  import opened LineModel
  import opened PasteModel
  import opened EditorModel
  import History

  /** The folds that parallel lists of offsets and texts describe. */
  ghost function FoldSeq(starts: seq<nat>, ends: seq<nat>, origins: seq<seq<byte>>): (fs: seq<Fold>)
    requires |starts| == |ends| == |origins|
    ensures |fs| == |starts|
    ensures forall i :: 0 <= i < |fs| ==> fs[i] == Fold(starts[i], ends[i], origins[i])
  {
    seq(|starts|, i requires 0 <= i < |starts| => Fold(starts[i], ends[i], origins[i]))
  }

  /** Moving the later offsets up by one and filling the gap inserts a fold. */
  lemma SlotFilled(starts: seq<nat>, ends: seq<nat>, origins: seq<seq<byte>>,
                   starts': seq<nat>, ends': seq<nat>, j: nat, f: Fold)
    requires j <= |starts| == |ends| == |origins| && |starts'| == |ends'| == |starts| + 1
    requires starts'[j] == f.start && ends'[j] == f.end
    requires forall i :: 0 <= i < j ==> starts'[i] == starts[i] && ends'[i] == ends[i]
    requires forall i :: j < i < |starts'| ==> starts'[i] == starts[i - 1] && ends'[i] == ends[i - 1]
    ensures var fs := FoldSeq(starts, ends, origins);
      FoldSeq(starts', ends', origins[..j] + [f.origin] + origins[j..]) == fs[..j] + [f] + fs[j..]
  {
    hide FoldSeq;
    var fs := FoldSeq(starts, ends, origins);
    var fs' := FoldSeq(starts', ends', origins[..j] + [f.origin] + origins[j..]);
    forall i | 0 <= i < |fs'| ensures fs'[i] == (fs[..j] + [f] + fs[j..])[i] { }
  }

  lemma SlotEmptied(starts: seq<nat>, ends: seq<nat>, origins: seq<seq<byte>>,
                    starts': seq<nat>, ends': seq<nat>, j: nat)
    requires j < |starts| == |ends| == |origins| && |starts'| == |ends'| == |starts| - 1
    requires forall i :: 0 <= i < |starts'| ==> starts'[i] == starts[if i < j then i else i + 1]
    requires forall i :: 0 <= i < |ends'| ==> ends'[i] == ends[if i < j then i else i + 1]
    ensures var fs := FoldSeq(starts, ends, origins);
      FoldSeq(starts', ends', origins[..j] + origins[j + 1..]) == fs[..j] + fs[j + 1..]
  {
    hide FoldSeq;
    var fs := FoldSeq(starts, ends, origins);
    var fs' := FoldSeq(starts', ends', origins[..j] + origins[j + 1..]);
    forall i | 0 <= i < |fs'| ensures fs'[i] == (fs[..j] + fs[j + 1..])[i] { }
  }

  class LineState {
    var buf: array<byte>          // the line, then a NUL
    var buflen: nat               // bytes the line may have without growing
    const buflenMax: nat          // 0: a fixed buffer
    var pos: nat
    var len: nat
    var foldCount: nat
    const foldStart: array<nat>
    const foldEnd: array<nat>
    ghost var origins: seq<seq<byte>>   // the text each fold was made over
    const mask: bool
    const multiline: bool
    const pendingKey: array<byte>
    var pendingLen: nat
    var pasteBuf: seq<byte>
    var pasteCap: nat
    var pasteMatch: nat
    var pasteActive: bool
    var pasteOverflowed: bool
    var history: seq<seq<byte>>
    var historyIndex: nat
    var done: bool

    /** Starts editing an empty line in a buffer of the given size. The line being edited is the
        last entry of the history. */
    constructor (size: nat, max: nat, entries: seq<seq<byte>>, maxEntries: nat, mask: bool, multiline: bool)
      requires size > 0 && RoomOk(Room(size - 1, max)) && maxEntries > 0
      requires EntriesOk(entries, Cap(Room(size - 1, max)), max == 0)
      ensures Valid() && fresh(buf) && fresh(foldStart) && fresh(foldEnd) && fresh(pendingKey)
      ensures State() == Editor(Mode(mask, multiline), Room(size - 1, max), EMPTY_LINE, [], false, NO_PASTE,
                                History.Added(entries, maxEntries, []), 0, false)
    {
      hide Invariant, EntriesOk, History.Added;
      this.mask, this.multiline := mask, multiline;
      buf := new byte[size];
      buflen, buflenMax := size - 1, max;
      pos, len, foldCount, origins := 0, 0, 0, [];
      foldStart := new nat[MAX_FOLDS];
      foldEnd := new nat[MAX_FOLDS];
      pendingKey := new byte[PENDING_SIZE];
      pendingLen := 0;
      pasteBuf, pasteCap, pasteMatch, pasteActive, pasteOverflowed := [], 0, 0, false, false;
      history, historyIndex, done := History.Added(entries, maxEntries, []), 0, false;
      new;
      buf[0] := 0;
      FreshGood(Mode(mask, multiline), Room(size - 1, max), entries, maxEntries);
      assert State().line == EMPTY_LINE;
    }

    static lemma FreshGood(mode: Mode, room: Room, entries: seq<seq<byte>>, maxEntries: nat)
      requires RoomOk(room) && EntriesOk(entries, Cap(room), room.max == 0) && maxEntries > 0
      ensures Invariant(Editor(mode, room, EMPTY_LINE, [], false, NO_PASTE,
                               History.Added(entries, maxEntries, []), 0, false))
    {
      EmptyLineGood();
      assert CleanText([]);
      assert forall s :: s in History.Added(entries, maxEntries, []) ==> s in entries || s == [];
    }

    // -------------------------------------------------------------- abstraction

    ghost predicate FoldShape()
      reads this`foldCount, this`origins, foldStart, foldEnd
    {
      && foldStart != foldEnd && foldStart.Length == MAX_FOLDS && foldEnd.Length == MAX_FOLDS
      && foldCount <= MAX_FOLDS && |origins| == foldCount
    }

    ghost predicate TextShape()
      reads this`buf, this`buflen, this`pos, this`len, buf
    {
      && buf.Length == buflen + 1 && pos <= len <= buflen && buf[len] == 0
      && RoomOk(Space()) && buf != pendingKey
    }

    ghost function Space(): Room
      reads this`buflen
    {
      Room(buflen, buflenMax)
    }

    ghost function Folds(): (fs: seq<Fold>)
      requires FoldShape()
      reads this`foldCount, this`origins, foldStart, foldEnd
      ensures |fs| == foldCount
    {
      FoldSeq(foldStart[..foldCount], foldEnd[..foldCount], origins)
    }

    ghost function Text(): seq<byte>
      requires TextShape()
      reads this`buf, this`buflen, this`pos, this`len, buf
    {
      buf[..len]
    }

    ghost function View(): Line
      requires TextShape() && FoldShape()
      reads this`buf, this`buflen, this`pos, this`len, this`foldCount, this`origins, buf, foldStart, foldEnd
    {
      Line(Text(), pos, Folds())
    }

    // ------------------------------------------------------------------- buffer

    /** memmove inside the buffer. */
    method Move(dst: nat, src: nat, n: nat)
      requires dst + n <= buf.Length && src + n <= buf.Length
      modifies buf
      ensures forall i :: dst <= i < dst + n ==> buf[i] == old(buf[i - dst + src])
      ensures forall i :: 0 <= i < buf.Length && !(dst <= i < dst + n) ==> buf[i] == old(buf[i])
    {
      forall i | 0 <= i < n { buf[dst + i] := buf[src + i]; }
    }

    /** memcpy into the buffer. */
    method Copy(dst: nat, c: seq<byte>)
      requires dst + |c| <= buf.Length
      modifies buf
      ensures forall i :: dst <= i < dst + |c| ==> buf[i] == c[i - dst]
      ensures forall i :: 0 <= i < buf.Length && !(dst <= i < dst + |c|) ==> buf[i] == old(buf[i])
    {
      forall i | 0 <= i < |c| { buf[dst + i] := c[i]; }
    }

    method Grow(needed: nat) returns (ok: bool)
      requires TextShape()
      modifies this`buf, this`buflen
      ensures TextShape() && (buf == old(buf) || fresh(buf))
      ensures Text() == old(Text())
      ensures ok <==> needed <= Cap(old(Space()))
      ensures Space() == Grown(old(Space()), needed)
    {
      if needed <= buflen { return true; }
      if buflenMax == 0 || needed > buflenMax { return false; }
      var newlen := if buflen > 0 then buflen else 16;
      while newlen < needed
        invariant 0 < newlen <= buflenMax
        invariant Doubled(buflen, buflenMax, needed) == Doubled(newlen, buflenMax, needed)
        decreases buflenMax - newlen
      {
        if newlen > buflenMax / 2 {
          newlen := buflenMax;
          break;
        }
        newlen := newlen * 2;
      }
      if newlen < needed { return false; }
      var newbuf := new byte[newlen + 1];
      forall i | 0 <= i <= len { newbuf[i] := buf[i]; }
      assert newbuf[..len] == buf[..len];
      buf, buflen := newbuf, newlen;
      return true;
    }

    // -------------------------------------------------------------------- folds

    method FoldRemove(j: nat)
      requires FoldShape() && j < foldCount
      modifies this`foldCount, this`origins, foldStart, foldEnd
      ensures FoldShape()
      ensures foldCount == old(foldCount) - 1
      ensures forall i :: j <= i < foldCount ==>
                foldStart[i] == old(foldStart[i + 1]) && foldEnd[i] == old(foldEnd[i + 1])
      ensures Folds() == old(Folds())[..j] + old(Folds())[j + 1..]
    {
      hide FoldSeq;
      ghost var starts, ends, texts := foldStart[..foldCount], foldEnd[..foldCount], origins;
      forall i | j <= i < foldCount - 1 { foldStart[i] := foldStart[i + 1]; }
      forall i | j <= i < foldCount - 1 { foldEnd[i] := foldEnd[i + 1]; }
      origins := origins[..j] + origins[j + 1..];
      foldCount := foldCount - 1;
      SlotEmptied(starts, ends, texts, foldStart[..foldCount], foldEnd[..foldCount], j);
    }

    lemma FoldsApart()
      requires FoldShape() && Disjoint(Folds())
      ensures forall i :: 0 <= i < foldCount ==> foldStart[i] < foldEnd[i]
    {
      forall i | 0 <= i < foldCount ensures foldStart[i] < foldEnd[i] {
        assert Folds()[i].start < Folds()[i].end;
      }
    }

    /** The progress of an adjusting loop: folds before j are done, the rest still to do. */
    ghost predicate Adjusting(before: seq<Fold>, j: nat, lo: nat, hi: nat, n: nat)
      requires FoldShape() && lo <= hi
      reads this`foldCount, this`origins, foldStart, foldEnd
    {
      && j <= foldCount
      && (forall i :: j <= i < foldCount ==> foldStart[i] < foldEnd[i])
      && Folds()[..j] + Track(Folds()[j..], lo, hi, n) == Track(before, lo, hi, n)
    }

    lemma AdjustingStep(before: seq<Fold>, fs: seq<Fold>, j: nat, lo: nat, hi: nat, n: nat)
      requires j < |fs| && lo <= hi
      requires fs[..j] + Track(fs[j..], lo, hi, n) == Track(before, lo, hi, n)
      ensures Touches(fs[j], lo, hi) ==>
        var gs := fs[..j] + fs[j + 1..]; gs[..j] + Track(gs[j..], lo, hi, n) == Track(before, lo, hi, n)
      ensures !Touches(fs[j], lo, hi) ==>
        var gs := fs[j := Moved(fs[j], lo, hi, n)];
        gs[..j + 1] + Track(gs[j + 1..], lo, hi, n) == Track(before, lo, hi, n)
    {
      hide Track;
      TrackHead(fs[j..], lo, hi, n);
      assert fs[j..][1..] == fs[j + 1..];
      if Touches(fs[j], lo, hi) {
        var gs := fs[..j] + fs[j + 1..];
        assert gs[..j] == fs[..j] && gs[j..] == fs[j + 1..];
      } else {
        var gs := fs[j := Moved(fs[j], lo, hi, n)];
        assert gs[..j + 1] == fs[..j] + [gs[j]] && gs[j + 1..] == fs[j + 1..];
      }
    }

    method ShiftFold(j: nat, d: int)
      requires FoldShape() && j < foldCount && foldStart[j] + d >= 0 && foldEnd[j] + d >= 0
      modifies foldStart, foldEnd
      ensures FoldShape()
      ensures old(Folds())[j].start == old(foldStart[j]) && old(Folds())[j].end == old(foldEnd[j])
      ensures Folds() == old(Folds())[j := Fold(foldStart[j], foldEnd[j], old(Folds())[j].origin)]
      ensures foldStart[j] == old(foldStart[j]) + d && foldEnd[j] == old(foldEnd[j]) + d
      ensures forall i :: 0 <= i < foldCount ==> (foldStart[i] < foldEnd[i]) == old(foldStart[i] < foldEnd[i])
    {
      foldStart[j] := foldStart[j] + d;
      foldEnd[j] := foldEnd[j] + d;
    }

    method AdjustFoldsAfterInsert(p: nat, n: nat)
      requires FoldShape() && Disjoint(Folds())
      modifies this`foldCount, this`origins, foldStart, foldEnd
      ensures FoldShape()
      ensures Folds() == Track(old(Folds()), p, p, n)
    {
      hide Track, FoldSeq;
      FoldsApart();
      ghost var before := Folds();
      assert before[..0] + Track(before[0..], p, p, n) == Track(before, p, p, n) by { assert before[0..] == before; }
      var j := 0;
      while j < foldCount
        invariant FoldShape() && Adjusting(before, j, p, p, n)
        decreases foldCount - j
      {
        ghost var fs := Folds();
        AdjustingStep(before, fs, j, p, p, n);
        assert fs[j] == Fold(foldStart[j], foldEnd[j], origins[j]);
        if p <= foldStart[j] {
          ShiftFold(j, n);
          assert Folds() == fs[j := Moved(fs[j], p, p, n)];
          j := j + 1;
        } else if p < foldEnd[j] {
          FoldRemove(j);
        } else {
          assert Folds() == fs[j := Moved(fs[j], p, p, n)];
          j := j + 1;
        }
      }
      TrackHead([], p, p, n);
      assert Folds()[foldCount..] == [] && Folds()[..foldCount] == Folds();
    }

    method AdjustFoldsAfterDelete(p: nat, n: nat)
      requires FoldShape() && Disjoint(Folds())
      modifies this`foldCount, this`origins, foldStart, foldEnd
      ensures FoldShape()
      ensures Folds() == Track(old(Folds()), p, p + n, 0)
    {
      hide Track, FoldSeq;
      FoldsApart();
      ghost var before := Folds();
      assert before[..0] + Track(before[0..], p, p + n, 0) == Track(before, p, p + n, 0) by {
        assert before[0..] == before;
      }
      var end := p + n;
      var j := 0;
      while j < foldCount
        invariant FoldShape() && Adjusting(before, j, p, end, 0)
        decreases foldCount - j
      {
        ghost var fs := Folds();
        AdjustingStep(before, fs, j, p, end, 0);
        assert fs[j] == Fold(foldStart[j], foldEnd[j], origins[j]);
        if end <= foldStart[j] {
          ShiftFold(j, 0 - n);
          assert Folds() == fs[j := Moved(fs[j], p, end, 0)];
          j := j + 1;
        } else if p >= foldEnd[j] {
          assert Folds() == fs[j := Moved(fs[j], p, end, 0)];
          j := j + 1;
        } else {
          FoldRemove(j);
        }
      }
      TrackHead([], p, end, 0);
      assert Folds()[foldCount..] == [] && Folds()[..foldCount] == Folds();
    }

    /** Puts a fold into its slot: those that start later move up by one. */
    method FoldSlot(start: nat, end: nat) returns (j: nat)
      requires FoldShape() && foldCount < MAX_FOLDS
      modifies foldStart, foldEnd
      ensures j <= foldCount && foldStart[j] == start && foldEnd[j] == end
      ensures j > 0 ==> old(foldStart[j - 1]) <= start
      ensures forall i :: j <= i < foldCount ==> start < old(foldStart[i])
      ensures forall i :: 0 <= i < j ==> foldStart[i] == old(foldStart[i]) && foldEnd[i] == old(foldEnd[i])
      ensures forall i :: j < i <= foldCount ==> foldStart[i] == old(foldStart[i - 1])
      ensures forall i :: j < i <= foldCount ==> foldEnd[i] == old(foldEnd[i - 1])
    {
      j := foldCount;
      while j > 0 && start < foldStart[j - 1]
        invariant 0 <= j <= foldCount
        invariant forall i :: j <= i < foldCount ==> start < old(foldStart[i])
        invariant forall i :: 0 <= i < j ==> foldStart[i] == old(foldStart[i]) && foldEnd[i] == old(foldEnd[i])
        invariant forall i :: j < i <= foldCount ==> foldStart[i] == old(foldStart[i - 1])
        invariant forall i :: j < i <= foldCount ==> foldEnd[i] == old(foldEnd[i - 1])
      {
        foldStart[j] := foldStart[j - 1];
        foldEnd[j] := foldEnd[j - 1];
        j := j - 1;
      }
      foldStart[j] := start;
      foldEnd[j] := end;
    }

    method FoldAdd(start: nat, end: nat, ghost origin: seq<byte>)
      requires FoldShape()
      modifies this`foldCount, this`origins, foldStart, foldEnd
      ensures FoldShape()
      ensures Folds() == FoldAdded(old(Folds()), Fold(start, end, origin))
    {
      if start >= end || foldCount == MAX_FOLDS { return; }
      ghost var fs, f := Folds(), Fold(start, end, origin);
      assert FoldAdded(fs, f) == FoldInserted(fs, f);
      hide FoldAdded, FoldInserted, FoldSeq;
      ghost var starts, ends, texts := foldStart[..foldCount], foldEnd[..foldCount], origins;
      var j := FoldSlot(start, end);
      FoldInsertedAt(fs, f, j);
      foldCount := foldCount + 1;
      origins := origins[..j] + [origin] + origins[j..];
      ghost var starts', ends' := foldStart[..foldCount], foldEnd[..foldCount];
      assert forall i :: 0 <= i < j ==> starts'[i] == starts[i] && ends'[i] == ends[i];
      assert forall i :: j < i < |starts'| ==> starts'[i] == starts[i - 1] && ends'[i] == ends[i - 1];
      SlotFilled(starts, ends, texts, starts', ends', j, f);
    }

    method FoldClear()
      requires FoldShape()
      modifies this`foldCount, this`origins
      ensures FoldShape() && Folds() == []
    {
      foldCount := 0;
      origins := [];
    }

    method RangeOverlapsFold(p: nat, n: nat) returns (r: bool)
      requires FoldShape()
      ensures r <==> exists i :: 0 <= i < foldCount && Touches(Folds()[i], p, p + n)
    {
      var end := p + n;
      var j := 0;
      while j < foldCount
        invariant 0 <= j <= foldCount
        invariant forall i :: 0 <= i < j ==> !Touches(Folds()[i], p, end)
      {
        if end > foldStart[j] && p < foldEnd[j] {
          assert Touches(Folds()[j], p, end);
          return true;
        }
        j := j + 1;
      }
      return false;
    }

    // ----------------------------------------------------------------- insertion

    /** The line is in order: its value is good. */
    ghost predicate Ready()
      reads this`buf, this`buflen, this`pos, this`len, this`foldCount, this`origins, buf, foldStart, foldEnd
    {
      TextShape() && FoldShape() && Good(View())
    }

    /** Puts c at the cursor and closes the line with its NUL; the room is already there. */
    method PutText(c: seq<byte>)
      requires TextShape() && len + |c| <= buflen
      modifies this`pos, this`len, buf
      ensures TextShape() && pos == old(pos) + |c|
      ensures Text() == old(Text())[..old(pos)] + c + old(Text())[old(pos)..]
    {
      ghost var t := Text();
      OpenGap(|c|);
      Copy(pos, c);
      pos := pos + |c|;
      len := len + |c|;
      buf[len] := 0;
      ghost var goal := t[..old(pos)] + c + t[old(pos)..];
      assert forall i :: 0 <= i < len ==> buf[i] == goal[i];
    }

    /** Moves the text behind the cursor up by n, when there is any. */
    method OpenGap(n: nat)
      requires TextShape() && len + n <= buflen
      modifies buf
      ensures forall i :: 0 <= i < pos ==> buf[i] == old(buf[i])
      ensures forall i :: pos + n <= i < len + n ==> buf[i] == old(buf[i - n])
    {
      if len != pos { Move(pos + n, pos, len - pos); }
    }

    method InsertNoRefresh(c: seq<byte>) returns (ok: bool)
      requires Ready()
      modifies this`buf, this`buflen, this`pos, this`len, this`foldCount, this`origins, buf, foldStart, foldEnd
      ensures TextShape() && FoldShape() && (buf == old(buf) || fresh(buf))
      ensures ok <==> old(len) + |c| <= Cap(old(Space()))
      ensures Space() == Grown(old(Space()), old(len) + |c|)
      ensures View() == if ok then Insert(old(View()), c) else old(View())
    {
      hide Track, Doubled, WellFormed;
      var at := pos;
      ok := Grow(len + |c|);
      if !ok { return; }
      PutText(c);
      AdjustFoldsAfterInsert(at, |c|);
    }

    method EditInsert(c: seq<byte>)
      requires Ready() && CleanText(c)
      modifies this`buf, this`buflen, this`pos, this`len, this`foldCount, this`origins, buf, foldStart, foldEnd
      ensures Ready() && (buf == old(buf) || fresh(buf))
      ensures Space() == Grown(old(Space()), old(len) + |c|)
      ensures View() == if old(len) + |c| <= Cap(old(Space())) then Insert(old(View()), c) else old(View())
    {
      ghost var l := View();
      var ok := InsertNoRefresh(c);
      if ok { InsertGood(l, c); }
    }

    // -------------------------------------------------------------- cursor steps

    method EditNextLen(p: nat) returns (n: nat)
      requires Ready() && p <= len
      ensures n == NextLen(View(), mask, p)
    {
      hide WellFormed, Decode, NextCluster;
      if !mask {
        var j := 0;
        while j < foldCount
          invariant 0 <= j <= foldCount
          invariant forall i :: 0 <= i < j ==> Folds()[i].start != p
        {
          if foldStart[j] == p {
            assert Folds()[j].start == p;
            return foldEnd[j] - foldStart[j];
          }
          j := j + 1;
        }
      }
      if p >= len { return 0; }
      n := NextGrapheme(buf[p..len]);
      assert buf[p..len] == Text()[p..];
      if n == 0 { n := 1; }
    }

    method EditPrevLen(p: nat) returns (n: nat)
      requires Ready() && p <= len
      ensures n == PrevLen(View(), mask, p)
    {
      hide WellFormed, PrevCluster;
      if !mask {
        var j := 0;
        while j < foldCount
          invariant 0 <= j <= foldCount
          invariant forall i :: 0 <= i < j ==> Folds()[i].end != p
        {
          if foldEnd[j] == p {
            assert Folds()[j].end == p;
            return foldEnd[j] - foldStart[j];
          }
          j := j + 1;
        }
      }
      n := PrevCharLen(buf[..len], p);
    }

    method EditMoveLeft()
      requires Ready()
      modifies this`pos
      ensures Ready() && View() == MoveLeft(old(View()), mask)
    {
      hide WellFormed, FoldsOk, Tail, FoldSeq, PrevLen, NextLen, Splice;
      StepsGood(View(), mask);
      if pos > 0 {
        PrevLenStops(View(), mask, pos);
        var n := EditPrevLen(pos);
        pos := pos - n;
      }
    }

    method EditMoveRight()
      requires Ready()
      modifies this`pos
      ensures Ready() && View() == MoveRight(old(View()), mask)
    {
      hide WellFormed, FoldsOk, Tail, FoldSeq, PrevLen, NextLen, Splice;
      StepsGood(View(), mask);
      if pos != len {
        NextLenStops(View(), mask, pos);
        var n := EditNextLen(pos);
        pos := pos + n;
      }
    }

    method EditMoveHome()
      requires Ready()
      modifies this`pos
      ensures Ready() && View() == old(View()).(pos := 0)
    {
      HomeEndGood(View());
      if pos != 0 { pos := 0; }
    }

    method EditMoveEnd()
      requires Ready()
      modifies this`pos
      ensures Ready() && View() == old(View()).(pos := |old(View()).text|)
    {
      HomeEndGood(View());
      if pos != len { pos := len; }
    }

    // ------------------------------------------------------------------ deletion

    /** Takes the bytes from p to p + n out of the text and closes the line with its NUL. */
    method CutText(p: nat, n: nat)
      requires TextShape() && p + n <= len && (pos <= p || p + n <= pos)
      modifies this`len, this`pos, buf
      ensures TextShape() && pos == p
      ensures Text() == old(Text())[..p] + old(Text())[p + n..]
    {
      ghost var t := Text();
      Move(p, p + n, len - p - n);
      assert forall i :: p <= i < len - n ==> buf[i] == t[i + n];
      pos := p;
      len := len - n;
      buf[len] := 0;
      ghost var u := buf[..len];
      assert forall i :: 0 <= i < p ==> u[i] == t[i];
      CutIs(t, u, p, n);
    }

    static lemma CutIs(t: seq<byte>, u: seq<byte>, p: nat, n: nat)
      requires p + n <= |t| == |u| + n
      requires forall i :: 0 <= i < p ==> u[i] == t[i]
      requires forall i :: p <= i < |u| ==> u[i] == t[i + n]
      ensures u == t[..p] + t[p + n..]
    {
    }

    /** The common part of all deletions: folds first, then the bytes. */
    method Cut(p: nat, n: nat)
      requires Ready() && p + n <= len && (pos <= p || p + n <= pos)
      requires Boundary(Text(), p) && Boundary(Text(), p + n)
      modifies this`pos, this`len, this`foldCount, this`origins, buf, foldStart, foldEnd
      ensures Ready() && View() == Splice(old(View()), p, p + n, [])
    {
      hide Track, WellFormed, Tail, FoldSeq;
      ghost var l := View();
      CutGood(l, p, p + n);
      AdjustFoldsAfterDelete(p, n);
      CutText(p, n);
      assert l.text[..p] + [] == l.text[..p];
    }

    method EditDelete()
      requires Ready()
      modifies this`pos, this`len, this`foldCount, this`origins, buf, foldStart, foldEnd
      ensures Ready() && View() == Delete(old(View()), mask)
    {
      hide WellFormed, FoldsOk, Tail, FoldSeq, PrevLen, NextLen, Splice;
      if len > 0 && pos < len {
        NextLenStops(View(), mask, pos);
        var clen := EditNextLen(pos);
        Cut(pos, clen);
      }
    }

    method EditBackspace()
      requires Ready()
      modifies this`pos, this`len, this`foldCount, this`origins, buf, foldStart, foldEnd
      ensures Ready() && View() == Backspace(old(View()), mask)
    {
      hide WellFormed, FoldsOk, Tail, FoldSeq, PrevLen, NextLen, Splice;
      if pos > 0 && len > 0 {
        PrevLenStops(View(), mask, pos);
        var clen := EditPrevLen(pos);
        Cut(pos - clen, clen);
      }
    }

    method EditDeletePrevWord()
      requires Ready()
      modifies this`pos, this`len, this`foldCount, this`origins, buf, foldStart, foldEnd
      ensures Ready() && View() == DeletePrevWord(old(View()), mask)
    {
      hide WellFormed, FoldsOk, Tail, FoldSeq, SkipBack, Track;
      ghost var l := View();
      var oldPos := pos;
      SkipWhile(true);
      SkipBackOfPos(l, mask, false, pos, pos);
      SkipWhile(false);
      var diff := oldPos - pos;
      assert Splice(View(), pos, oldPos, []) == Splice(l, pos, oldPos, []);
      Cut(pos, diff);
    }

    /** Steps left while the byte before the cursor is a space, or while it is not. */
    method SkipWhile(spaces: bool)
      requires Ready()
      modifies this`pos
      ensures Ready() && pos <= old(pos)
      ensures View() == old(View()).(pos := pos) && pos == SkipBack(old(View()), mask, spaces, old(pos))
    {
      hide WellFormed, Tail, PrevLen;
      ghost var l := View();
      while pos > 0 && (buf[pos - 1] == SPACE) == spaces
        invariant Ready() && pos <= old(pos) && View() == l.(pos := pos)
        invariant SkipBack(l, mask, spaces, old(pos)) == SkipBack(l, mask, spaces, pos)
      {
        PrevLenStops(View(), mask, pos);
        PrevLenOfPos(l, mask, pos);
        var n := EditPrevLen(pos);
        pos := pos - n;
      }
    }

    method EditKillToEnd()
      requires Ready()
      modifies this`pos, this`len, this`foldCount, this`origins, buf, foldStart, foldEnd
      ensures Ready() && View() == KillToEnd(old(View()))
    {
      EndBoundary(Text());
      Cut(pos, len - pos);
    }

    method ClearLine()
      requires TextShape() && FoldShape()
      modifies this`pos, this`len, this`foldCount, this`origins, buf
      ensures Ready() && View() == EMPTY_LINE
    {
      buf[0] := 0;
      pos, len := 0, 0;
      FoldClear();
      EmptyLineGood();
    }

    method EditTranspose()
      requires Ready()
      modifies this`pos, buf
      ensures Ready() && View() == Transpose(old(View()), mask)
    {
      hide Good, FoldSeq, PrevLen, NextLen, CanTranspose;
      ghost var l := View();
      TransposeGood(l, mask);
      var prevlen, currlen, go := SwapSizes();
      if go { SwapText(pos - prevlen, prevlen, currlen); }
    }

    /** The two clusters around the cursor, and whether they may trade places. */
    method SwapSizes() returns (prevlen: nat, currlen: nat, go: bool)
      requires Ready()
      ensures go <==> CanTranspose(View(), mask)
      ensures go ==> prevlen == PrevLen(View(), mask, pos) <= pos && currlen == NextLen(View(), mask, pos) <= len - pos
    {
      hide WellFormed, FoldsOk, Tail, FoldSeq, PrevLen, NextLen, Touches;
      if pos == 0 || pos >= len { return 0, 0, false; }
      NextLenStops(View(), mask, pos);
      PrevLenStops(View(), mask, pos);
      prevlen := EditPrevLen(pos);
      currlen := EditNextLen(pos);
      if prevlen > 32 || currlen > 32 { return prevlen, currlen, false; }
      var overlaps := RangeOverlapsFold(pos - prevlen, prevlen + currlen);
      return prevlen, currlen, !overlaps;
    }

    /** Exchanges the bytes from a to p with those from p to b, by way of a scratch buffer. */
    method SwapBytes(a: nat, p: nat, b: nat)
      requires a <= p <= b <= buf.Length
      modifies buf
      ensures buf[..] == Exchange(old(buf[..]), a, p, b)
    {
      ghost var t := buf[..];
      var tmp := buf[p..b];
      Move(a + b - p, a, p - a);
      Copy(a, tmp);
      SwappedAt(t, buf[..], a, p, b);
    }

    static lemma SwappedAt(t: seq<byte>, u: seq<byte>, a: nat, p: nat, b: nat)
      requires a <= p <= b <= |t| == |u|
      requires forall i :: a <= i < a + b - p ==> u[i] == t[i - a + p]
      requires forall i :: a + b - p <= i < b ==> u[i] == t[i - b + p]
      requires forall i :: 0 <= i < |t| && !(a <= i < b) ==> u[i] == t[i]
      ensures u == Exchange(t, a, p, b)
    {
    }

    /** Where a byte of the swapped text comes from. */
    static lemma SwappedFrom(t: seq<byte>, a: nat, p: nat, b: nat, k: nat)
      requires a <= p <= b <= |t| && k < |t|
      ensures a <= k < a + (b - p) ==> Exchange(t, a, p, b)[k] == t[k + (p - a)]
      ensures a + (b - p) <= k < b ==> Exchange(t, a, p, b)[k] == t[k - (b - p)]
      ensures k < a || b <= k ==> Exchange(t, a, p, b)[k] == t[k]
    {
    }

    static lemma SwappedPart(t: seq<byte>, n: nat, a: nat, p: nat, b: nat)
      requires a <= p <= b <= n <= |t|
      ensures Exchange(t, a, p, b)[..n] == Exchange(t[..n], a, p, b)
      ensures n < |t| ==> Exchange(t, a, p, b)[n] == t[n]
    {
      hide Exchange;
      forall k | 0 <= k < n ensures Exchange(t, a, p, b)[k] == Exchange(t[..n], a, p, b)[k] {
        SwappedFrom(t, a, p, b, k);
        SwappedFrom(t[..n], a, p, b, k);
      }
      if n < |t| { SwappedFrom(t, a, p, b, n); }
    }

    method SwapText(prevstart: nat, prevlen: nat, currlen: nat)
      requires TextShape() && prevstart + prevlen == pos && pos + currlen <= len
      modifies this`pos, buf
      ensures TextShape() && pos == old(pos) + currlen
      ensures Text() == Exchange(old(Text()), prevstart, old(pos), old(pos) + currlen)
    {
      hide Exchange;
      ghost var t := buf[..];
      SwappedPart(t, len, prevstart, pos, pos + currlen);
      assert t[..len] == buf[..len];
      SwapBytes(prevstart, pos, pos + currlen);
      assert buf[..][..len] == buf[..len];
      assert buf[..][len] == buf[len];
      if pos + currlen <= len { pos := pos + currlen; }
    }

    // --------------------------------------------------------- the whole editor

    ghost predicate Shape()
      reads this, buf, foldStart, foldEnd
    {
      && TextShape() && FoldShape()
      && pendingKey.Length == PENDING_SIZE && pendingLen < PENDING_SIZE
      && pasteMatch < END_LEN && |pasteBuf| <= pasteCap <= PASTE_MAX_BYTES
      && (!pasteActive ==> PasteState() == NO_PASTE)
    }

    ghost function PasteState(): Paste
      reads this`pasteBuf, this`pasteMatch, this`pasteOverflowed
    {
      Paste(pasteBuf, pasteMatch, pasteOverflowed)
    }

    ghost function Pending(): seq<byte>
      requires pendingLen <= pendingKey.Length
      reads this`pendingLen, pendingKey
    {
      pendingKey[..pendingLen]
    }

    ghost function State(): Editor
      requires Shape()
      reads this, buf, foldStart, foldEnd, pendingKey
    {
      Editor(Mode(mask, multiline), Space(), View(), Pending(),
             pasteActive, PasteState(), history, historyIndex, done)
    }

    ghost predicate Valid()
      reads this, buf, foldStart, foldEnd, pendingKey
    {
      Shape() && Invariant(State())
    }

    // --------------------------------------------------------------------- paste

    /** Makes the paste buffer hold len + need bytes, doubling up to the limit. */
    method PasteReserve(need: nat) returns (ok: bool)
      requires need + |pasteBuf| >= 0 && |pasteBuf| <= pasteCap <= PASTE_MAX_BYTES
      modifies this`pasteCap
      ensures |pasteBuf| <= pasteCap <= PASTE_MAX_BYTES
      ensures ok <==> |pasteBuf| + need <= PASTE_MAX_BYTES
      ensures ok ==> |pasteBuf| + need <= pasteCap
    {
      var total := |pasteBuf| + need;
      if pasteCap >= total { return true; }
      var want := if pasteCap > 0 then pasteCap else 64;
      while want < total
        invariant 0 < want <= PASTE_MAX_BYTES
        decreases PASTE_MAX_BYTES - want
      {
        if want * 2 > PASTE_MAX_BYTES {
          want := PASTE_MAX_BYTES;
          break;
        }
        want := want * 2;
      }
      if want < total { return false; }
      pasteCap := want;
      return true;
    }

    /** Appends to the paste; past the limit the paste is marked as too long instead. */
    method PasteAppend(s: seq<byte>, maxlen: nat)
      requires TextShape() && |pasteBuf| <= maxlen && len + maxlen <= Cap(Space()) && maxlen <= PASTE_MAX_BYTES
      requires |pasteBuf| <= pasteCap <= PASTE_MAX_BYTES && len + |pasteBuf| <= buflen
      modifies this`buf, this`buflen, this`pasteBuf, this`pasteCap, this`pasteOverflowed
      ensures TextShape() && (buf == old(buf) || fresh(buf)) && Text() == old(Text())
      ensures PasteState() == Appended(old(PasteState()), s, maxlen)
      ensures |pasteBuf| <= pasteCap <= PASTE_MAX_BYTES && |pasteBuf| <= maxlen
      ensures Space() == Grown(old(Space()), len + |pasteBuf|)
    {
      hide Doubled;
      if pasteOverflowed { return; }
      if |s| > maxlen - |pasteBuf| {
        pasteOverflowed := true;
        return;
      }
      var needed := |pasteBuf| + |s|;
      var grown := Grow(len + needed);
      var reserved := PasteReserve(|s|);
      if !grown || !reserved {
        pasteOverflowed := true;
        return;
      }
      pasteBuf := pasteBuf + s;
    }

    /** One byte of a paste that does not complete the terminator. */
    method PasteByte(c: byte, maxlen: nat)
      requires TextShape() && pasteMatch < END_LEN && !Completes(PasteState(), c)
      requires |pasteBuf| <= maxlen && len + maxlen <= Cap(Space()) && maxlen <= PASTE_MAX_BYTES
      requires |pasteBuf| <= pasteCap <= PASTE_MAX_BYTES && len + |pasteBuf| <= buflen
      modifies this`buf, this`buflen, this`pasteBuf, this`pasteCap, this`pasteMatch, this`pasteOverflowed
      ensures TextShape() && (buf == old(buf) || fresh(buf)) && Text() == old(Text())
      ensures PasteState() == Collected(old(PasteState()), c, maxlen) && pasteMatch < END_LEN
      ensures |pasteBuf| <= pasteCap <= PASTE_MAX_BYTES
      ensures Space() == Grown(old(Space()), len + |pasteBuf|)
    {
      hide Doubled, EndByte, Piece, Appended, Grown;
      FirstIsEsc();
      if c == EndByte(pasteMatch) {
        pasteMatch := pasteMatch + 1;
        GrownAlready(Space(), len + |pasteBuf|);
        return;
      }
      ghost var room, p := Space(), PasteState();
      FlushedFirst(p, maxlen);
      var matched := pasteMatch;
      pasteMatch := 0;
      if matched > 0 {
        PasteAppend(Piece(matched), maxlen);
        if c == EndByte(0) {
          pasteMatch := 1;
          return;
        }
      } else {
        GrownAlready(room, len + |pasteBuf|);
      }
      ghost var mid := len + |pasteBuf|;
      PasteAppend([c], maxlen);
      GrownTwice(room, mid, len + |pasteBuf|);
    }

    /** Inserts accepted paste text; text that is long or has several lines is folded. */
    method PasteInsert(s: seq<byte>)
      requires Ready() && CleanText(s)
      modifies this`buf, this`buflen, this`pos, this`len, this`foldCount, this`origins, buf, foldStart, foldEnd
      ensures TextShape() && FoldShape() && (buf == old(buf) || fresh(buf))
      ensures Space() == Grown(old(Space()), len)
      ensures View() ==
        if old(len) + |s| > Cap(old(Space())) then old(View())
        else if !mask && ShouldFoldText(s) then InsertFolded(old(View()), s)
        else Insert(old(View()), s)
    {
      hide Good, Doubled, Track, FoldAdded, CleanText, ShouldFoldText, FoldSeq;
      if !mask && ShouldFoldText(s) {
        var start := pos;
        var inserted := InsertNoRefresh(s);
        if !inserted { return; }
        FoldAdd(start, start + |s|, s);
      } else {
        EditInsert(s);
      }
    }

    /** What becomes of a whole paste: normalised, checked, and inserted if there is room. */
    method PasteAccept(content: seq<byte>, overflowed: bool)
      requires Ready()
      modifies this`buf, this`buflen, this`pos, this`len, this`foldCount, this`origins, buf, foldStart, foldEnd
      ensures TextShape() && FoldShape() && (buf == old(buf) || fresh(buf))
      ensures View() == Pasted(old(View()), content, overflowed, Cap(old(Space())), mask)
      ensures Space() == Grown(old(Space()), len)
    {
      hide Good, PasteOk, Doubled, Insert, InsertFolded, ShouldFoldText, FoldSeq;
      if overflowed || |content| == 0 { return; }
      var s := PasteNormalize(content);
      var ok := PasteCheck(s);
      if ok {
        PasteOkClean(s);
        PasteInsert(s);
      }
    }

    method PasteNormalize(content: seq<byte>) returns (s: seq<byte>)
      ensures s == Normalized(content)
    {
      var a := new byte[|content|];
      forall i | 0 <= i < |content| { a[i] := content[i]; }
      assert a[..|content|] == content;
      var w := NormalizeInPlace(a, |content|);
      s := a[..w];
    }

    /** The terminator is complete: the paste is over, and its text goes into the line if it can. */
    method PasteFinish()
      requires Ready()
      modifies this`pasteBuf, this`pasteCap, this`pasteMatch, this`pasteActive, this`pasteOverflowed
      modifies this`buf, this`buflen, this`pos, this`len, this`foldCount, this`origins, buf, foldStart, foldEnd
      ensures TextShape() && FoldShape() && (buf == old(buf) || fresh(buf))
      ensures PasteState() == NO_PASTE && !pasteActive && pasteCap == 0
      ensures View() == Pasted(old(View()), old(pasteBuf), old(pasteOverflowed), Cap(old(Space())), mask)
      ensures Space() == Grown(old(Space()), len)
    {
      hide Good, Pasted, FoldSeq;
      var content, overflowed := pasteBuf, pasteOverflowed;
      pasteBuf, pasteCap, pasteMatch := [], 0, 0;
      pasteActive, pasteOverflowed := false, false;
      PasteAccept(content, overflowed);
    }

    /** One byte while a paste is read. */
    method PasteTake(c: byte, maxlen: nat)
      requires Valid() && pasteActive && !done && maxlen == PasteLimit(len, Cap(Space()), foldCount)
      modifies this`pasteBuf, this`pasteCap, this`pasteMatch, this`pasteActive, this`pasteOverflowed
      modifies this`buf, this`buflen, this`pos, this`len, this`foldCount, this`origins, buf, foldStart, foldEnd
      ensures Shape() && (buf == old(buf) || fresh(buf))
      ensures State() == PasteKey(old(State()), c)
    {
      hide Good, Pasted, Doubled, Collected, EndByte, EntriesOk, PendingOk, FoldSeq;
      if pasteMatch == END_LEN - 1 && c == EndByte(END_LEN - 1) {
        PasteFinish();
      } else {
        CollectedWithin(PasteState(), c, maxlen);
        PasteByte(c, maxlen);
      }
    }

    /** Reads paste bytes until the terminator or until there are no more; `used` says how many. */
    method EditPaste(input: seq<byte>) returns (used: nat, ended: bool)
      requires Valid() && !done
      modifies this, buf, foldStart, foldEnd
      ensures Valid() && (buf == old(buf) || fresh(buf))
      ensures used <= |input| && (!ended ==> used == |input|) && ended == !pasteActive
      ensures Invariant(old(State()).(pasting := true))
      ensures State() == RunBytes(old(State()).(pasting := true), input[..used])
    {
      hide Invariant, Step, RunBytes, PasteKey, Folds, Completes;
      PasteMayStart(State());
      pasteActive := true;
      ghost var e := State();
      used := 0;
      ended := false;
      var maxlen := PasteRoom();
      assert State() == RunBytes(e, input[..0]) by { RunNothing(e); assert input[..0] == []; }
      while used < |input| && !ended
        invariant Valid() && !done && used <= |input| && ended == !pasteActive
        invariant buf == old(buf) || fresh(buf)
        invariant State() == RunBytes(e, input[..used])
        invariant pasteActive ==> maxlen == PasteLimit(len, Cap(Space()), foldCount)
      {
        var c := input[used];
        RunBytesSnoc(e, input, used);
        PastingStep(State(), c);
        StepGood(State(), c);
        PasteLimitSame(State(), c);
        PasteTake(c, maxlen);
        used := used + 1;
        ended := !pasteActive;
      }
    }

    method PasteRoom() returns (maxlen: nat)
      requires TextShape() && FoldShape()
      ensures maxlen == PasteLimit(len, Cap(Space()), foldCount)
    {
      var room := if buflenMax > 0 then buflenMax else buflen;
      maxlen := if room > len then room - len else 0;
      if maxlen > PASTE_MAX_BYTES { maxlen := PASTE_MAX_BYTES; }
      if foldCount == MAX_FOLDS { maxlen := 0; }
    }

    // ------------------------------------------------------------------- history

    /** The fold to show a recalled line with, if it needs one. */
    method BuildHistoryFold() returns (some: bool, start: nat, end: nat)
      requires TextShape()
      ensures some ==> start < end <= len
      ensures HistoryFolds(Text(), mask) == if some then [Fold(start, end, Text()[start..end])] else []
    {
      hide ContextAhead, ContextBehind, CountLines;
      if len == 0 || mask { return false, 0, 0; }
      var lines := FoldCountLines(buf[..len]);
      var should := if lines <= 1 then len >= HISTORY_FOLD_THRESHOLD
                    else len >= HISTORY_FOLD_THRESHOLD || lines >= HISTORY_FOLD_MULTILINE_LINES;
      if !should { return false, 0, 0; }
      start, end := 0, len;
      if len > HISTORY_FOLD_CONTEXT * 2 {
        var a, nlA := FindContextAhead(buf[..len]);
        start := if nlA then 0 else a;
        var b, nlB := FindContextBehind(buf[..len]);
        end := if nlB then len else b;
        if start >= end { start, end := 0, len; }
      }
      some := true;
    }

    /** As much of an entry as there is room for, with the cursor at its end. */
    method Refill(src: seq<byte>)
      requires TextShape()
      modifies this`buf, this`buflen, this`pos, this`len, buf
      ensures TextShape() && (buf == old(buf) || fresh(buf))
      ensures Space() == Grown(old(Space()), |src|)
      ensures Text() == (if |src| > buflen then src[..buflen] else src) && pos == len
    {
      hide Doubled;
      var n := |src|;
      var ok := Grow(n);
      if !ok && n > buflen { n := buflen; }
      Copy(0, src[..n]);
      buf[n] := 0;
      len, pos := n, n;
      assert buf[..len] == src[..n];
      assert src[..|src|] == src;
    }

    /** Shows an entry, cut to the buffer if it does not fit, with the fold it needs. */
    method ShowEntry(src: seq<byte>)
      requires TextShape() && FoldShape()
      modifies this`buf, this`buflen, this`pos, this`len, this`foldCount, this`origins, buf, foldStart, foldEnd
      ensures TextShape() && FoldShape() && (buf == old(buf) || fresh(buf))
      ensures Space() == Grown(old(Space()), |src|)
      ensures View() == Recalled(if |src| > buflen then src[..buflen] else src, mask)
    {
      hide HistoryFolds, Grown;
      Refill(src);
      FoldClear();
      var some, start, end := BuildHistoryFold();
      if some { FoldAdd(start, end, Text()[start..end]); }
    }

    /** Saves the line in the history and moves the index, if there is an entry to move to. */
    method HistoryStep(older: bool) returns (moved: bool)
      requires Shape() && historyIndex < |history|
      modifies this`history, this`historyIndex
      ensures Shape() && moved == CanMove(old(State()), older)
      ensures State() == HistorySaved(old(State()), older)
    {
      hide View, Pending, RoomOk;
      var n := |history|;
      SavedText();
      history := history[n - 1 - historyIndex := buf[..len]];
      if older {
        if historyIndex + 1 >= n { return false; }
        historyIndex := historyIndex + 1;
      } else {
        if historyIndex == 0 { return false; }
        historyIndex := historyIndex - 1;
      }
      return true;
    }

    lemma SavedText()
      requires Shape()
      ensures View().text == buf[..len]
    {
    }

    method EditHistoryNext(older: bool)
      requires Shape() && historyIndex < |history|
      modifies this`history, this`historyIndex
      modifies this`buf, this`buflen, this`pos, this`len, this`foldCount, this`origins, buf, foldStart, foldEnd
      ensures Shape() && (buf == old(buf) || fresh(buf))
      ensures State() == HistoryMoved(old(State()), older)
    {
      hide View, Pending, WithEntry, HistorySaved, CanMove;
      if |history| > 1 {
        var moved := HistoryStep(older);
        if moved { ShowAt(); }
      }
    }

    /** Shows the entry at the index. */
    method ShowAt()
      requires Shape() && historyIndex < |history|
      modifies this`buf, this`buflen, this`pos, this`len, this`foldCount, this`origins, buf, foldStart, foldEnd
      ensures Shape() && (buf == old(buf) || fresh(buf))
      ensures State() == WithEntry(old(State()), history[|history| - 1 - historyIndex])
    {
      hide Recalled, Grown, FoldSeq;
      ShowEntry(history[|history| - 1 - historyIndex]);
    }

    // ---------------------------------------------------------------------- keys

    /** A command that only changes the line. */
    method DoLine(k: Command)
      requires Valid() && !done && !pasteActive
      requires k.Left? || k.Right? || k.Home? || k.End? || k.DeleteRight? || k.DeleteLeft? || k.DeleteWord?
               || k.DeleteToEnd? || k.DeleteAll? || k.Swap?
      modifies this`pos, this`len, this`foldCount, this`origins, buf, foldStart, foldEnd
      ensures Shape() && State() == Apply(old(State()), k)
    {
      hide Good, MoveLeft, MoveRight, Delete, Backspace, DeletePrevWord, KillToEnd, Transpose, FoldSeq, Pending,
        EntriesOk, PendingOk, View, PasteState;
      match k
      case Left => EditMoveLeft();
      case Right => EditMoveRight();
      case Home => EditMoveHome();
      case End => EditMoveEnd();
      case DeleteRight => EditDelete();
      case DeleteLeft => EditBackspace();
      case DeleteWord => EditDeletePrevWord();
      case DeleteToEnd => EditKillToEnd();
      case DeleteAll => ClearLine();
      case Swap => EditTranspose();
    }

    method DoText(c: seq<byte>)
      requires Valid() && !done && !pasteActive && CleanText(c)
      modifies this`buf, this`buflen, this`pos, this`len, this`foldCount, this`origins, buf, foldStart, foldEnd
      ensures Shape() && (buf == old(buf) || fresh(buf)) && State() == Typed(old(State()), c)
    {
      hide Good, Insert, FoldSeq, Pending, EntriesOk, PendingOk, Doubled, CleanText;
      CursorInLine(State());
      EditInsert(c);
    }

    method Do(k: Command)
      requires Valid() && !done && !pasteActive && CommandOk(k)
      modifies this`history, this`historyIndex, this`pasteActive
      modifies this`buf, this`buflen, this`pos, this`len, this`foldCount, this`origins, buf, foldStart, foldEnd
      ensures Shape() && (buf == old(buf) || fresh(buf)) && State() == Apply(old(State()), k)
    {
      CursorInLine(State());
      hide Good, HistoryMoved, Typed, View, Pending, MoveLeft, MoveRight, Delete, Backspace, DeletePrevWord,
        KillToEnd, Transpose, CleanText, Invariant;
      match k
      case Older => EditHistoryNext(true);
      case Newer => EditHistoryNext(false);
      case Text(c) => DoText(c);
      case BeginPaste => pasteActive := true;
      case Nothing =>
      case _ => DoLine(k);
    }

    /** Gives up the line's place in the history; the session is over. */
    method Finish(toEnd: bool)
      requires Valid() && !done && !pasteActive
      modifies this`history, this`done, this`pos
      ensures Shape()
      ensures State() == old(State()).(history := old(history)[..|old(history)| - 1], done := true,
                line := if toEnd then old(View()).(pos := |old(View()).text|) else old(View()))
    {
      CursorInLine(State());
      hide Good, FoldSeq, Pending, Invariant;
      history := history[..|history| - 1];
      done := true;
      if toEnd { pos := len; }
    }

    /** A key of one byte. */
    method PlainByte(c: byte) returns (r: Outcome)
      requires Valid() && !done && !pasteActive && pendingLen == 0
      modifies this`history, this`historyIndex, this`pasteActive, this`done
      modifies this`buf, this`buflen, this`pos, this`len, this`foldCount, this`origins, buf, foldStart, foldEnd
      ensures Shape() && (buf == old(buf) || fresh(buf)) && (State(), r) == PlainKey(old(State()), c)
    {
      PendingEmpty();
      SavedText();
      hide Good, Apply, View, Pending, Invariant, ByteCommand, CommandOk;
      if c == 13 {
        r := Submitted(buf[..len]);
        Finish(multiline);
      } else if c == 3 {
        r := Interrupted;
      } else if c == 4 && len == 0 {
        Finish(false);
        r := EndOfFile;
      } else {
        ByteCommandOk(c);
        DeleteRightOk();
        Do(if c == 4 then DeleteRight else ByteCommand(c));
        r := More;
      }
    }

    lemma PendingEmpty()
      requires Shape()
      ensures Pending() == [] <==> pendingLen == 0
    {
    }

    /** A byte that starts a key: it is a key, or the first byte of one. */
    method FreshByte(c: byte) returns (r: Outcome)
      requires Valid() && !done && !pasteActive && pendingLen == 0
      modifies this`history, this`historyIndex, this`pasteActive, this`done, this`pendingLen, pendingKey
      modifies this`buf, this`buflen, this`pos, this`len, this`foldCount, this`origins, buf, foldStart, foldEnd
      ensures Shape() && (buf == old(buf) || fresh(buf)) && (State(), r) == FreshKey(old(State()), c)
    {
      PendingEmpty();
      hide Good, PlainKey, FoldSeq, Invariant, Typed, CleanText, View;
      if c == ESC || c >= 0xC2 {
        if c > 0xF4 {
          ReplacementClean();
          DoText(REPLACEMENT_BYTES);
        } else {
          pendingKey[0] := c;
          pendingLen := 1;
          assert Pending() == [c];
        }
        return More;
      }
      r := PlainByte(c);
    }

    method PendingClear()
      requires Shape()
      modifies this`pendingLen
      ensures Shape() && State() == old(State()).(pending := []) && pendingLen == 0
    {
      pendingLen := 0;
    }

    /** Appends to the half-read key and returns it; a key that fills its buffer is dropped. */
    method PendingTake(c: byte) returns (p: seq<byte>)
      requires Shape()
      modifies this`pendingLen, pendingKey
      ensures Shape() && p == old(Pending()) + [c]
      ensures State() == old(State()).(pending := if |p| == PENDING_SIZE then [] else p)
    {
      pendingKey[pendingLen] := c;
      pendingLen := pendingLen + 1;
      p := pendingKey[..pendingLen];
      if pendingLen == PENDING_SIZE { pendingLen := 0; }
    }

    /** A byte after the first ones of a multi-byte character. */
    method CharByte(c: byte) returns (r: Outcome)
      requires Valid() && !done && !pasteActive && pendingLen > 0 && pendingKey[0] != ESC
      modifies this`history, this`historyIndex, this`pasteActive, this`done, this`pendingLen, pendingKey
      modifies this`buf, this`buflen, this`pos, this`len, this`foldCount, this`origins, buf, foldStart, foldEnd
      ensures Shape() && (buf == old(buf) || fresh(buf)) && (State(), r) == Step(old(State()), c)
    {
      assert CharPending(Pending());
      StepChar(State(), c);
      ReplacementClean();
      hide Invariant, Step, FreshKey, Typed, View, KeyText, CleanText, Pending;
      if !Tail(c) {
        PendingClear();
        DoText(REPLACEMENT_BYTES);
        r := FreshByte(c);
        return;
      }
      r := More;
      var p := PendingTake(c);
      if |p| >= LeadLen(p[0]) {
        PendingClear();
        DoText(KeyText(p));
      }
    }

    /** A byte after ESC, or further on in an escape sequence. */
    method EscapeByte(c: byte) returns (r: Outcome)
      requires Valid() && !done && !pasteActive && pendingLen > 0 && pendingKey[0] == ESC
      modifies this`history, this`historyIndex, this`pasteActive, this`done, this`pendingLen, pendingKey
      modifies this`buf, this`buflen, this`pos, this`len, this`foldCount, this`origins, buf, foldStart, foldEnd
      ensures Shape() && (buf == old(buf) || fresh(buf)) && (State(), r) == Step(old(State()), c)
    {
      assert !CharPending(Pending());
      StepEscape(State(), c);
      hide Invariant, Step, FreshKey, Apply, EscapeCommand, View, CommandOk;
      if pendingLen == 1 && c != 91 && c != 79 {
        PendingClear();
        r := FreshByte(c);
        return;
      }
      hide Pending;
      r := More;
      var p := PendingTake(c);
      if |p| > 2 && 64 <= c <= 126 {
        PendingClear();
        Do(EscapeCommand(p[1..]));
      }
    }

    // ---------------------------------------------------------------------- feed

    /** One byte outside a paste. */
    method KeyByte(c: byte) returns (r: Outcome)
      requires Valid() && !done && !pasteActive
      modifies this, buf, foldStart, foldEnd, pendingKey
      ensures Valid() && (buf == old(buf) || fresh(buf)) && (State(), r) == Step(old(State()), c)
    {
      StepGood(State(), c);
      PendingEmpty();
      if pendingLen == 0 { StepFresh(State(), c); }
      hide Invariant, Step, FreshKey, View;
      if pendingLen > 0 && pendingKey[0] != ESC {
        r := CharByte(c);
      } else if pendingLen > 0 {
        r := EscapeByte(c);
      } else {
        r := FreshByte(c);
      }
    }

    lemma StateFlags()
      requires Shape()
      ensures State().pasting == pasteActive && State().done == done
      ensures pasteActive ==> State().(pasting := true) == State()
      ensures !pasteActive ==> State().paste == NO_PASTE
    {
    }

    /** One call with the bytes that can be read before the reader would block: takes one of them,
        and when that leads into a paste, or a paste is already being read, the rest of the paste.
        Whatever it takes has the effect of as many single steps. */
    method Feed(input: seq<byte>) returns (used: nat, r: Outcome)
      requires Valid() && !done
      modifies this, buf, foldStart, foldEnd, pendingKey
      ensures Valid() && used <= |input| && (input != [] ==> used > 0)
      ensures State() == RunBytes(old(State()), input[..used])
      ensures r == if input == [] || old(pasteActive) then More else Step(old(State()), input[0]).1
      ensures pasteActive ==> used == |input|
    {
      StateFlags();
      hide Invariant, Step, RunBytes, State, Shape;
      used, r := 0, More;
      if pasteActive {
        var ended;
        used, ended := EditPaste(input);
      } else if |input| == 0 {
        RunNothing(State());
      } else {
        used, r := KeyThenPaste(input);
      }
    }

    method KeyThenPaste(input: seq<byte>) returns (used: nat, r: Outcome)
      requires Valid() && !done && !pasteActive && input != []
      modifies this, buf, foldStart, foldEnd, pendingKey
      ensures Valid() && 0 < used <= |input| && r == Step(old(State()), input[0]).1
      ensures State() == RunBytes(old(State()), input[..used])
      ensures pasteActive ==> used == |input|
    {
      StateFlags();
      hide Invariant, Step, RunBytes, State, Shape;
      ghost var e := State();
      KeyRuns(e, input);
      r := KeyByte(input[0]);
      used := 1;
      StateFlags();
      PastingNotDone(e, input[0]);
      if pasteActive {
        var n, ended := EditPaste(input[1..]);
        PasteRuns(e, input, n);
        used := 1 + n;
      }
    }

    lemma KeyRuns(e: Editor, input: seq<byte>)
      requires Invariant(e) && input != [] && !e.done
      ensures RunBytes(e, input[..1]) == Step(e, input[0]).0
    {
      hide Step, Invariant, RunBytes;
      RunOne(e, input[0]);
      assert input[..1] == [input[0]];
    }

    lemma PasteRuns(e: Editor, input: seq<byte>, n: nat)
      requires Invariant(e) && input != [] && n <= |input| - 1
      ensures Invariant(RunBytes(e, input[..1]))
      ensures RunBytes(RunBytes(e, input[..1]), input[1..][..n]) == RunBytes(e, input[..1 + n])
    {
      hide RunBytes, Invariant;
      RunBytesSplit(e, input[..1], input[1..][..n]);
      assert input[..1] + input[1..][..n] == input[..1 + n];
    }

    /** Drops the line, a half-read key and a half-read paste. */
    method EditClear()
      requires Valid()
      modifies this`pos, this`len, this`foldCount, this`origins, this`pendingLen, buf
      modifies this`pasteBuf, this`pasteCap, this`pasteMatch, this`pasteActive, this`pasteOverflowed
      ensures Valid() && State() == Cleared(old(State()))
    {
      hide Invariant, View, Pending, EMPTY_LINE;
      ClearedGood(State());
      PendingClear();
      PasteDrop();
      PendingEmpty();
      ClearLine();
    }

    method PasteDrop()
      modifies this`pasteBuf, this`pasteCap, this`pasteMatch, this`pasteActive, this`pasteOverflowed
      ensures PasteState() == NO_PASTE && pasteCap == 0 && !pasteActive
    {
      pasteBuf, pasteCap, pasteMatch, pasteActive, pasteOverflowed := [], 0, 0, false, false;
    }
  }
}
