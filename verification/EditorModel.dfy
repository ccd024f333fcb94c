/** The whole editor as a value: one input byte at a time, over the line, the half-read key, the
    half-read paste and the history. */
module EditorModel {
  import opened Utf8
  import opened LineModel
  import opened PasteModel

  /** The edit buffer's room: bytes it holds now, and the most it may grow to (0: it may not). */
  datatype Room = Room(buflen: nat, max: nat)

  predicate RoomOk(r: Room) {
    r.max == 0 || 0 < r.buflen <= r.max
  }

  /** Most bytes the line can ever have. */
  function Cap(r: Room): nat {
    if r.max == 0 then r.buflen else r.max
  }

  /** n doubled until it reaches `needed`, but never past max. */
  function Doubled(n: nat, max: nat, needed: nat): (r: nat)
    requires 0 < n <= max && needed <= max
    ensures n <= r <= max && needed <= r
    decreases max - n
  {
    if n >= needed then n else if n > max / 2 then max else Doubled(n * 2, max, needed)
  }

  /** The room once `needed` bytes were asked for: grown if that is possible and necessary. */
  function Grown(r: Room, needed: nat): (g: Room)
    requires RoomOk(r)
    ensures RoomOk(g) && g.max == r.max && Cap(g) == Cap(r) && r.buflen <= g.buflen
    ensures needed <= Cap(r) ==> needed <= g.buflen
  {
    if needed <= r.buflen || needed > Cap(r) then r else Room(Doubled(r.buflen, r.max, needed), r.max)
  }

  /** Growing in two steps ends at the same size as growing at once. */
  lemma {:induction false} DoubledTwice(n: nat, max: nat, a: nat, b: nat)
    requires 0 < n <= max && a <= b <= max
    ensures Doubled(Doubled(n, max, a), max, b) == Doubled(n, max, b)
    decreases max - n
  {
    if n < a && n <= max / 2 { DoubledTwice(n * 2, max, a, b); }
  }

  /** A number doubled k times. */
  function Times(n: nat, k: nat): (r: nat)
    ensures n <= r
    decreases k
  {
    if k == 0 then n else Times(2 * n, k - 1)
  }

  lemma {:induction false} TimesMore(n: nat, k: nat)
    ensures Times(n, k + 1) == 2 * Times(n, k)
    decreases k
  {
    if k > 0 { TimesMore(2 * n, k - 1); }
  }

  /** The size is doubled just often enough, unless the limit comes first. */
  lemma {:induction false} DoublesToFit(n: nat, max: nat, needed: nat, k: nat)
    requires 0 < n <= max && needed <= max
    requires Times(n, k) >= needed && (k > 0 ==> Times(n, k - 1) < needed)
    ensures Doubled(n, max, needed) == if Times(n, k) <= max then Times(n, k) else max
    decreases k
  {
    if k > 0 {
      assert n <= Times(n, k - 1);
      if n <= max / 2 { DoublesToFit(2 * n, max, needed, k - 1); }
    }
  }

  lemma GrownTwice(r: Room, a: nat, b: nat)
    requires RoomOk(r) && a <= b <= Cap(r)
    ensures Grown(Grown(r, a), b) == Grown(r, b)
  {
    if a > r.buflen { DoubledTwice(r.buflen, r.max, a, b); }
  }

  lemma GrownAlready(r: Room, n: nat)
    requires RoomOk(r) && n <= r.buflen
    ensures Grown(r, n) == r
  {
  }

  /** What is fixed while a line is edited. */
  datatype Mode = Mode(mask: bool, multiline: bool)

  datatype Editor = Editor(
    mode: Mode, room: Room, line: Line,
    pending: seq<byte>, pasting: bool, paste: Paste,
    history: seq<seq<byte>>, index: nat, done: bool)

  datatype Outcome = More | Submitted(text: seq<byte>) | Interrupted | EndOfFile

  const REPLACEMENT_BYTES: seq<byte> := [0xEF, 0xBF, 0xBD]
  const PENDING_SIZE: nat := 32

  // ------------------------------------------------------------------------ steps

  /** Insertion at the cursor when there is room, else nothing. */
  function Typed(e: Editor, c: seq<byte>): (r: Editor)
    requires RoomOk(e.room) && e.line.pos <= |e.line.text|
    ensures r.pasting == e.pasting && r.done == e.done && r.pending == e.pending && r.index == e.index
  {
    if |e.line.text| + |c| > Cap(e.room) then e
    else e.(line := Insert(e.line, c), room := Grown(e.room, |e.line.text| + |c|))
  }

  /** An entry shown in place of the line, cut to the buffer if it does not fit. */
  function WithEntry(e: Editor, src: seq<byte>): Editor
    requires RoomOk(e.room)
  {
    var room := Grown(e.room, |src|);
    e.(room := room, line := Recalled(if |src| > room.buflen then src[..room.buflen] else src, e.mode.mask))
  }

  predicate CanMove(e: Editor, older: bool) {
    if older then e.index + 1 < |e.history| else e.index > 0
  }

  /** The line saved in the history, and the index moved if there is an entry to move to. */
  function HistorySaved(e: Editor, older: bool): (r: Editor)
    requires e.index < |e.history|
    ensures |r.history| == |e.history| && r.index < |r.history| && r.room == e.room
  {
    var saved := e.(history := e.history[|e.history| - 1 - e.index := e.line.text]);
    if CanMove(e, older) then saved.(index := if older then e.index + 1 else e.index - 1) else saved
  }

  /** Recall of the previous (older) or next entry. The entry shown so far is saved first, also
      when there is nowhere to go. */
  function HistoryMoved(e: Editor, older: bool): (r: Editor)
    requires RoomOk(e.room) && e.index < |e.history|
    ensures r.pasting == e.pasting && r.done == e.done && r.pending == e.pending
  {
    var n := |e.history|;
    if n <= 1 then e
    else
      var saved := HistorySaved(e, older);
      if CanMove(e, older) then WithEntry(saved, saved.history[n - 1 - saved.index]) else saved
  }

  predicate CharPending(p: seq<byte>) {
    p != [] && p[0] != ESC
  }

  /** What a complete multi-byte key inserts: itself, or the replacement character. */
  function KeyText(p: seq<byte>): seq<byte>
    requires p != [] && LeadLen(p[0]) == |p|
  {
    var cp, n := Assemble(p), |p|;
    if Scalar(cp) && (n != 2 || cp >= 0x80) && (n != 3 || cp >= 0x800) && (n != 4 || cp >= 0x10000)
    then p else REPLACEMENT_BYTES
  }

  /** What a key asks for, once it has been read whole. */
  datatype Command =
    | Left | Right | Home | End | Older | Newer
    | DeleteRight | DeleteLeft | DeleteWord | DeleteToEnd | DeleteAll | Swap
    | BeginPaste | Text(c: seq<byte>) | Nothing

  function Apply(e: Editor, k: Command): (r: Editor)
    requires Invariant(e) && !e.done
    ensures !r.done && r.pasting == (e.pasting || k == BeginPaste)
  {
    var m := e.mode.mask;
    match k
    case Left => e.(line := MoveLeft(e.line, m))
    case Right => e.(line := MoveRight(e.line, m))
    case Home => e.(line := e.line.(pos := 0))
    case End => e.(line := e.line.(pos := |e.line.text|))
    case Older => HistoryMoved(e, true)
    case Newer => HistoryMoved(e, false)
    case DeleteRight => e.(line := Delete(e.line, m))
    case DeleteLeft => e.(line := Backspace(e.line, m))
    case DeleteWord => e.(line := DeletePrevWord(e.line, m))
    case DeleteToEnd => e.(line := KillToEnd(e.line))
    case DeleteAll => e.(line := EMPTY_LINE)
    case Swap => e.(line := Transpose(e.line, m))
    case BeginPaste => e.(pasting := true, paste := NO_PASTE)
    case Text(c) => Typed(e, c)
    case Nothing => e
  }

  /** A complete escape sequence, without its ESC. */
  function EscapeCommand(s: seq<byte>): Command
    requires s != []
  {
    if s == [91, 51, 126] then DeleteRight
    else if s == [91, 50, 48, 48, 126] then BeginPaste
    else match s[|s| - 1]
      case 65 => Older
      case 66 => Newer
      case 67 => Right
      case 68 => Left
      case 72 => Home
      case 70 => End
      case _ => Nothing
  }

  /** A one-byte key other than Enter, Ctrl-C and Ctrl-D. */
  function ByteCommand(c: byte): Command {
    match c
    case 127 => DeleteLeft
    case 8 => DeleteLeft
    case 20 => Swap
    case 2 => Left
    case 6 => Right
    case 16 => Older
    case 14 => Newer
    case 21 => DeleteAll
    case 11 => DeleteToEnd
    case 1 => Home
    case 5 => End
    case 23 => DeleteWord
    case _ => if c >= 0x80 then Text(REPLACEMENT_BYTES) else if c >= 32 then Text([c]) else Nothing
  }

  /** A key of one byte, with nothing pending. */
  function PlainKey(e: Editor, c: byte): (r: (Editor, Outcome))
    requires Invariant(e) && !e.done && e.pending == []
    ensures r.0.pasting == e.pasting
  {
    if c == 13 then
      var line := if e.mode.multiline then e.line.(pos := |e.line.text|) else e.line;
      (e.(history := e.history[..|e.history| - 1], line := line, done := true), Submitted(e.line.text))
    else if c == 3 then (e, Interrupted)
    else if c == 4 && e.line.text == [] then
      (e.(history := e.history[..|e.history| - 1], done := true), EndOfFile)
    else (Apply(e, if c == 4 then DeleteRight else ByteCommand(c)), More)
  }

  /** A byte that starts a key. */
  function FreshKey(e: Editor, c: byte): (r: (Editor, Outcome))
    requires Invariant(e) && !e.done && e.pending == []
    ensures r.0.pasting == e.pasting
  {
    if c == ESC || c >= 0xC2 then
      (if c > 0xF4 then Typed(e, REPLACEMENT_BYTES) else e.(pending := [c]), More)
    else PlainKey(e, c)
  }

  /** A byte while a paste is being read. */
  function PasteKey(e: Editor, c: byte): Editor
    requires Invariant(e)
  {
    var limit := PasteLimit(|e.line.text|, Cap(e.room), |e.line.folds|);
    if Completes(e.paste, c) then
      var line := Pasted(e.line, e.paste.buf, e.paste.overflowed, Cap(e.room), e.mode.mask);
      e.(pasting := false, paste := NO_PASTE, line := line, room := Grown(e.room, |line.text|))
    else
      var p := Collected(e.paste, c, limit);
      e.(paste := p, room := Grown(e.room, |e.line.text| + |p.buf|))
  }

  /** One input byte. */
  function Step(e: Editor, c: byte): (Editor, Outcome)
    requires Invariant(e)
  {
    if e.done then (e, More)
    else if e.pasting then (PasteKey(e, c), More)
    else if CharPending(e.pending) then
      if !Tail(c) then
        var e' := e.(pending := []);
        TypedGood(e', REPLACEMENT_BYTES);
        FreshKey(Typed(e', REPLACEMENT_BYTES), c)
      else
        var p := e.pending + [c];
        if |p| < LeadLen(p[0]) then (e.(pending := p), More)
        else (Typed(e.(pending := []), KeyText(p)), More)
    else if e.pending != [] then
      if |e.pending| == 1 && c != 91 && c != 79 then FreshKey(e.(pending := []), c)
      else
        var p := e.pending + [c];
        if |p| > 2 && 64 <= c <= 126 then (Apply(e.(pending := []), EscapeCommand(p[1..])), More)
        else (e.(pending := if |p| == PENDING_SIZE then [] else p), More)
    else FreshKey(e, c)
  }

  /** Clearing the line from outside, for callers that let Ctrl-C cancel the edit. */
  function Cleared(e: Editor): Editor {
    e.(pending := [], pasting := false, paste := NO_PASTE, line := EMPTY_LINE)
  }

  // -------------------------------------------------------------------- invariant

  predicate PendingOk(p: seq<byte>) {
    p == []
    || (p[0] == ESC && |p| < PENDING_SIZE && (|p| > 1 ==> p[1] == 91 || p[1] == 79))
    || (0xC2 <= p[0] <= 0xF4 && |p| < LeadLen(p[0]) && forall i :: 1 <= i < |p| ==> Tail(p[i]))
  }

  /** Clean text that the editor can show: whole, or cut between characters. A buffer that may grow can
      have any size when it is cut. */
  predicate EntryOk(s: seq<byte>, cap: nat, fixed: bool) {
    && CleanText(s)
    && (|s| <= cap || if fixed then Boundary(s, cap) else forall n :: 0 <= n <= cap ==> Boundary(s, n))
  }

  predicate EntriesOk(h: seq<seq<byte>>, cap: nat, fixed: bool) {
    forall s :: s in h ==> EntryOk(s, cap, fixed)
  }

  predicate Invariant(e: Editor) {
    && RoomOk(e.room)
    && Good(e.line) && |e.line.text| <= e.room.buflen
    && PendingOk(e.pending)
    && e.paste.matched < END_LEN
    && (e.pasting ==>
          var limit := PasteLimit(|e.line.text|, Cap(e.room), |e.line.folds|);
          |e.paste.buf| <= limit && |e.line.text| + |e.paste.buf| <= e.room.buflen)
    && EntriesOk(e.history, Cap(e.room), e.room.max == 0)
    && (!e.done ==> e.index < |e.history|)
  }

  lemma TypedGood(e: Editor, c: seq<byte>)
    requires Invariant(e) && !e.pasting && (CleanText(c) || c == REPLACEMENT_BYTES)
    ensures Invariant(Typed(e, c))
  {
    ReplacementClean();
    hide WellFormed, FoldsOk, Tail, EntriesOk, PendingOk, Track, Doubled;
    InsertGood(e.line, c);
  }

  lemma ReplacementClean()
    ensures CleanText(REPLACEMENT_BYTES)
  {
    assert Encode(REPLACEMENT) == REPLACEMENT_BYTES;
    EncodeDecodes(REPLACEMENT, []);
    assert REPLACEMENT_BYTES + [] == REPLACEMENT_BYTES;
    assert REPLACEMENT_BYTES[3..] == [];
  }

  /** The part of an entry that fits can be shown. */
  lemma ShownGood(room: Room, s: seq<byte>, mask: bool)
    requires RoomOk(room) && EntryOk(s, Cap(room), room.max == 0)
    ensures var grown := Grown(room, |s|);
      var shown := if |s| > grown.buflen then s[..grown.buflen] else s;
      Good(Recalled(shown, mask)) && |shown| <= grown.buflen && (|s| <= Cap(room) ==> shown == s)
  {
    hide WellFormed, FoldsOk, Tail, Doubled, HistoryFolds;
    var grown := Grown(room, |s|);
    if |s| > grown.buflen {
      CutEntryClean(s, grown.buflen);
      RecalledGood(s[..grown.buflen], mask);
    } else {
      RecalledGood(s, mask);
    }
  }

  lemma LineIsEntry(e: Editor)
    requires Invariant(e)
    ensures EntryOk(e.line.text, Cap(e.room), e.room.max == 0)
  {
    hide WellFormed, FoldsOk, Tail;
  }

  lemma HistoryMovedGood(e: Editor, older: bool)
    requires Invariant(e) && !e.done && !e.pasting
    ensures Invariant(HistoryMoved(e, older))
  {
    hide Good, PendingOk, Grown, HistoryFolds, EntryOk;
    if |e.history| > 1 {
      var n := |e.history|;
      var h := e.history[n - 1 - e.index := e.line.text];
      LineIsEntry(e);
      assert EntriesOk(h, Cap(e.room), e.room.max == 0);
      var i := if older then e.index + 1 else e.index - 1;
      if 0 <= i < n {
        var src := h[n - 1 - i];
        assert src in h;
        ShownGood(e.room, src, e.mode.mask);
      }
    }
  }

  lemma KeyTextClean(p: seq<byte>)
    requires p != [] && 0xC2 <= p[0] <= 0xF4 && |p| == LeadLen(p[0])
    requires forall i :: 1 <= i < |p| ==> Tail(p[i])
    ensures CleanText(KeyText(p))
    ensures WellFormed(p) ==> KeyText(p) == p
    ensures !WellFormed(p) ==> KeyText(p) == REPLACEMENT_BYTES
  {
    ReplacementClean();
    match |p|
    case 2 =>
      DecodeTwo(p);
      assert p[2..] == [];
      Low6(p[1]);
    case 3 =>
      AssembleThree(p);
      ThreeInRange(p[0], p[1], p[2]);
      assert p[3..] == [];
    case 4 =>
      AssembleFour(p);
      FourInRange(p[0], p[1], p[2], p[3]);
      assert p[4..] == [];
  }

  lemma PasteKeyGood(e: Editor, c: byte)
    requires Invariant(e) && e.pasting
    ensures Invariant(PasteKey(e, c))
  {
    hide WellFormed, FoldOk, Disjoint, Tail, PendingOk, Doubled, EntriesOk, PasteOk, Collected, Completes, Pasted;
    if Completes(e.paste, c) {
      PastedGood(e.line, e.paste.buf, e.paste.overflowed, Cap(e.room), e.mode.mask);
    } else {
      CollectedWithin(e.paste, c, PasteLimit(|e.line.text|, Cap(e.room), |e.line.folds|));
    }
  }

  lemma CollectedWithin(p: Paste, c: byte, maxlen: nat)
    requires p.matched < END_LEN && |p.buf| <= maxlen && !Completes(p, c)
    ensures |Collected(p, c, maxlen).buf| <= maxlen && Collected(p, c, maxlen).matched < END_LEN
  {
  }

  /** Commands that insert text insert clean text. */
  predicate CommandOk(k: Command) {
    k.Text? ==> CleanText(k.c)
  }

  lemma ApplyGood(e: Editor, k: Command)
    requires Invariant(e) && !e.done && !e.pasting && CommandOk(k) && (k == BeginPaste ==> e.pending == [])
    ensures Invariant(Apply(e, k))
  {
    hide CleanText, FoldsOk, Tail, Doubled, Transpose, Delete, Backspace, MoveLeft, MoveRight,
      DeletePrevWord, KillToEnd, HistoryMoved, Typed, EntriesOk, PendingOk;
    match k
    case Older => HistoryMovedGood(e, true);
    case Newer => HistoryMovedGood(e, false);
    case Text(c) => TypedGood(e, c);
    case Swap => TransposeGood(e.line, e.mode.mask);
    case DeleteAll => EmptyLineGood();
    case _ =>
      StepsGood(e.line, e.mode.mask);
      HomeEndGood(e.line);
  }

  lemma ByteCommandOk(c: byte)
    ensures CommandOk(ByteCommand(c))
  {
    ReplacementClean();
    if 32 <= c < 0x80 { AsciiClean(c); }
  }

  lemma PlainKeyGood(e: Editor, c: byte)
    requires Invariant(e) && !e.done && !e.pasting && e.pending == []
    ensures Invariant(PlainKey(e, c).0)
  {
    hide WellFormed, FoldsOk, Tail, Apply, ByteCommand, CommandOk, Boundary;
    HomeEndGood(e.line);
    assert forall s :: s in e.history[..|e.history| - 1] ==> s in e.history;
    ByteCommandOk(c);
    assert CommandOk(DeleteRight) by { DeleteRightOk(); }
    ApplyGood(e, if c == 4 then DeleteRight else ByteCommand(c));
  }

  lemma DeleteRightOk()
    ensures CommandOk(DeleteRight)
  {
  }

  lemma EmptyLineGood()
    ensures Good(EMPTY_LINE)
  {
  }

  lemma AsciiClean(c: byte)
    requires 0 < c < 0x80
    ensures CleanText([c])
  {
    assert [c][1..] == [];
  }

  lemma EscapeCommandOk(s: seq<byte>)
    requires s != []
    ensures CommandOk(EscapeCommand(s))
  {
  }

  lemma FreshKeyGood(e: Editor, c: byte)
    requires Invariant(e) && !e.done && !e.pasting && e.pending == []
    ensures Invariant(FreshKey(e, c).0)
  {
    hide Good, Typed, PlainKey, EntriesOk;
    TypedGood(e, REPLACEMENT_BYTES);
    if c != ESC && c < 0xC2 { PlainKeyGood(e, c); }
  }

  /** No input byte breaks the editor. */
  lemma StepGood(e: Editor, c: byte)
    requires Invariant(e)
    ensures Invariant(Step(e, c).0)
  {
    hide Good, EscapeCommand, Apply, FreshKey, PasteKey, EntriesOk, WellFormed, Typed, KeyText;
    if e.done {
    } else if e.pasting {
      PasteKeyGood(e, c);
    } else if e.pending == [] {
      FreshKeyGood(e, c);
    } else {
      var e', p := e.(pending := []), e.pending + [c];
      assert Invariant(e');
      if CharPending(e.pending) {
        if !Tail(c) {
          TypedGood(e', REPLACEMENT_BYTES);
          CursorInLine(e');
          FreshKeyGood(Typed(e', REPLACEMENT_BYTES), c);
        } else if |p| == LeadLen(p[0]) {
          KeyTextClean(p);
          TypedGood(e', KeyText(p));
        }
      } else if |e.pending| == 1 && c != 91 && c != 79 {
        FreshKeyGood(e', c);
      } else if |p| > 2 && 64 <= c <= 126 {
        EscapeCommandOk(p[1..]);
        ApplyGood(e', EscapeCommand(p[1..]));
      }
    }
  }

  /** A byte with a half-read character pending. */
  lemma StepChar(e: Editor, c: byte)
    requires Invariant(e) && !e.done && !e.pasting && CharPending(e.pending)
    ensures |e.pending| < 4 && Invariant(e.(pending := [])) && e.line.pos <= |e.line.text|
    ensures var t := Typed(e.(pending := []), REPLACEMENT_BYTES);
      && Invariant(t) && t.pending == [] && !t.done && !t.pasting
      && (!Tail(c) ==> Step(e, c) == FreshKey(t, c))
    ensures var p := e.pending + [c];
      && (Tail(c) && |p| < LeadLen(p[0]) ==> Step(e, c) == (e.(pending := p), More))
      && (Tail(c) && |p| >= LeadLen(p[0]) ==>
            && |p| == LeadLen(p[0]) && CleanText(KeyText(p))
            && Step(e, c) == (Typed(e.(pending := []), KeyText(p)), More))
  {
    hide Good, FreshKey, EntriesOk, WellFormed, Typed, KeyText, Doubled;
    var e', p := e.(pending := []), e.pending + [c];
    TypedGood(e', REPLACEMENT_BYTES);
    CursorInLine(e');
    if Tail(c) && |p| == LeadLen(p[0]) { KeyTextClean(p); }
  }

  /** A byte with an ESC pending. */
  lemma StepEscape(e: Editor, c: byte)
    requires Invariant(e) && !e.done && !e.pasting && e.pending != [] && !CharPending(e.pending)
    ensures |e.pending| < PENDING_SIZE && Invariant(e.(pending := []))
    ensures |e.pending| == 1 && c != 91 && c != 79 ==> Step(e, c) == FreshKey(e.(pending := []), c)
    ensures var p := e.pending + [c];
      && CommandOk(EscapeCommand(p[1..]))
      && (!(|e.pending| == 1 && c != 91 && c != 79) ==>
            if |p| > 2 && 64 <= c <= 126 then Step(e, c) == (Apply(e.(pending := []), EscapeCommand(p[1..])), More)
            else Step(e, c) == (e.(pending := if |p| == PENDING_SIZE then [] else p), More))
  {
    hide Good, FreshKey, EntriesOk, WellFormed, Typed, KeyText, Doubled, Apply;
    EscapeCommandOk((e.pending + [c])[1..]);
  }

  lemma CursorInLine(e: Editor)
    requires Invariant(e)
    ensures e.line.pos <= |e.line.text| && (!e.done ==> e.index < |e.history|)
  {
  }

  // ------------------------------------------------------------------- whole runs

  /** What can happen to an editor: an input byte, or a call that clears the line. */
  datatype Event = Byte(b: byte) | Clear

  function React(e: Editor, v: Event): Editor
    requires Invariant(e)
  {
    match v case Byte(b) => Step(e, b).0 case Clear => Cleared(e)
  }

  function Run(e: Editor, events: seq<Event>): Editor
    requires Invariant(e)
    decreases |events|
  {
    if events == [] then e else ReactGood(e, events[0]); Run(React(e, events[0]), events[1..])
  }

  lemma ClearedGood(e: Editor)
    requires Invariant(e)
    ensures Invariant(Cleared(e))
  {
    hide WellFormed, FoldsOk;
    EmptyLineGood();
  }

  lemma ReactGood(e: Editor, v: Event)
    requires Invariant(e)
    ensures Invariant(React(e, v))
  {
    hide Step, Cleared, Invariant;
    match v case Byte(b) => StepGood(e, b); case Clear => ClearedGood(e);
  }

  /** After any events: cursor and folds lie on character boundaries of clean text that fits the
      buffer, folds are in order and apart, and each still covers the text it was made for. */
  lemma {:induction false} RunGood(e: Editor, events: seq<Event>)
    requires Invariant(e)
    ensures Invariant(Run(e, events))
    decreases |events|
  {
    if events != [] {
      hide Invariant, React;
      ReactGood(e, events[0]);
      RunGood(React(e, events[0]), events[1..]);
    }
  }

  /** The bytes of an input, as events. */
  function RunBytes(e: Editor, input: seq<byte>): Editor
    requires Invariant(e)
    decreases |input|
  {
    if input == [] then e else StepGood(e, input[0]); RunBytes(Step(e, input[0]).0, input[1..])
  }

  lemma {:induction false} RunBytesSplit(e: Editor, a: seq<byte>, b: seq<byte>)
    requires Invariant(e)
    ensures Invariant(RunBytes(e, a))
    ensures RunBytes(e, a + b) == RunBytes(RunBytes(e, a), b)
    decreases |a|
  {
    hide Invariant, Step;
    if a == [] {
      assert a + b == b;
    } else {
      assert (a + b)[0] == a[0] && (a + b)[1..] == a[1..] + b;
      StepGood(e, a[0]);
      RunBytesSplit(Step(e, a[0]).0, a[1..], b);
    }
  }

  lemma RunBytesSnoc(e: Editor, input: seq<byte>, k: nat)
    requires Invariant(e) && k < |input|
    ensures Invariant(RunBytes(e, input[..k]))
    ensures RunBytes(e, input[..k + 1]) == Step(RunBytes(e, input[..k]), input[k]).0
  {
    hide Invariant, Step;
    RunBytesSplit(e, input[..k], [input[k]]);
    assert input[..k + 1] == input[..k] + [input[k]];
    var m := RunBytes(e, input[..k]);
    StepGood(m, input[k]);
    assert [input[k]][1..] == [];
  }

  lemma PastingStep(e: Editor, c: byte)
    requires Invariant(e) && e.pasting && !e.done
    ensures Step(e, c).0 == PasteKey(e, c)
  {
  }

  /** While a paste goes on its limit does not change. */
  lemma PasteLimitSame(e: Editor, c: byte)
    requires Invariant(e) && e.pasting
    ensures PasteKey(e, c).done == e.done
    ensures PasteKey(e, c).pasting ==> PasteKey(e, c).line == e.line && Cap(PasteKey(e, c).room) == Cap(e.room)
  {
  }

  lemma StepFresh(e: Editor, c: byte)
    requires Invariant(e) && !e.done && !e.pasting && e.pending == []
    ensures Step(e, c) == FreshKey(e, c)
  {
  }

  lemma RunOne(e: Editor, c: byte)
    requires Invariant(e)
    ensures RunBytes(e, [c]) == Step(e, c).0
  {
    StepGood(e, c);
    hide Invariant, Step;
    assert [c][1..] == [];
  }

  /** No byte both ends the session and leaves a paste open. */
  lemma PastingNotDone(e: Editor, c: byte)
    requires Invariant(e) && !e.done
    ensures Step(e, c).0.pasting ==> !Step(e, c).0.done
  {
    hide Good, EntriesOk, WellFormed, Doubled, Apply, FreshKey, Typed, Pasted, EscapeCommand, KeyText, Collected;
    if CharPending(e.pending) && !e.pasting { StepChar(e, c); }
  }

  lemma RunNothing(e: Editor)
    requires Invariant(e)
    ensures RunBytes(e, []) == e
  {
  }

  lemma PasteMayStart(e: Editor)
    requires Invariant(e) && (e.pasting || e.paste == NO_PASTE)
    ensures Invariant(e.(pasting := true))
  {
  }

  // ------------------------------------------------------------- folds over a step

  /** What a command does to the text, unless it recalls another entry. */
  function CommandReach(e: Editor, k: Command): Reach
    requires Invariant(e)
  {
    var l, m := e.line, e.mode.mask;
    match k
    case DeleteRight => DeleteReach(l, m)
    case DeleteLeft => BackspaceReach(l, m)
    case DeleteWord => Edited(WordStart(l, m), l.pos, 0)
    case DeleteToEnd => Edited(l.pos, |l.text|, 0)
    case DeleteAll => Edited(0, |l.text|, 0)
    case Text(c) => if |l.text| + |c| > Cap(e.room) then Untouched else Edited(l.pos, l.pos, |c|)
    case _ => Untouched
  }

  /** The command of a byte that starts a key. */
  function FreshCommand(e: Editor, c: byte): Command {
    if c == ESC || 0xC2 <= c <= 0xF4 then Nothing
    else if c > 0xF4 then Text(REPLACEMENT_BYTES)
    else if c == 13 || c == 3 || (c == 4 && e.line.text == []) then Nothing
    else if c == 4 then DeleteRight
    else ByteCommand(c)
  }

  /** The commands that an input byte completes: none, one, or, where it breaks off a character, the
      replacement for that and one of its own. */
  function Pressed(e: Editor, c: byte): (ks: seq<Command>)
    requires Invariant(e)
    ensures |ks| <= 2 && (|ks| == 2 ==> ks[0] == Text(REPLACEMENT_BYTES))
  {
    if e.done || e.pasting then []
    else if e.pending == [] then [FreshCommand(e, c)]
    else
      var p := e.pending + [c];
      if CharPending(e.pending) then
        if !Tail(c) then [Text(REPLACEMENT_BYTES), FreshCommand(Typed(e.(pending := []), REPLACEMENT_BYTES), c)]
        else if |p| < LeadLen(p[0]) then [] else [Text(KeyText(p))]
      else if |e.pending| == 1 && c != 91 && c != 79 then [FreshCommand(e, c)]
      else if |p| > 2 && 64 <= c <= 126 then [EscapeCommand(p[1..])] else []
  }

  lemma TypedFolds(e: Editor, c: seq<byte>)
    requires Invariant(e)
    ensures FoldsFollow(Typed(e, c).line.folds, e.line.folds, CommandReach(e, Text(c)))
  {
    hide Splice, Good, Doubled, FoldsFollow;
    CursorInLine(e);
    SameFolds(e.line.folds);
    SpliceFolds(e.line, e.line.pos, e.line.pos, c);
  }

  lemma ApplyFolds(e: Editor, k: Command)
    requires Invariant(e) && !e.done && Apply(e, k).index == e.index
    ensures FoldsFollow(Apply(e, k).line.folds, e.line.folds, CommandReach(e, k))
  {
    hide Typed, Good, Delete, Backspace, DeletePrevWord, KillToEnd, Transpose, MoveLeft, MoveRight, HistoryMoved,
      DeleteReach, BackspaceReach, FoldsFollow, WordStart;
    SameFolds(e.line.folds);
    match k
    case Older => HistoryMovedStill(e, true);
    case Newer => HistoryMovedStill(e, false);
    case Text(c) => TypedFolds(e, c);
    case DeleteAll => NoFoldLeft(e.line);
    case _ => StepsFolds(e.line, e.mode.mask);
  }

  /** Every fold reaches into the whole line. */
  lemma NoFoldLeft(l: Line)
    requires Good(l)
    ensures FoldsFollow([], l.folds, Edited(0, |l.text|, 0))
  {
    forall f | f in l.folds ensures Touches(f, 0, |l.text|) { assert FoldOk(l.text, f); }
  }

  lemma HistoryMovedStill(e: Editor, older: bool)
    requires RoomOk(e.room) && e.index < |e.history|
    ensures HistoryMoved(e, older).index == e.index ==> HistoryMoved(e, older).line == e.line
  {
  }

  lemma FreshKeyFolds(e: Editor, c: byte)
    requires Invariant(e) && !e.done && e.pending == [] && FreshKey(e, c).0.index == e.index
    ensures FoldsFollow(FreshKey(e, c).0.line.folds, e.line.folds, CommandReach(e, FreshCommand(e, c)))
  {
    hide Typed, Good, Apply, ByteCommand, FoldsFollow, Touches, DeleteReach, BackspaceReach, WordStart;
    SameFolds(e.line.folds);
    TypedFolds(e, REPLACEMENT_BYTES);
    if Apply(e, FreshCommand(e, c)).index == e.index { ApplyFolds(e, FreshCommand(e, c)); }
  }

  /** After an input byte the folds are those that its commands did not reach into, moved with their
      text, and no others, unless another entry is recalled or a paste ends. */
  lemma StepFolds(e: Editor, c: byte)
    requires Invariant(e)
    requires !(e.pasting && Completes(e.paste, c)) && Step(e, c).0.index == e.index
    ensures Invariant(e.(pending := []))
    ensures var ks, now, ready := Pressed(e, c), Step(e, c).0.line.folds, e.(pending := []);
      && (ks == [] ==> now == e.line.folds)
      && (|ks| == 1 ==> FoldsFollow(now, e.line.folds, CommandReach(ready, ks[0])))
      && (|ks| == 2 ==>
            var t := Typed(ready, REPLACEMENT_BYTES);
            && Invariant(t) && FoldsFollow(t.line.folds, e.line.folds, CommandReach(ready, ks[0]))
            && FoldsFollow(now, t.line.folds, CommandReach(t, ks[1])))
  {
    hide Good, EscapeCommand, Apply, FreshKey, FreshCommand, EntriesOk, WellFormed, Typed, KeyText, Doubled, Completes,
      Collected, FoldsFollow, CommandReach;
    var e' := e.(pending := []);
    assert Invariant(e');
    if !e.done && !e.pasting {
      if e.pending == [] {
        FreshKeyFolds(e, c);
      } else if CharPending(e.pending) {
        CharFolds(e, c);
      } else {
        EscapeFolds(e, c);
      }
    }
  }

  lemma CharFolds(e: Editor, c: byte)
    requires Invariant(e) && !e.done && !e.pasting && CharPending(e.pending) && Step(e, c).0.index == e.index
    ensures Invariant(e.(pending := []))
    ensures var ks, now, ready := Pressed(e, c), Step(e, c).0.line.folds, e.(pending := []);
      && (ks == [] ==> now == e.line.folds)
      && (|ks| == 1 ==> FoldsFollow(now, e.line.folds, CommandReach(ready, ks[0])))
      && (|ks| == 2 ==>
            var t := Typed(ready, REPLACEMENT_BYTES);
            && Invariant(t) && FoldsFollow(t.line.folds, e.line.folds, CommandReach(ready, ks[0]))
            && FoldsFollow(now, t.line.folds, CommandReach(t, ks[1])))
  {
    hide Good, FreshKey, FreshCommand, EntriesOk, WellFormed, Typed, KeyText, Doubled, FoldsFollow, CommandReach, Step;
    var e', p := e.(pending := []), e.pending + [c];
    StepChar(e, c);
    if !Tail(c) {
      TypedFolds(e', REPLACEMENT_BYTES);
      FreshKeyFolds(Typed(e', REPLACEMENT_BYTES), c);
    } else if |p| >= LeadLen(p[0]) {
      TypedFolds(e', KeyText(p));
    }
  }

  lemma EscapeFolds(e: Editor, c: byte)
    requires Invariant(e) && !e.done && !e.pasting && e.pending != [] && !CharPending(e.pending)
    requires Step(e, c).0.index == e.index
    ensures Invariant(e.(pending := []))
    ensures var ks, now := Pressed(e, c), Step(e, c).0.line.folds;
      if ks == [] then now == e.line.folds
      else |ks| == 1 && FoldsFollow(now, e.line.folds, CommandReach(e.(pending := []), ks[0]))
  {
    hide Good, FreshKey, EntriesOk, WellFormed, Typed, KeyText, Doubled, FoldsFollow, CommandReach, Step,
      Apply, EscapeCommand, ByteCommand;
    StepEscape(e, c);
    var e', p := e.(pending := []), e.pending + [c];
    if |e.pending| == 1 && c != 91 && c != 79 {
      FreshKeyFolds(e', c);
    } else if |p| > 2 && 64 <= c <= 126 {
      ApplyFolds(e', EscapeCommand(p[1..]));
    }
  }

  predicate ShowsEntry(e: Editor) {
    e.line == Recalled(e.line.text, e.mode.mask)
  }

  lemma HistoryMovedShows(e: Editor, older: bool)
    requires RoomOk(e.room) && e.index < |e.history| && HistoryMoved(e, older).index != e.index
    ensures ShowsEntry(HistoryMoved(e, older))
  {
    hide Doubled, HistoryFolds;
  }

  lemma FreshKeyShows(e: Editor, c: byte)
    requires Invariant(e) && !e.done && e.pending == [] && FreshKey(e, c).0.index != e.index
    ensures ShowsEntry(FreshKey(e, c).0)
  {
    hide Good, Doubled, Typed, HistoryMoved, ByteCommand, ShowsEntry, Apply, EntriesOk;
    var k := if c == 4 then DeleteRight else ByteCommand(c);
    if Apply(e, k).index != e.index { ApplyShows(e, k); }
  }

  lemma ApplyShows(e: Editor, k: Command)
    requires Invariant(e) && !e.done && Apply(e, k).index != e.index
    ensures ShowsEntry(Apply(e, k))
  {
    hide Good, Doubled, Typed, HistoryMoved, ShowsEntry, EntriesOk;
    HistoryMovedShows(e, k.Older?);
  }

  /** A byte that recalls another entry puts that in place of the whole line: what is folded then is
      part of the entry, and no fold of the line before is left. */
  lemma StepRecalls(e: Editor, c: byte)
    requires Invariant(e) && Step(e, c).0.index != e.index
    ensures ShowsEntry(Step(e, c).0)
  {
    hide Good, EscapeCommand, EntriesOk, WellFormed, KeyText, Doubled, HistoryMoved, ByteCommand,
      Collected, Completes, ShowsEntry, FreshKey, Apply, Pasted, Typed;
    var e', p := e.(pending := []), e.pending + [c];
    if !e.done && !e.pasting {
      if e.pending == [] {
        FreshKeyShows(e, c);
      } else if CharPending(e.pending) {
        StepChar(e, c);
        if !Tail(c) { FreshKeyShows(Typed(e', REPLACEMENT_BYTES), c); }
      } else {
        StepEscape(e, c);
        if |e.pending| == 1 && c != 91 && c != 79 {
          FreshKeyShows(e', c);
        } else if |p| > 2 && 64 <= c <= 126 {
          ApplyShows(e', EscapeCommand(p[1..]));
        }
      }
    }
  }

  /** The byte that ends a paste inserts its text or changes nothing. The folds follow that insertion,
      and where the text is long or has several lines there is one more, over all of it. */
  lemma StepEndsPaste(e: Editor, c: byte)
    requires Invariant(e) && !e.done && e.pasting && Completes(e.paste, c)
    ensures var l, s, now := e.line, Normalized(e.paste.buf), Step(e, c).0.line;
      now == l
      || (&& s != [] && now.text == Replaced(l.text, l.pos, l.pos, s) && now.pos == l.pos + |s|
          && FoldsFollow(Insert(l, s).folds, l.folds, Edited(l.pos, l.pos, |s|))
          && forall g :: g in now.folds <==>
               (g in Insert(l, s).folds || (!e.mode.mask && ShouldFoldText(s) && g == Fold(l.pos, l.pos + |s|, s))))
  {
    hide WellFormed, Doubled, FoldsFollow, PasteOk, Track, FoldInserted, Replaced, FoldOk,
      Disjoint, ShouldFoldText, Tail;
    var l, s := e.line, Normalized(e.paste.buf);
    PastingStep(e, c);
    if s != [] { InsertFoldedFolds(l, s); }
    TrackSurvivors(l.folds, l.pos, l.pos, |s|);
  }

  // ------------------------------------------------------------------ a whole paste

  /** Feeding bytes while a paste is read is reading the paste: the line stays as it is until the
      terminator, and then becomes the line with the paste in it. */
  lemma {:induction false} PasteRun(e: Editor, input: seq<byte>)
    requires Invariant(e) && e.pasting && !e.done
    ensures var limit := PasteLimit(|e.line.text|, Cap(e.room), |e.line.folds|);
      var r := ReadPaste(e.paste, input, limit);
      var after := RunBytes(e, input[..r.used]);
      if r.ended then
        && !after.pasting && after.paste == NO_PASTE
        && after.line == Pasted(e.line, r.paste.buf, r.paste.overflowed, Cap(e.room), e.mode.mask)
      else after.pasting && after.paste == r.paste && after.line == e.line
    decreases |input|
  {
    hide Good, Collected, Completes, EntriesOk, Pasted, Doubled;
    var limit := PasteLimit(|e.line.text|, Cap(e.room), |e.line.folds|);
    var r := ReadPaste(e.paste, input, limit);
    if input != [] {
      var c := input[0];
      var e' := Step(e, c).0;
      StepGood(e, c);
      var taken := input[..r.used];
      assert taken[0] == c;
      if Completes(e.paste, c) {
        assert taken[1..] == [];
      } else {
        PasteRun(e', input[1..]);
        var rest := ReadPaste(e'.paste, input[1..], limit);
        assert taken[1..] == input[1..][..rest.used];
      }
    }
  }

  /** From the start marker on: the text up to the first terminator goes into the line, whole and
      normalised, or not at all; how the input is cut into reads makes no difference. */
  lemma PasteArrives(e: Editor, input: seq<byte>)
    requires Invariant(e) && e.pasting && !e.done && e.paste == NO_PASTE
    requires exists i :: 0 <= i < |input| && EndAt(input, i)
    ensures exists k ::
      && 0 <= k && EndAt(input, k) && (forall i :: 0 <= i < k ==> !EndAt(input, i))
      && RunBytes(e, input[..k + END_LEN]).line ==
           Pasted(e.line, if k > PasteLimit(|e.line.text|, Cap(e.room), |e.line.folds|) then [] else input[..k],
                  k > PasteLimit(|e.line.text|, Cap(e.room), |e.line.folds|), Cap(e.room), e.mode.mask)
      && !RunBytes(e, input[..k + END_LEN]).pasting
  {
    hide Invariant, ReadPaste, EndAt, RunBytes, PasteOk;
    var limit := PasteLimit(|e.line.text|, Cap(e.room), |e.line.folds|);
    var r := ReadPaste(e.paste, input, limit);
    PasteContent(input, limit);
    PasteRun(e, input);
    var k := r.used - END_LEN;
    assert EndAt(input, k);
    assert input[..k + END_LEN] == input[..r.used];
  }

  // ------------------------------------------------------------------------ history

  /** Moving to an existing entry and back shows the text that was being edited, at the same place
      in the history, which now also records it. An entry that does not fit is cut, and stays cut. */
  lemma HistoryReturns(e: Editor, older: bool)
    requires Invariant(e) && !e.done && |e.history| > 1
    requires if older then e.index + 1 < |e.history| else e.index > 0
    ensures var there := HistoryMoved(e, older);
      && there.index == (if older then e.index + 1 else e.index - 1) && there.index < |there.history|
      && var entry := e.history[|e.history| - 1 - there.index];
      && there.line.text <= entry && (|entry| <= Cap(e.room) ==> there.line.text == entry)
      && var back := HistoryMoved(there, !older);
      back.line.text == e.line.text && back.index == e.index
      && back.history
         == e.history[|e.history| - 1 - e.index := e.line.text][|e.history| - 1 - there.index := there.line.text]
  {
    hide Good, Doubled, HistoryFolds;
    var n := |e.history|;
    var there := HistoryMoved(e, older);
    var src := e.history[n - 1 - there.index];
    assert src in e.history;
  }
}
