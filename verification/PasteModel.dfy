/** The bracketed-paste reader, one byte at a time, and what it accepts. */
module PasteModel {
  import opened Utf8
  import opened LineModel

  const ESC: byte := 27
  const CR: byte := 13
  const TAB: byte := 9

  const END_LEN: nat := 6

  /** The bytes of the terminator, ESC [ 2 0 1 ~ */
  function EndByte(k: nat): byte
    requires k < END_LEN
  {
    if k == 0 then ESC else if k == 1 then 91 else if k == 2 then 50
    else if k == 3 then 48 else if k == 4 then 49 else 126
  }

  /** Its first m bytes. */
  function Piece(m: nat): (t: seq<byte>)
    requires m <= END_LEN
    ensures |t| == m && forall k :: 0 <= k < m ==> t[k] == EndByte(k)
  {
    seq(m, k requires 0 <= k < m => EndByte(k))
  }

  const PASTE_MAX_BYTES := 1048576

  /** Bytes collected, bytes of END held back, and whether the paste has grown past its limit. */
  datatype Paste = Paste(buf: seq<byte>, matched: nat, overflowed: bool)

  const NO_PASTE := Paste([], 0, false)

  function Appended(p: Paste, s: seq<byte>, maxlen: nat): (q: Paste)
    ensures |p.buf| <= |q.buf| && q.matched == p.matched
  {
    if p.overflowed then p
    else if |p.buf| + |s| > maxlen then p.(overflowed := true)
    else p.(buf := p.buf + s)
  }

  /** Appending does not depend on the bytes held back, and appending none changes nothing. */
  lemma FlushedFirst(p: Paste, maxlen: nat)
    requires p.matched < END_LEN && |p.buf| <= maxlen
    ensures Appended(p.(matched := 0), Piece(p.matched), maxlen) == Appended(p, Piece(p.matched), maxlen).(matched := 0)
    ensures p.matched == 0 ==> Appended(p, Piece(0), maxlen) == p
  {
    assert p.buf + Piece(0) == p.buf;
  }

  /** One input byte that does not complete the terminator. */
  function Collected(p: Paste, c: byte, maxlen: nat): Paste
    requires p.matched < END_LEN
  {
    if c == EndByte(p.matched) then p.(matched := p.matched + 1)
    else
      var q := Appended(p, Piece(p.matched), maxlen).(matched := 0);
      if p.matched > 0 && c == ESC then q.(matched := 1) else Appended(q, [c], maxlen)
  }

  predicate Completes(p: Paste, c: byte) {
    p.matched == END_LEN - 1 && c == EndByte(END_LEN - 1)
  }

  /** Where a read left the paste: its state, the bytes used, and whether the terminator was met. */
  datatype PasteRead = PasteRead(paste: Paste, used: nat, ended: bool)

  /** Reads input until the terminator or until there is no more. */
  function ReadPaste(p: Paste, input: seq<byte>, maxlen: nat): (r: PasteRead)
    requires p.matched < END_LEN
    ensures r.paste.matched < END_LEN && r.used <= |input|
    ensures !r.ended ==> r.used == |input|
    ensures r.ended ==> r.used > 0
    decreases |input|
  {
    if input == [] then PasteRead(p, 0, false)
    else if Completes(p, input[0]) then PasteRead(p, 1, true)
    else
      var r := ReadPaste(Collected(p, input[0], maxlen), input[1..], maxlen);
      r.(used := r.used + 1)
  }

  /** Stopping at a would-block and resuming is the same as reading on. */
  lemma {:induction false} ReadResumes(p: Paste, a: seq<byte>, b: seq<byte>, maxlen: nat)
    requires p.matched < END_LEN
    ensures var first := ReadPaste(p, a, maxlen);
      ReadPaste(p, a + b, maxlen) ==
        if first.ended then first
        else var second := ReadPaste(first.paste, b, maxlen); second.(used := |a| + second.used)
    decreases |a|
  {
    if a == [] {
      assert a + b == b;
    } else {
      assert (a + b)[0] == a[0] && (a + b)[1..] == a[1..] + b;
      if !Completes(p, a[0]) { ReadResumes(Collected(p, a[0], maxlen), a[1..], b, maxlen); }
    }
  }

  // ------------------------------------------------------- what a read amounts to

  /** The first m bytes of the terminator stand at i. */
  predicate PieceAt(s: seq<byte>, i: int, m: nat) {
    0 <= i && m <= END_LEN && i + m <= |s| && forall k :: i <= k < i + m ==> s[k] == EndByte(k - i)
  }

  predicate EndAt(s: seq<byte>, i: int) {
    PieceAt(s, i, END_LEN)
  }

  predicate EndsWith(s: seq<byte>, m: nat) {
    PieceAt(s, |s| - m, m)
  }

  /** The m held-back bytes are the longest piece of the terminator that ends `seen`. */
  predicate Held(m: nat, seen: seq<byte>) {
    && m < END_LEN && EndsWith(seen, m)
    && forall k :: m < k < END_LEN ==> !EndsWith(seen, k)
  }

  predicate NoEnd(seen: seq<byte>) {
    forall i :: 0 <= i < |seen| ==> !EndAt(seen, i)
  }

  predicate Gathered(p: Paste, content: seq<byte>, maxlen: nat) {
    if |content| <= maxlen then !p.overflowed && p.buf == content else p.overflowed
  }

  /** After `seen`, which holds no terminator: the longest piece of one at its end is held back,
      all the rest is collected, or was too long. */
  predicate Tracks(p: Paste, seen: seq<byte>, maxlen: nat) {
    && Held(p.matched, seen) && NoEnd(seen)
    && p.matched <= |seen| && Gathered(p, seen[..|seen| - p.matched], maxlen)
  }

  lemma PieceAtSnoc(s: seq<byte>, c: byte, m: nat)
    requires m < END_LEN
    ensures EndsWith(s + [c], m + 1) <==> EndsWith(s, m) && c == EndByte(m)
  {
    hide EndByte;
    var t := s + [c];
    assert forall k :: 0 <= k < |s| ==> t[k] == s[k];
    assert t[|s|] == c;
  }

  lemma EndAtPrefix(a: seq<byte>, b: seq<byte>, i: nat)
    requires i + END_LEN <= |a|
    ensures EndAt(a + b, i) <==> EndAt(a, i)
  {
    hide EndByte;
    assert forall k :: 0 <= k < |a| ==> (a + b)[k] == a[k];
  }

  /** The terminator begins with ESC and holds no other, so of two of its pieces only the empty
      one can end the other. */
  lemma PiecesDiffer(s: seq<byte>, m: nat, n: nat)
    requires m < END_LEN && n < END_LEN && EndsWith(s, m) && EndsWith(s, n)
    ensures m == n || m == 0 || n == 0
  {
    assert m > 0 ==> s[|s| - m] == ESC;
    assert n > 0 ==> s[|s| - n] == ESC;
  }

  /** The only place where one more byte can bring a terminator is the end. */
  lemma NoEndSnoc(seen: seq<byte>, c: byte, i: nat)
    requires NoEnd(seen)
    ensures EndAt(seen + [c], i) <==> i + END_LEN == |seen| + 1 && EndsWith(seen, 5) && c == EndByte(5)
  {
    if i + END_LEN <= |seen| {
      EndAtPrefix(seen, [c], i);
    } else {
      PieceAtSnoc(seen, c, 5);
    }
  }

  lemma HeldSnoc(m: nat, seen: seq<byte>, c: byte)
    requires Held(m, seen) && !(m == 5 && c == EndByte(5))
    ensures Held(if c == EndByte(m) then m + 1 else if c == ESC then 1 else 0, seen + [c])
  {
    hide PieceAt;
    var t := seen + [c];
    var m' := if c == EndByte(m) then m + 1 else if c == ESC then 1 else 0;
    if m' > 0 { EmptyPiece(seen); PieceAtSnoc(seen, c, m' - 1); } else { EmptyPiece(t); }
    forall k | m' < k < END_LEN
      ensures !EndsWith(t, k)
    {
      PieceAtSnoc(seen, c, k - 1);
      if EndsWith(seen, k - 1) { PiecesDiffer(seen, k - 1, m); }
    }
  }

  lemma EmptyPiece(s: seq<byte>)
    ensures EndsWith(s, 0)
  {
  }

  lemma HeldPiece(m: nat, seen: seq<byte>)
    requires Held(m, seen)
    ensures m < END_LEN && m <= |seen| && seen == seen[..|seen| - m] + Piece(m)
  {
    hide EndByte;
    var n := |seen| - m;
    assert EndsWith(seen, m);
    forall k | n <= k < |seen| ensures seen[k] == Piece(m)[k - n] { }
  }

  lemma CollectedTracks(p: Paste, seen: seq<byte>, c: byte, maxlen: nat)
    requires Tracks(p, seen, maxlen) && !Completes(p, c)
    ensures Tracks(Collected(p, c, maxlen), seen + [c], maxlen)
  {
    hide EndAt, EndsWith, EndByte, Piece;
    var m, t, q := p.matched, seen + [c], Collected(p, c, maxlen);
    FirstIsEsc();
    HeldSnoc(m, seen, c);
    forall i | 0 <= i < |t| ensures !EndAt(t, i) { NoEndSnoc(seen, c, i); }
    HeldPiece(m, seen);
    hide Held;
    var content := seen[..|seen| - m];
    if c == EndByte(m) {
      assert t[..|t| - q.matched] == content;
    } else if m > 0 && c == ESC {
      assert t[..|t| - 1] == content + Piece(m);
    } else {
      assert t[..|t| - 0] == content + Piece(m) + [c];
    }
  }

  lemma FirstIsEsc()
    ensures EndByte(0) == ESC
  {
  }

  /** The terminator just completed is the first in the input, and what precedes it is gathered. */
  predicate EndsFirst(p: Paste, all: seq<byte>, used: nat, maxlen: nat) {
    && END_LEN <= used <= |all| && EndAt(all, used - END_LEN)
    && (forall i :: 0 <= i < used - END_LEN ==> !EndAt(all, i))
    && Gathered(p, all[..used - END_LEN], maxlen)
  }

  lemma CompletesFirst(p: Paste, seen: seq<byte>, c: byte, rest: seq<byte>, maxlen: nat)
    requires Tracks(p, seen, maxlen) && Completes(p, c)
    ensures EndsFirst(p, seen + [c] + rest, |seen| + 1, maxlen)
  {
    hide Gathered, EndAt, EndsWith, EndByte;
    var t := seen + [c];
    HeldPiece(p.matched, seen);
    var k := |t| - END_LEN;
    forall i | 0 <= i <= k ensures EndAt(t + rest, i) <==> i == k {
      EndAtPrefix(t, rest, i);
      NoEndSnoc(seen, c, i);
    }
    assert (t + rest)[..k] == seen[..|seen| - p.matched];
  }

  lemma {:induction false} ReadTracks(p: Paste, seen: seq<byte>, input: seq<byte>, maxlen: nat)
    requires Tracks(p, seen, maxlen)
    ensures var r := ReadPaste(p, input, maxlen);
      if r.ended then EndsFirst(r.paste, seen + input, |seen| + r.used, maxlen)
      else Tracks(r.paste, seen + input, maxlen)
    decreases |input|
  {
    HeldPiece(p.matched, seen);
    hide Tracks, EndsFirst, Collected;
    if input == [] {
      assert seen + input == seen;
    } else {
      var c := input[0];
      assert seen + input == (seen + [c]) + input[1..];
      if Completes(p, c) {
        CompletesFirst(p, seen, c, input[1..], maxlen);
      } else {
        CollectedTracks(p, seen, c, maxlen);
        TracksBound(Collected(p, c, maxlen), seen + [c], maxlen);
        ReadTracks(Collected(p, c, maxlen), seen + [c], input[1..], maxlen);
      }
    }
  }

  lemma TracksBound(p: Paste, seen: seq<byte>, maxlen: nat)
    requires Tracks(p, seen, maxlen)
    ensures p.matched < END_LEN
  {
  }

  /** A whole paste: it ends with the first terminator in the input and not before, what it
      collects is exactly the bytes in front, and it overflows exactly when those are too many. */
  lemma PasteContent(input: seq<byte>, maxlen: nat)
    ensures var r := ReadPaste(NO_PASTE, input, maxlen);
      && (r.ended <==> exists i :: 0 <= i < |input| && EndAt(input, i))
      && (r.ended ==>
            && r.used >= END_LEN && EndAt(input, r.used - END_LEN)
            && (forall i :: 0 <= i < r.used - END_LEN ==> !EndAt(input, i))
            && (r.paste.overflowed <==> r.used - END_LEN > maxlen)
            && (!r.paste.overflowed ==> r.paste.buf == input[..r.used - END_LEN]))
  {
    hide EndAt, ReadPaste;
    EmptyPiece([]);
    assert Tracks(NO_PASTE, [], maxlen);
    ReadTracks(NO_PASTE, [], input, maxlen);
    assert [] + input == input;
  }

  // ------------------------------------------------------------------ line breaks

  /** CR and CR LF become LF. */
  function Normalized(s: seq<byte>): (t: seq<byte>)
    ensures |t| <= |s|
    ensures s != [] ==> t != []
    decreases |s|
  {
    if s == [] then []
    else if s[0] == CR then
      [NEWLINE] + Normalized(if |s| > 1 && s[1] == NEWLINE then s[2..] else s[1..])
    else [s[0]] + Normalized(s[1..])
  }

  /** The lines of a text in which CR, LF and CR LF each end a line. */
  function LinesOf(s: seq<byte>): (r: seq<seq<byte>>)
    ensures r != []
    decreases |s|
  {
    if s == [] then [[]]
    else if s[0] == CR && |s| > 1 && s[1] == NEWLINE then [[]] + LinesOf(s[2..])
    else if s[0] == CR || s[0] == NEWLINE then [[]] + LinesOf(s[1..])
    else var r := LinesOf(s[1..]); [[s[0]] + r[0]] + r[1..]
  }

  /** Normalising keeps every line and leaves no CR; text without CR is left alone. */
  lemma {:induction false} NormalizedText(s: seq<byte>)
    ensures LinesOf(Normalized(s)) == LinesOf(s)
    ensures CR !in Normalized(s)
    ensures CR !in s ==> Normalized(s) == s
    decreases |s|
  {
    if s != [] {
      var rest := if s[0] == CR && |s| > 1 && s[1] == NEWLINE then s[2..] else s[1..];
      NormalizedText(rest);
      assert Normalized(s)[1..] == Normalized(rest);
    }
  }

  lemma NormalizedStep(s: seq<byte>, r: nat)
    requires r < |s|
    ensures var n := if s[r] == CR && r + 1 < |s| && s[r + 1] == NEWLINE then 2 else 1;
      Normalized(s[r..]) == [if s[r] == CR then NEWLINE else s[r]] + Normalized(s[r + n..])
  {
    var n := if s[r] == CR && r + 1 < |s| && s[r + 1] == NEWLINE then 2 else 1;
    assert s[r..][n..] == s[r + n..];
  }

  method NormalizeInPlace(a: array<byte>, len: nat) returns (w: nat)
    requires len <= a.Length
    modifies a
    ensures w <= len && a[..w] == Normalized(old(a[..len]))
  {
    hide Normalized;
    ghost var s := a[..len];
    ghost var out := [];
    assert s[0..] == s && [] + Normalized(s) == Normalized(s);
    var r := 0;
    w := 0;
    while r < len
      invariant w <= r <= len && out == a[..w]
      invariant forall i :: r <= i < len ==> a[i] == s[i]
      invariant Normalized(s) == out + Normalized(s[r..])
    {
      NormalizedStep(s, r);
      var n := if a[r] == CR && r + 1 < len && a[r + 1] == NEWLINE then 2 else 1;
      a[w] := if a[r] == CR then NEWLINE else a[r];
      assert out + ([a[w]] + Normalized(s[r + n..])) == (out + [a[w]]) + Normalized(s[r + n..]);
      out := out + [a[w]];
      r, w := r + n, w + 1;
    }
    assert s[r..] == [];
    NormalizedNone();
  }

  lemma NormalizedNone()
    ensures Normalized([]) == []
  {
  }

  // ---------------------------------------------------------------- acceptance

  predicate Printable(cp: int) {
    !((cp < 32 && cp != 10 && cp != 9) || cp == 127 || 0x80 <= cp <= 0x9F)
  }

  /** The check of the reader: every decoding step yields a printable character. */
  predicate PasteOk(s: seq<byte>)
    decreases |s|
  {
    s == [] || (Accepted(s) && Printable(Decode(s).1) && PasteOk(s[Decode(s).0..]))
  }

  /** The same on bytes: no C0 control but tab and line feed, no DEL, no C1 control. */
  predicate NoControls(s: seq<byte>) {
    && (forall i :: 0 <= i < |s| ==> (s[i] >= 32 || s[i] == NEWLINE || s[i] == TAB) && s[i] != 127)
    && forall i :: 0 <= i < |s| - 1 ==> !(s[i] == 0xC2 && s[i + 1] < 0xA0)
  }

  lemma {:induction false} PasteOkIsCleanText(s: seq<byte>)
    ensures PasteOk(s) <==> WellFormed(s) && NoControls(s)
    decreases |s|
  {
    DecodeMeetsGrammar(s);
    if s != [] && CharAt(s) > 0 {
      var n := CharAt(s);
      PasteOkIsCleanText(s[n..]);
      assert Decode(s).0 == n;
      HeadControls(s);
    }
  }

  lemma HeadControls(s: seq<byte>)
    requires s != [] && CharAt(s) > 0 && Accepted(s) && Decode(s).0 == CharAt(s)
    requires s[..CharAt(s)] == Encode(Decode(s).1) && Scalar(Decode(s).1)
    ensures NoControls(s) && WellFormed(s[CharAt(s)..]) ==> Printable(Decode(s).1) && NoControls(s[CharAt(s)..])
    ensures NoControls(s) ==> NoControls(s[CharAt(s)..])
    ensures Printable(Decode(s).1) && NoControls(s[CharAt(s)..]) && WellFormed(s[CharAt(s)..]) ==> NoControls(s)
  {
    var n, cp, rest := CharAt(s), Decode(s).1, s[CharAt(s)..];
    var e := Encode(cp);
    assert |e| == n && forall k :: 0 <= k < n ==> s[k] == e[k];
    CharAtTails(s);
    assert forall k :: 0 <= k < |rest| ==> rest[k] == s[n + k];
  }

  lemma PasteOkClean(s: seq<byte>)
    requires PasteOk(s)
    ensures CleanText(s)
  {
    PasteOkIsCleanText(s);
  }

  method PasteCheck(s: seq<byte>) returns (ok: bool)
    ensures ok <==> PasteOk(s)
  {
    hide Decode, Printable;
    var p := 0;
    while p < |s|
      invariant 0 <= p <= |s|
      invariant PasteOk(s) <==> PasteOk(s[p..])
    {
      var n, cp := Utf8Decode(s[p..]);
      if n == 0 || (n == 1 && s[p] >= 0x80) || !Printable(cp) { return false; }
      assert s[p..][n..] == s[p + n..];
      p := p + n;
    }
    return true;
  }

  /** The line after a whole paste: unchanged if it is empty, not printable text, or does not fit;
      otherwise the normalised text is inserted, folded when it is long or has several lines. */
  function Pasted(l: Line, content: seq<byte>, overflowed: bool, cap: nat, mask: bool): Line
    requires l.pos <= |l.text|
  {
    var s := Normalized(content);
    if overflowed || content == [] || !PasteOk(s) || |l.text| + |s| > cap then l
    else if !mask && ShouldFoldText(s) then InsertFolded(l, s)
    else Insert(l, s)
  }

  /** Most bytes a paste may bring: what the buffer can still take, nothing when no fold is left. */
  function PasteLimit(len: nat, cap: nat, folds: nat): nat {
    if folds == MAX_FOLDS then 0
    else
      var room := if cap > len then cap - len else 0;
      if room > PASTE_MAX_BYTES then PASTE_MAX_BYTES else room
  }

  lemma PastedGood(l: Line, content: seq<byte>, overflowed: bool, cap: nat, mask: bool)
    requires Good(l) && |l.text| <= cap
    requires !overflowed && content != [] ==> |l.folds| < MAX_FOLDS
    ensures Good(Pasted(l, content, overflowed, cap, mask))
    ensures |Pasted(l, content, overflowed, cap, mask).text| <= cap
  {
    hide PasteOk, WellFormed, Track, FoldInserted, FoldsOk;
    var s := Normalized(content);
    if !overflowed && content != [] && PasteOk(s) {
      PasteOkClean(s);
      InsertGood(l, s);
      InsertFoldedGood(l, s);
    }
  }
}
