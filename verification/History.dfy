/** The history list, and the file it is saved to and loaded from. */
module History {
  import opened Utf8

  const LF: byte := 10
  const CR: byte := 13

  type Entry = seq<byte>

  // --------------------------------------------------------------------- adding

  /** The list with one more line: nothing changes for a repeated line, and the oldest makes way
      when the list is full. */
  function Added(h: seq<Entry>, max: nat, line: Entry): seq<Entry> {
    if max == 0 || (h != [] && h[|h| - 1] == line) then h
    else (if |h| == max then h[1..] else h) + [line]
  }

  function AddedAll(h: seq<Entry>, max: nat, lines: seq<Entry>): seq<Entry>
    decreases |lines|
  {
    if lines == [] then h else AddedAll(Added(h, max, lines[0]), max, lines[1..])
  }

  predicate NoRepeats(h: seq<Entry>) {
    forall i :: 0 < i < |h| ==> h[i - 1] != h[i]
  }

  lemma {:induction false} AddedAllKeeps(h: seq<Entry>, max: nat, lines: seq<Entry>)
    requires NoRepeats(h) && |h| <= max
    ensures NoRepeats(AddedAll(h, max, lines)) && |AddedAll(h, max, lines)| <= max
    ensures forall s :: s in AddedAll(h, max, lines) ==> s in h || s in lines
    decreases |lines|
  {
    if lines != [] { AddedAllKeeps(Added(h, max, lines[0]), max, lines[1..]); }
  }

  /** Lines that differ from their neighbours and fit are simply appended. */
  lemma {:induction false} AddedAllAppends(h: seq<Entry>, max: nat, lines: seq<Entry>)
    requires NoRepeats(h + lines) && |h| + |lines| <= max
    ensures AddedAll(h, max, lines) == h + lines
    decreases |lines|
  {
    if lines == [] {
      assert h + lines == h;
    } else {
      assert h + lines == (h + [lines[0]]) + lines[1..];
      if h != [] { assert (h + lines)[|h| - 1] != (h + lines)[|h|]; }
      AddedAllAppends(h + [lines[0]], max, lines[1..]);
    }
  }

  /** One more line: it is the newest, behind as many of those before as there is room for, the newest
      of them. A line that repeats the newest changes nothing. */
  lemma AddedIs(h: seq<Entry>, max: nat, line: Entry)
    requires |h| <= max
    ensures var r := Added(h, max, line);
      if max == 0 || (h != [] && line == h[|h| - 1]) then r == h
      else
        && |r| == (if |h| < max then |h| + 1 else max) && r[|r| - 1] == line
        && forall i :: 0 <= i < |r| - 1 ==> r[i] == h[|h| + 1 - |r| + i]
  {
  }

  /** Of lines that differ from their neighbours the newest are kept, as many as the list may hold. */
  lemma {:induction false} KeepsNewest(h: seq<Entry>, max: nat, lines: seq<Entry>)
    requires NoRepeats(h + lines) && |h| <= max
    ensures var all := h + lines;
      AddedAll(h, max, lines) == if |all| <= max then all else all[|all| - max..]
    decreases |lines|
  {
    hide Added, NoRepeats;
    var all := h + lines;
    if lines == [] {
      assert all == h;
    } else if max == 0 {
      NothingAdded(lines);
    } else {
      AddedNext(h, max, lines);
      KeepsNewest(Added(h, max, lines[0]), max, lines[1..]);
    }
  }

  lemma AddedNext(h: seq<Entry>, max: nat, lines: seq<Entry>)
    requires NoRepeats(h + lines) && |h| <= max && max > 0 && lines != []
    ensures var added, all := Added(h, max, lines[0]), h + lines;
      && |added| <= max && NoRepeats(added + lines[1..])
      && added + lines[1..] == if |h| < max then all else all[1..]
  {
    var all := h + lines;
    if h != [] { assert all[|h| - 1] != all[|h|]; }
    var rest := Added(h, max, lines[0]) + lines[1..];
    if |h| == max {
      assert rest == all[1..];
      assert forall i :: 0 < i < |rest| ==> rest[i - 1] == all[i] && rest[i] == all[i + 1];
    } else {
      assert rest == all;
    }
  }

  lemma {:induction false} NothingAdded(lines: seq<Entry>)
    ensures AddedAll([], 0, lines) == []
    decreases |lines|
  {
    if lines != [] { NothingAdded(lines[1..]); }
  }

  // ----------------------------------------------------------------------- file

  /** A line as it is stored: its line breaks as CR. */
  function Stored(s: Entry): (t: seq<byte>)
    ensures |t| == |s| && forall i :: 0 <= i < |s| ==> t[i] == if s[i] == LF then CR else s[i]
  {
    seq(|s|, i requires 0 <= i < |s| => if s[i] == LF then CR else s[i])
  }

  /** A stored line read back: its CRs as line breaks. */
  function Restored(s: seq<byte>): (t: Entry)
    ensures |t| == |s| && forall i :: 0 <= i < |s| ==> t[i] == if s[i] == CR then LF else s[i]
  {
    seq(|s|, i requires 0 <= i < |s| => if s[i] == CR then LF else s[i])
  }

  function FileOf(h: seq<Entry>): seq<byte> {
    if h == [] then [] else Stored(h[0]) + [LF] + FileOf(h[1..])
  }

  lemma FileOfNone()
    ensures FileOf([]) == []
  {
  }

  /** For one: two lines in one entry and another entry are two lines of the file. */
  lemma FileOfTwo()
    ensures FileOf([[97, 10, 98], [99]]) == [97, 13, 98, 10, 99, 10]
  {
    assert Stored([97, 10, 98]) == [97, 13, 98] && Stored([99]) == [99];
    assert [[97, 10, 98], [99]][1..] == [[99]] && [[99]][1..] == [];
    assert FileOf([[99]]) == [99] + [LF] + [];
  }

  lemma {:induction false} FileOfSnoc(h: seq<Entry>, s: Entry)
    ensures FileOf(h + [s]) == FileOf(h) + Stored(s) + [LF]
    decreases |h|
  {
    hide Stored;
    if h != [] {
      assert (h + [s])[0] == h[0] && (h + [s])[1..] == h[1..] + [s];
      FileOfSnoc(h[1..], s);
    } else {
      assert (h + [s])[1..] == [] && (h + [s])[0] == s;
    }
  }

  /** Bytes up to the first line feed, or all of them. */
  function LineEnd(f: seq<byte>): (n: nat)
    ensures n <= |f| && LF !in f[..n] && (n < |f| ==> f[n] == LF)
  {
    if f == [] || f[0] == LF then 0
    else
      var n := LineEnd(f[1..]);
      assert f[..n + 1] == [f[0]] + f[1..][..n];
      1 + n
  }

  lemma {:induction false} LineEndIs(f: seq<byte>, n: nat)
    requires n <= |f| && (forall i :: 0 <= i < n ==> f[i] != LF) && (n < |f| ==> f[n] == LF)
    ensures LineEnd(f) == n
  {
    if n > 0 { LineEndIs(f[1..], n - 1); }
  }

  /** The lines of a file; a last one without line feed counts when it is not empty. */
  function LinesIn(f: seq<byte>): seq<seq<byte>>
    decreases |f|
  {
    if f == [] then []
    else var n := LineEnd(f); [f[..n]] + LinesIn(if n < |f| then f[n + 1..] else [])
  }

  /** A C string ends at its first NUL. */
  function CString(s: seq<byte>): (t: seq<byte>)
    ensures 0 !in s ==> t == s
  {
    if s == [] || s[0] == 0 then [] else [s[0]] + CString(s[1..])
  }

  function Loaded(h: seq<Entry>, max: nat, lines: seq<seq<byte>>): seq<Entry>
    decreases |lines|
  {
    if lines == [] then h else Loaded(Added(h, max, Restored(CString(lines[0]))), max, lines[1..])
  }

  class HistoryList {
    var entries: seq<Entry>
    var maxLen: nat

    constructor (max: nat)
      ensures entries == [] && maxLen == max
    {
      entries, maxLen := [], max;
    }

    method Add(line: Entry) returns (ok: bool)
      modifies this`entries
      ensures entries == Added(old(entries), maxLen, line)
      ensures ok ==> entries != [] && entries[|entries| - 1] == line
    {
      if maxLen == 0 { return false; }
      if |entries| > 0 && entries[|entries| - 1] == line { return false; }
      if |entries| == maxLen { entries := entries[1..]; }
      entries := entries + [line];
      return true;
    }

    /** Keeps the newest entries when the list becomes shorter. */
    method SetMaxLen(n: int) returns (ok: bool)
      modifies this
      ensures ok <==> n >= 1
      ensures !ok ==> entries == old(entries) && maxLen == old(maxLen)
      ensures ok ==> maxLen == n
      ensures ok ==> entries == if n < |old(entries)| then old(entries)[|old(entries)| - n..] else old(entries)
    {
      if n < 1 { return false; }
      if n < |entries| { entries := entries[|entries| - n..]; }
      maxLen := n;
      return true;
    }

    method Save() returns (f: seq<byte>)
      ensures f == FileOf(entries)
    {
      hide FileOf, Stored;
      f := [];
      FileOfNone();
      var j := 0;
      while j < |entries|
        invariant 0 <= j <= |entries| && f == FileOf(entries[..j])
      {
        var line := StoreLine(entries[j]);
        FileOfSnoc(entries[..j], entries[j]);
        assert entries[..j + 1] == entries[..j] + [entries[j]];
        f := f + line + [LF];
        j := j + 1;
      }
      assert entries[..|entries|] == entries;
    }

    method Load(f: seq<byte>)
      modifies this`entries
      ensures entries == Loaded(old(entries), maxLen, LinesIn(f))
    {
      hide Added, Restored, CString, LineEnd, LinesIn, Loaded;
      var p := 0;
      assert f[0..] == f;
      while p < |f|
        invariant 0 <= p <= |f|
        invariant Loaded(old(entries), maxLen, LinesIn(f)) == Loaded(entries, maxLen, LinesIn(f[p..]))
      {
        var q := ReadLine(f, p);
        var line := f[p..q];
        var next := if q < |f| then q + 1 else q;
        LoadedNext(entries, maxLen, f, p, q);
        var added := Add(Restored(CString(line)));
        p := next;
      }
      assert f[p..] == [];
      NothingLoaded(entries, maxLen);
    }
  }

  /** One line more. */
  lemma LoadedNext(h: seq<Entry>, max: nat, f: seq<byte>, p: nat, q: nat)
    requires p < |f| && q == p + LineEnd(f[p..])
    ensures q <= |f|
    ensures var next := if q < |f| then q + 1 else q;
      Loaded(h, max, LinesIn(f[p..])) == Loaded(Added(h, max, Restored(CString(f[p..q]))), max, LinesIn(f[next..]))
  {
    hide Added, Restored, CString, LineEnd;
    var lines := LinesIn(f[p..]);
    assert lines[0] == f[p..q];
    if q < |f| {
      assert f[p..][q - p + 1..] == f[q + 1..];
      assert lines[1..] == LinesIn(f[q + 1..]);
    } else {
      NoLines();
      assert f[q..] == [] && lines == [f[p..q]] + LinesIn([]);
    }
  }

  lemma NothingLoaded(h: seq<Entry>, max: nat)
    ensures Loaded(h, max, LinesIn([])) == h
  {
  }

  method StoreLine(p: Entry) returns (t: seq<byte>)
    ensures t == Stored(p)
  {
    t := [];
    var i := 0;
    while i < |p|
      invariant 0 <= i <= |p| && t == Stored(p)[..i]
    {
      t := t + [if p[i] == LF then CR else p[i]];
      i := i + 1;
    }
  }

  /** The end of the line that starts at p. */
  method ReadLine(f: seq<byte>, p: nat) returns (q: nat)
    requires p < |f|
    ensures q == p + LineEnd(f[p..])
    ensures p <= q <= |f|
  {
    q := p;
    while q < |f| && f[q] != LF
      invariant p <= q <= |f| && forall i :: p <= i < q ==> f[i] != LF
    {
      q := q + 1;
    }
    LineEndIs(f[p..], q - p);
  }

  // ----------------------------------------------------------------- round trip

  lemma StoredIsLine(s: Entry)
    ensures LF !in Stored(s)
  {
  }

  lemma FirstLine(line: seq<byte>, rest: seq<byte>)
    ensures LF !in line ==> LinesIn(line + [LF] + rest) == [line] + LinesIn(rest)
  {
    hide LineEnd;
    var f := line + [LF] + rest;
    if LF !in line {
      assert f[|line|] == LF;
      assert forall i :: 0 <= i < |line| ==> f[i] == line[i] && line[i] in line;
      LineEndIs(f, |line|);
      assert f[..|line|] == line && f[|line| + 1..] == rest;
    }
  }

  lemma {:induction false} LinesOfFile(h: seq<Entry>)
    ensures |LinesIn(FileOf(h))| == |h|
    ensures forall i :: 0 <= i < |h| ==> LinesIn(FileOf(h))[i] == Stored(h[i])
    decreases |h|
  {
    hide LineEnd, Stored, Restored, LinesIn, CString, Loaded;
    if h == [] {
      NoLines();
    } else {
      LinesOfFile(h[1..]);
      FirstLine(Stored(h[0]), FileOf(h[1..]));
      StoredIsLine(h[0]);
    }
  }

  lemma NoLines()
    ensures LinesIn([]) == []
  {
  }

  /** A list with every CR turned into a line feed. */
  function Flattened(h: seq<Entry>): (r: seq<Entry>)
    ensures |r| == |h| && forall i :: 0 <= i < |h| ==> r[i] == Restored(h[i])
  {
    seq(|h|, i requires 0 <= i < |h| => Restored(h[i]))
  }

  lemma {:induction false} LoadedIsAdded(h: seq<Entry>, max: nat, lines: seq<seq<byte>>, src: seq<Entry>)
    requires |lines| == |src| && forall i :: 0 <= i < |src| ==> lines[i] == Stored(src[i]) && 0 !in src[i]
    ensures Loaded(h, max, lines) == AddedAll(h, max, Flattened(src))
    decreases |lines|
  {
    if lines != [] {
      var s := src[0];
      assert 0 !in Stored(s);
      assert Restored(Stored(s)) == Restored(s);
      assert Flattened(src)[1..] == Flattened(src[1..]);
      LoadedIsAdded(Added(h, max, Restored(s)), max, lines[1..], src[1..]);
    }
  }

  /** What a saved history must be like to come back. */
  predicate Storable(h: seq<Entry>, max: nat) {
    && |h| <= max && NoRepeats(h)
    && forall s :: s in h ==> CR !in s
  }

  /** Saving a history and loading it into an empty list gives it back exactly when no entry holds
      a CR, no two neighbours are equal, and the list is long enough. */
  lemma SaveLoad(h: seq<Entry>, max: nat)
    requires forall s: Entry :: s in h ==> 0 !in s
    ensures Loaded([], max, LinesIn(FileOf(h))) == h <==> Storable(h, max)
  {
    LinesOfFile(h);
    forall i | 0 <= i < |h| ensures 0 !in h[i] { assert h[i] in h; }
    LoadedIsAdded([], max, LinesIn(FileOf(h)), h);
    var r := Loaded([], max, LinesIn(FileOf(h)));
    AddedAllKeeps([], max, Flattened(h));
    if Storable(h, max) {
      forall i | 0 <= i < |h| ensures Restored(h[i]) == h[i] { assert h[i] in h; }
      assert Flattened(h) == h && [] + h == h;
      AddedAllAppends([], max, h);
    }
    forall s | s in Flattened(h) ensures CR !in s { }
  }

  /** For one: an entry that holds a CR comes back with a line break in its place. */
  lemma ReturnIsLost(max: nat)
    requires max > 0
    ensures Loaded([], max, LinesIn(FileOf([[CR]]))) == [[LF]]
  {
    hide LinesIn, FileOf, CString, Loaded;
    var h := [[CR]];
    LinesOfFile(h);
    LoadedIsAdded([], max, LinesIn(FileOf(h)), h);
    assert Flattened(h) == [[LF]] by { assert Restored([CR]) == [LF]; }
    assert [] + [[LF]] == [[LF]];
    AddedAllAppends([], max, [[LF]]);
  }
}
