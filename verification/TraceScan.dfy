/** The loops of the trace writer and of the regrade scanner, tied to the format. */
module TraceScan {
  import Decimal
  import opened Optional
  import opened TraceFormat
  import TraceRoundTrip

  lemma SliceOfSlice(s: string, a: nat, b: nat, i: nat, j: nat)
    requires a <= b <= |s| && i <= j <= b - a
    ensures s[a..b][i..j] == s[a + i..a + j]
  {
    forall k | 0 <= k < j - i ensures s[a..b][i..j][k] == s[a + i..a + j][k] {
      assert s[a..b][i + k] == s[a + i + k];
    }
  }

  method BoundedStrstr(s: string, start: nat, end: nat, needle: string) returns (r: int)
    requires start <= end <= |s|
    ensures r == (var i := IndexOf(s[start..end], needle); if i < 0 then -1 else start + i)
  {
    var span := s[start..end];
    ghost var first := IndexOf(span, needle);
    if |needle| == 0 {
      assert OccursAt(span, needle, 0);
      return start;
    }
    if end - start < |needle| { return -1; }
    var p := start;
    while p + |needle| <= end
      invariant start <= p
      invariant forall i :: 0 <= i < p - start ==> !OccursAt(span, needle, i)
    {
      SliceOfSlice(s, start, end, p - start, p - start + |needle|);
      if s[p..p + |needle|] == needle {
        assert OccursAt(span, needle, p - start);
        return p;
      }
      p := p + 1;
    }
    assert first >= 0 ==> !OccursAt(span, needle, first);
    return -1;
  }

  method SkipCountedBlock(s: string, line: nat, lineEnd: nat) returns (r: int)
    requires line <= |s| && lineEnd == line + LineLen(s[line..])
    ensures var skip := SkipBlock(s[line..]); r == if skip.Some? then line + skip.value else -1
  {
    hide IndexOf, LineLen, StrToULL, CString, StartsWith, BlockEnd;
    ghost var t := s[line..];
    assert t[..lineEnd - line] == s[line..lineEnd];
    var begin := BoundedStrstr(s, line, lineEnd, BEGIN_MARK);
    if begin < 0 || begin == line { return -1; }
    if begin - line > 96 { return -1; }
    var bytes := begin + |BEGIN_MARK|;
    assert bytes <= lineEnd by { MarkInLine(s[line..lineEnd]); }
    assert t[..begin - line] == s[line..begin] && t[bytes - line..] == s[bytes..];
    var endMarker := CString(s[line..begin]) + "_END";
    var (declared, used) := StrToULL(s[bytes..]);
    if used == 0 || bytes + used > lineEnd { return -1; }
    var content := if lineEnd < |s| then lineEnd + 1 else |s|;
    if declared > |s| - content { return -1; }
    r := CloseBlock(s, line, content + declared, endMarker);
  }

  lemma MarkInLine(s: string)
    ensures var b := IndexOf(s, BEGIN_MARK); b >= 0 ==> b + |BEGIN_MARK| <= |s|
  {
    assert IndexOf(s, BEGIN_MARK) >= 0 ==> OccursAt(s, BEGIN_MARK, IndexOf(s, BEGIN_MARK));
  }

  /** The last part of skipping a block: its end marker and the rest of that line. */
  method CloseBlock(s: string, line: nat, m: nat, endMarker: string) returns (r: int)
    requires line <= m <= |s|
    ensures var skip := BlockEnd(s[line..], m - line, endMarker); r == if skip.Some? then line + skip.value else -1
  {
    hide LineLen;
    ghost var t := s[line..];
    var marker := m;
    if marker < |s| && s[marker] == '\n' { marker := marker + 1; }
    assert ContentEnd(t, m - line) == marker - line;
    assert t[marker - line..] == s[marker..];
    if |s| - marker < |endMarker| || s[marker..marker + |endMarker|] != endMarker { return -1; }
    var after := marker + |endMarker|;
    assert t[after - line..] == s[after..];
    var n := LineLen(s[after..]);
    r := if after + n < |s| then after + n + 1 else |s|;
  }

  /** Where the next line starts. */
  function NextLine(s: string, p: nat): (q: nat)
    requires p < |s|
    ensures p < q <= |s|
  {
    var lineEnd := p + LineLen(s[p..]);
    if lineEnd < |s| then lineEnd + 1 else |s|
  }

  predicate LineStarts(s: string, p: nat, prefix: string)
    requires p < |s|
  {
    LineLen(s[p..]) >= |prefix| && s[p..p + |prefix|] == prefix
  }

  /** One line of a scan, at a position of the text and in the text ahead of it. */
  lemma LineAt(s: string, p: nat, prefix: string)
    requires p < |s|
    ensures StartsWith(s[p..][..LineLen(s[p..])], prefix) == LineStarts(s, p, prefix)
    ensures AfterLine(s[p..]) == s[NextLine(s, p)..]
  {
    var n := LineLen(s[p..]);
    assert s[p..][..n] == s[p..p + n];
    if n >= |prefix| { SliceOfSlice(s, p, p + n, 0, |prefix|); }
    if p + n < |s| { assert s[p..][n + 1..] == s[p + n + 1..]; }
  }

  lemma CaseStep(s: string, p: nat)
    requires p < |s|
    ensures var skip, found := SkipBlock(s[p..]), FindCase(s[p..]);
      && (skip.Some? ==> found == FindCase(s[p + skip.value..]))
      && (skip.None? && LineStarts(s, p, CASE_MARK) ==> found == Some(s[p..]))
      && (skip.None? && !LineStarts(s, p, CASE_MARK) ==> found == FindCase(s[NextLine(s, p)..]))
  {
    hide SkipBlock, LineLen, AfterLine, StartsWith, LineStarts, NextLine;
    LineAt(s, p, CASE_MARK);
    var skip := SkipBlock(s[p..]);
    if skip.Some? { assert s[p..][skip.value..] == s[p + skip.value..]; }
  }

  lemma LabelStep(s: string, p: nat, name: string)
    requires p < |s|
    ensures var skip, found := SkipBlock(s[p..]), FindLabel(s[p..], name);
      && (LineStarts(s, p, name) ==> found == Some(s[p..]))
      && (!LineStarts(s, p, name) && skip.Some? ==> found == FindLabel(s[p + skip.value..], name))
      && (!LineStarts(s, p, name) && skip.None? ==> found == FindLabel(s[NextLine(s, p)..], name))
  {
    hide SkipBlock, LineLen, AfterLine, StartsWith, LineStarts, NextLine;
    LineAt(s, p, name);
    var skip := SkipBlock(s[p..]);
    if skip.Some? { assert s[p..][skip.value..] == s[p + skip.value..]; }
  }

  method FindNextCase(s: string, start: nat) returns (r: int)
    requires start <= |s|
    ensures var found := FindCase(s[start..]);
      if r < 0 then found == None else start <= r < |s| && found == Some(s[r..])
  {
    hide SkipBlock, LineLen, FindCase;
    var p := start;
    while p < |s|
      invariant start <= p <= |s|
      invariant FindCase(s[start..]) == FindCase(s[p..])
    {
      var lineEnd := p + LineLen(s[p..]);
      CaseStep(s, p);
      var skip := SkipCountedBlock(s, p, lineEnd);
      if skip >= 0 && skip > p {
        p := skip;
        continue;
      }
      if lineEnd - p >= |CASE_MARK| && s[p..p + |CASE_MARK|] == CASE_MARK {
        return p;
      }
      p := if lineEnd < |s| then lineEnd + 1 else |s|;
    }
    assert s[p..] == "";
    TraceRoundTrip.FindNothing();
    return -1;
  }

  method FindBlockBegin(s: string, name: string) returns (r: int)
    ensures var found := FindLabel(s, name); if r < 0 then found == None else r < |s| && found == Some(s[r..])
  {
    hide SkipBlock, LineLen, FindLabel;
    var p := 0;
    assert s[0..] == s;
    while p < |s|
      invariant p <= |s|
      invariant FindLabel(s, name) == FindLabel(s[p..], name)
    {
      var lineEnd := p + LineLen(s[p..]);
      LabelStep(s, p, name);
      if lineEnd - p >= |name| && s[p..p + |name|] == name {
        return p;
      }
      var skip := SkipCountedBlock(s, p, lineEnd);
      if skip >= 0 && skip > p {
        p := skip;
        continue;
      }
      p := if lineEnd < |s| then lineEnd + 1 else |s|;
    }
    assert s[p..] == "";
    FindNoLabel(name);
    return -1;
  }

  lemma FindNoLabel(name: string)
    ensures FindLabel("", name) == None
  {
  }

  method CopyField(s: string, start: nat, lineEnd: nat, size: nat) returns (r: string)
    requires start <= lineEnd <= |s| && size > 0
    ensures r == CopySpan(s[start..lineEnd], size)
  {
    var end := lineEnd;
    while end > start && (s[end - 1] == '\r' || s[end - 1] == '\n')
      invariant start <= end <= lineEnd
      invariant TrimEnd(s[start..lineEnd]) == TrimEnd(s[start..end])
    {
      assert s[start..end][..end - start - 1] == s[start..end - 1];
      end := end - 1;
    }
    var n := end - start;
    if n >= size { n := size - 1; }
    r := s[start..start + n];
    assert s[start..end][..n] == r;
  }

  lemma NoField(key: string, size: nat)
    requires size > 0
    ensures GetField("", key, size) == None
  {
  }

  lemma FieldStep(s: string, p: nat, key: string, size: nat)
    requires p < |s| && size > 0
    ensures var found := GetField(s[p..], key, size);
      && (LineStarts(s, p, key) ==> found == Some(CopySpan(s[p + |key|..p + LineLen(s[p..])], size)))
      && (!LineStarts(s, p, key) ==> found == GetField(s[NextLine(s, p)..], key, size))
  {
    hide LineLen, AfterLine, StartsWith, CopySpan, NextLine;
    LineAt(s, p, key);
    var n := LineLen(s[p..]);
    assert s[p..][..n] == s[p..p + n];
    if LineStarts(s, p, key) { SliceOfSlice(s, p, p + n, |key|, n); }
  }

  method GetLineField(s: string, key: string, size: nat) returns (r: Option<string>)
    requires size > 0
    ensures r == GetField(s, key, size)
  {
    hide LineLen, GetField, CopySpan;
    var p := 0;
    assert s[0..] == s;
    while p < |s|
      invariant p <= |s|
      invariant GetField(s, key, size) == GetField(s[p..], key, size)
    {
      var lineEnd := p + LineLen(s[p..]);
      FieldStep(s, p, key, size);
      if lineEnd - p >= |key| && s[p..p + |key|] == key {
        var value := CopyField(s, p + |key|, lineEnd, size);
        return Some(value);
      }
      p := if lineEnd < |s| then lineEnd + 1 else |s|;
    }
    assert s[p..] == "";
    NoField(key, size);
    return None;
  }

  method CopyModelOutput(s: string) returns (r: Option<string>)
    ensures r == CopyOutput(s)
  {
    hide FindLabel, IndexOf, LineLen, StrToULL, StartsWith;
    var at := FindBlockBegin(s, OUTPUT_BEGIN);
    if at < 0 { return None; }
    var begin := s[at..];
    var n := LineLen(begin);
    if n == |begin| { return None; }
    var b := BoundedStrstr(begin, 0, n, "bytes=");
    assert begin[0..n] == begin[..n];
    if b < 0 {
      var finish := BoundedStrstr(begin, n + 1, |begin|, "\n" + OUTPUT_END);
      assert begin[n + 1..|begin|] == begin[n + 1..];
      if finish < 0 { return None; }
      return Some(begin[n + 1..][..finish - n - 1]);
    }
    r := CopyCounted(begin, n, b);
  }

  /** The output when its first line holds a byte count at b. */
  method CopyCounted(begin: string, n: nat, b: nat) returns (r: Option<string>)
    requires n < |begin| && b == IndexOf(begin[..n], "bytes=") && b + 6 <= n
    ensures r == OutputOf(begin, n)
  {
    hide IndexOf, StrToULL;
    var (declared, used) := StrToULL(begin[b + 6..]);
    if used == 0 || b + 6 + used > n || declared > |begin| - (n + 1) { return None; }
    var marker := n + 1 + declared;
    if marker < |begin| && begin[marker] == '\n' { marker := marker + 1; }
    assert begin[marker..] == begin[ContentEnd(begin, n + 1 + declared)..];
    assert marker + |OUTPUT_END| <= |begin| ==> begin[marker..][..|OUTPUT_END|] == begin[marker..marker + |OUTPUT_END|];
    if |begin| - marker < |OUTPUT_END| || begin[marker..marker + |OUTPUT_END|] != OUTPUT_END { return None; }
    return Some(begin[n + 1..n + 1 + declared]);
  }

  lemma TraceStep(s: string, first: nat, last: nat)
    requires first < |s| && FindCase(s[first..]) == Some(s[first..])
    requires NextLine(s, first) <= last <= |s|
    requires FindCase(s[NextLine(s, first)..]) == if last < |s| then Some(s[last..]) else None
    ensures ReadTrace(s[first..]) == [ReadCase(s[first..last])] + ReadTrace(s[last..])
  {
    hide FindCase, ReadCase, AfterLine, NextLine, StartsWith;
    LineAt(s, first, "");
    var c := s[first..];
    assert OrEmpty(FindCase(AfterLine(c))) == s[last..];
    assert c[..last - first] == s[first..last];
  }

  lemma TraceFrom(s: string, start: nat, first: int)
    requires start <= |s|
    requires if first < 0 then FindCase(s[start..]) == None
             else start <= first < |s| && FindCase(s[start..]) == Some(s[first..])
    ensures first < 0 ==> ReadTrace(s[start..]) == []
    ensures first >= 0 ==> FindCase(s[first..]) == Some(s[first..]) && ReadTrace(s[start..]) == ReadTrace(s[first..])
  {
    hide FindCase, ReadCase, AfterLine;
    if first >= 0 { FoundIsHere(s[start..]); }
  }

  /** Looking again where a case was found finds it again. */
  lemma {:induction false} FoundIsHere(s: string)
    ensures FindCase(s).Some? ==> FindCase(FindCase(s).value) == FindCase(s)
    decreases |s|
  {
    hide SkipBlock, AfterLine, LineLen, StartsWith;
    if s != [] {
      var skip := SkipBlock(s);
      if skip.Some? {
        FoundIsHere(s[skip.value..]);
      } else if !StartsWith(s[..LineLen(s)], CASE_MARK) {
        FoundIsHere(AfterLine(s));
      }
    }
  }

  /** The scan of a whole trace. */
  method Regrade(text: string) returns (cases: seq<Reading>)
    ensures cases == ReadTrace(text)
  {
    hide FindCase, ReadCase, LineLen, ReadTrace;
    cases := [];
    var start := 0;
    assert text[0..] == text;
    while true
      invariant start <= |text|
      invariant ReadTrace(text) == cases + ReadTrace(text[start..])
      decreases |text| - start
    {
      var caseStart := FindNextCase(text, start);
      TraceFrom(text, start, caseStart);
      if caseStart < 0 { break; }
      var n := LineLen(text[caseStart..]);
      var afterHeader := if caseStart + n < |text| then caseStart + n + 1 else |text|;
      var caseEnd := FindNextCase(text, afterHeader);
      if caseEnd < 0 { caseEnd := |text|; }
      TraceStep(text, caseStart, caseEnd);
      var reading := ReadOne(text[caseStart..caseEnd]);
      cases := cases + [reading];
      start := caseEnd;
    }
  }

  method ReadOne(s: string) returns (r: Reading)
    ensures r == ReadCase(s)
  {
    hide GetField, CopyOutput;
    var source := GetLineField(s, "source: ", SOURCE_SIZE);
    var id := GetLineField(s, "id: ", ID_SIZE);
    if source.None? || id.None? { return NoIds; }
    var status := GetLineField(s, "status: ", STATUS_SIZE);
    var picked := GetLineField(s, "picked: ", PICKED_SIZE);
    var output := CopyModelOutput(s);
    if output.None? { return NoOutput(source.value, id.value); }
    return Record(source.value, id.value, OrEmpty(status), OrEmpty(picked), output.value);
  }

  // ----------------------------------------------------------------------- writer

  lemma CStringAt(s: string, n: nat)
    requires n < |s| && s[n] == '\0' && '\0' !in s[..n]
    ensures CString(s) == s[..n]
  {
    hide CString;
    assert s == s[..n] + s[n..];
    CStringOfBoth(s[..n], s[n..]);
    NulFirst(s[n..]);
  }

  lemma NulFirst(s: string)
    requires s != [] && s[0] == '\0'
    ensures CString(s) == []
  {
  }

  /** strlen. */
  method StrLen(s: string) returns (n: nat)
    ensures n <= |s| && s[..n] == CString(s)
  {
    hide CString;
    n := 0;
    while n < |s| && s[n] != '\0'
      invariant n <= |s| && '\0' !in s[..n]
    {
      assert s[..n + 1] == s[..n] + [s[n]];
      n := n + 1;
    }
    if n < |s| {
      CStringAt(s, n);
    } else {
      assert s[..n] == s;
      CStringIsStart(s);
    }
  }

  /** Counts a text by strlen, and writes so much of it. */
  method WriteBlock(trace: string, name: string, text: string) returns (out: string)
    ensures out == trace + Block(name, CString(text))
  {
    hide Decimal.Show, BEGIN_MARK, CString;
    var len := StrLen(text);
    out := trace + name + BEGIN_MARK + Decimal.Show(len) + "\n";
    if len > 0 {
      out := out + text[..len];
      if text[len - 1] != '\n' { out := out + "\n"; }
    }
    out := out + name + "_END\n";
  }

  method WriteChoices(trace: string, choices: seq<string>) returns (out: string)
    ensures out == trace + Joined(ChoiceLines(choices, 0))
  {
    out := trace;
    var i := 0;
    assert choices[0..] == choices;
    while i < |choices|
      invariant 0 <= i <= |choices|
      invariant out + Joined(ChoiceLines(choices[i..], i)) == trace + Joined(ChoiceLines(choices, 0))
    {
      var line := "  " + [Letter(i)] + ". " + choices[i];
      assert choices[i..][1..] == choices[i + 1..];
      ghost var more := ChoiceLines(choices[i + 1..], i + 1);
      assert ChoiceLines(choices[i..], i) == [line] + more;
      assert ([line] + more)[1..] == more;
      assert out + (line + "\n" + Joined(more)) == (out + line + "\n") + Joined(more);
      out := out + line + "\n";
      i := i + 1;
    }
  }

  method WriteClose(trace: string, close: Option<ThinkClose>) returns (out: string)
    ensures out == trace + Joined(CloseLines(close))
  {
    match close {
      case Some(t) =>
        out := trace + Joined(["think_close: " + t.kind, "think_close_token_index: " + t.index,
                               "think_close_remaining_budget: " + t.remaining, "think_close_rank: " + t.rank]);
      case None => out := trace + Joined(["think_close: none"]);
    }
  }

  method WriteError(trace: string, c: Case) returns (out: string)
    ensures out == trace + Joined(ErrorLines(c))
  {
    out := trace;
    if c.error != "" { out := out + Joined(["error: " + c.error]); }
  }

  method WriteAllChoices(trace: string, c: Case) returns (out: string)
    ensures out == trace + Joined(AllChoiceLines(c))
  {
    hide ChoiceLines;
    out := trace;
    if |c.choices| > 0 {
      TraceRoundTrip.JoinedConcat(["choices:"], ChoiceLines(c.choices, 0));
      out := out + Joined(["choices:"]);
      out := WriteChoices(out, c.choices);
    }
  }

  lemma JoinedFour(a: seq<string>, b: seq<string>, c: seq<string>, d: seq<string>)
    ensures Joined(a + (b + c + d)) == Joined(a) + Joined(b) + Joined(c) + Joined(d)
  {
    hide Joined;
    TraceRoundTrip.JoinedConcat(a, b + c + d);
    TraceRoundTrip.JoinedConcat(b + c, d);
    TraceRoundTrip.JoinedConcat(b, c);
  }

  /** The optional lines: how thinking was closed, an error, and the choices; then the kind. */
  method WriteOptional(trace: string, c: Case) returns (out: string)
    ensures out == trace + Joined(CloseLines(c.close) + EndLines(c))
  {
    hide Joined, CloseLines, ErrorLines, AllChoiceLines, KindLines;
    JoinedFour(CloseLines(c.close), ErrorLines(c), AllChoiceLines(c), KindLines(c));
    out := WriteClose(trace, c.close);
    out := WriteError(out, c);
    out := WriteAllChoices(out, c);
    out := out + Joined(KindLines(c));
  }

  method WriteCase(trace: string, c: Case) returns (out: string)
    ensures out == trace + CaseText(c)
  {
    hide Joined, Block, CloseLines, EndLines, NumberLines, HeaderLine;
    var fields := TraceRoundTrip.HeadLines(c)[1..];
    out := trace + HeaderLine(c) + "\n" + Joined(fields + NumberLines(c));
    ghost var optional := CloseLines(c.close) + EndLines(c);
    out := WriteOptional(out, c);
    TraceRoundTrip.JoinedConcat(fields + NumberLines(c), optional);
    assert MetaLines(c) == fields + NumberLines(c) + optional;
    out := WriteBlock(out, "SYSTEM_PROMPT", c.system);
    out := WriteBlock(out, "QUESTION_PROMPT", c.question);
    out := WriteBlock(out, "MODEL_OUTPUT", c.output);
    out := out + "\n";
  }
}
