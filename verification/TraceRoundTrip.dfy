/** A trace written for any cases is read back as those cases, whatever the blocks hold. */
module TraceRoundTrip {
  import Decimal
  import opened Optional
  import opened TraceFormat

  // ------------------------------------------------------------------- clean lines

  ghost predicate NoMark(s: string) {
    forall i :: !OccursAt(s, BEGIN_MARK, i)
  }

  /** A single line that cannot be taken for the start of a block. */
  ghost predicate Clean(s: string) {
    '\n' !in s && NoMark(s)
  }

  lemma OccursChars(s: string, needle: string, i: int, k: nat)
    requires k < |needle|
    ensures OccursAt(s, needle, i) ==> s[i + k] == needle[k]
  {
    if OccursAt(s, needle, i) { assert s[i..i + |needle|][k] == s[i + k]; }
  }

  /** No mark can start in this text, whatever follows it. */
  predicate NoMarkStart(s: string) {
    forall i :: 0 <= i < |s| && s[i] == '_' ==> i + 1 < |s| && s[i + 1] != 'B'
  }

  /** No mark can end in this text after having started before it. */
  predicate NoMarkEnd(s: string) {
    s == [] || s[0] !in "BEGIN bytes=" || (s[0] == ' ' && |s| > 1 && s[1] != 'b')
  }

  lemma CleanBehind(key: string, value: string)
    requires NoMarkStart(key) && '\n' !in key && Clean(value)
    ensures Clean(key + value)
  {
    var s := key + value;
    forall i ensures !OccursAt(s, BEGIN_MARK, i) {
      if OccursAt(s, BEGIN_MARK, i) {
        OccursChars(s, BEGIN_MARK, i, 0);
        OccursChars(s, BEGIN_MARK, i, 1);
        assert i >= |key|;
        assert s[i..i + |BEGIN_MARK|] == value[i - |key|..i - |key| + |BEGIN_MARK|];
        assert OccursAt(value, BEGIN_MARK, i - |key|);
      }
    }
  }

  lemma CleanAhead(value: string, tail: string)
    requires Clean(value) && Clean(tail) && NoMarkEnd(tail)
    ensures Clean(value + tail)
  {
    var s := value + tail;
    forall i ensures !OccursAt(s, BEGIN_MARK, i) {
      if OccursAt(s, BEGIN_MARK, i) {
        if i + |BEGIN_MARK| <= |value| {
          assert s[i..i + |BEGIN_MARK|] == value[i..i + |BEGIN_MARK|];
          assert OccursAt(value, BEGIN_MARK, i);
        } else if i >= |value| {
          assert s[i..i + |BEGIN_MARK|] == tail[i - |value|..i - |value| + |BEGIN_MARK|];
          assert OccursAt(tail, BEGIN_MARK, i - |value|);
        } else {
          OccursChars(s, BEGIN_MARK, i, |value| - i);
          OccursChars(s, BEGIN_MARK, i, 7);
        }
      }
    }
  }

  lemma EmptyClean()
    ensures Clean("")
  {
  }

  lemma KeyClean(key: string)
    requires NoMarkStart(key) && '\n' !in key
    ensures Clean(key)
  {
    EmptyClean();
    CleanBehind(key, "");
    assert key + "" == key;
  }

  lemma LineLenIs(line: string, rest: string)
    requires '\n' !in line
    ensures LineLen(line + "\n" + rest) == |line|
    ensures (line + "\n" + rest)[..|line|] == line
    ensures AfterLine(line + "\n" + rest) == rest
  {
    var s := line + "\n" + rest;
    var n := LineLen(s);
    assert s[|line|] == '\n';
    assert forall i :: 0 <= i < |line| ==> s[i] == line[i] && line[i] in line;
    assert n == |line|;
  }

  // ---------------------------------------------------------------- lines of a case

  lemma FindCaseLine(line: string, rest: string)
    requires Clean(line) && !StartsWith(line, CASE_MARK)
    ensures FindCase(line + "\n" + rest) == FindCase(rest)
  {
    LineLenIs(line, rest);
    assert IndexOf(line, BEGIN_MARK) < 0;
  }

  lemma FindCaseHeader(line: string, rest: string)
    requires Clean(line) && StartsWith(line, CASE_MARK)
    ensures FindCase(line + "\n" + rest) == Some(line + "\n" + rest)
  {
    LineLenIs(line, rest);
    assert IndexOf(line, BEGIN_MARK) < 0;
  }

  lemma FindLabelLine(line: string, rest: string, name: string)
    requires Clean(line) && !StartsWith(line, name)
    ensures FindLabel(line + "\n" + rest, name) == FindLabel(rest, name)
  {
    LineLenIs(line, rest);
    assert IndexOf(line, BEGIN_MARK) < 0;
  }

  // ------------------------------------------------------------------------ blocks

  /** A name that is a line of its own and cannot hold the mark, or the start of one. */
  ghost predicate NameOk(name: string) {
    0 < |name| <= 96 && '\n' !in name && 'B' !in name && '\0' !in name
  }

  function FirstLine(name: string, text: string): string {
    name + BEGIN_MARK + Decimal.Show(|text|)
  }

  lemma MarkAt(name: string, tail: string)
    requires 'B' !in name
    ensures IndexOf(name + BEGIN_MARK + tail, BEGIN_MARK) == |name|
  {
    var s := name + BEGIN_MARK + tail;
    assert s[|name|..|name| + |BEGIN_MARK|] == BEGIN_MARK;
    var r := IndexOf(s, BEGIN_MARK);
    assert OccursAt(s, BEGIN_MARK, |name|);
    OccursChars(s, BEGIN_MARK, r, 1);
    assert s[|name|] == '_';
    assert forall k :: 0 <= k < |name| ==> s[k] == name[k] && name[k] in name;
  }

  /** A printed count is read back, up to what 64 bits hold. */
  lemma CountIsRead(n: nat, rest: string)
    requires n <= ULLONG_MAX && (rest == [] || !Decimal.IsDigit(rest[0]))
    ensures StrToULL(Decimal.Show(n) + rest) == (n, |Decimal.Show(n)|)
  {
    var d := Decimal.Show(n);
    var s := d + rest;
    assert s[0] == d[0] && Decimal.IsDigit(d[0]);
    DigitRunIs(d, rest);
    Decimal.ShowValue(n);
    assert s[0..] == s && s[..|d|] == d;
  }

  /** Where the content ends, with or without a line break of its own, the end marker is found. */
  lemma MarkerIsThere(head: string, text: string, name: string, rest: string)
    requires NameOk(name)
    ensures var s := head + Closed(text) + name + "_END\n" + rest;
      && |head| + |text| <= |s|
      && ContentEnd(s, |head| + |text|) == |head| + |Closed(text)|
      && s[|head| + |Closed(text)|..] == (name + "_END") + ("\n" + rest)
  {
    var s, m, tail := head + Closed(text) + name + "_END\n" + rest, |head| + |text|, name + "_END\n" + rest;
    var at := |head| + |Closed(text)|;
    assert s == head + Closed(text) + tail;
    assert s[at..] == tail;
    assert s[at] == name[0] && name[0] in name;
    if at > m { assert s[m] == Closed(text)[|text|] == '\n'; }
  }

  lemma EndIsFound(head: string, text: string, name: string, rest: string)
    requires NameOk(name)
    ensures var s := head + Closed(text) + name + "_END\n" + rest;
      BlockEnd(s, |head| + |text|, name + "_END") == Some(|s| - |rest|)
  {
    hide ContentEnd, Closed;
    MarkerIsThere(head, text, name, rest);
    var s := head + Closed(text) + name + "_END\n" + rest;
    var after := |head| + |Closed(text)| + |name| + 4;
    assert s[after..] == "\n" + rest;
  }

  /** What skipping comes down to once the first line has been understood. */
  lemma SkipIs(s: string, n: nat, b: nat, declared: nat, used: nat)
    requires n == LineLen(s) < |s| && b == IndexOf(s[..n], BEGIN_MARK) && 0 < b <= 96
    requires b + |BEGIN_MARK| <= n && (declared, used) == StrToULL(s[b + |BEGIN_MARK|..])
    requires 0 < used <= n - b - |BEGIN_MARK| && n + 1 + declared <= |s|
    ensures SkipBlock(s) == BlockEnd(s, n + 1 + declared, CString(s[..n][..b]) + "_END")
  {
    hide IndexOf, LineLen, StrToULL, BlockEnd, CString;
    assert s[..n][..b] == s[..b];
  }

  /** A counted block is skipped whole, whatever its text. */
  lemma SkipsBlock(name: string, text: string, rest: string)
    requires NameOk(name) && |text| <= ULLONG_MAX
    ensures SkipBlock(Block(name, text) + rest) == Some(|Block(name, text)|)
  {
    hide IndexOf, LineLen, StrToULL, BlockEnd, CString, SkipBlock, Closed;
    var count := Decimal.Show(|text|);
    var first := FirstLine(name, text);
    var content := Closed(text) + name + "_END\n" + rest;
    var s := Block(name, text) + rest;
    BlockShape(name, text, rest);
    FirstLineClean(name, text);
    LineLenIs(first, content);
    MarkAt(name, count);
    CStringIsStart(name);
    CountIsRead(|text|, "\n" + content);
    EndIsFound(first + "\n", text, name, rest);
    SkipIs(s, |first|, |name|, |text|, |count|);
  }

  lemma BlockShape(name: string, text: string, rest: string)
    ensures var s, first := Block(name, text) + rest, FirstLine(name, text);
      && s == first + "\n" + (Closed(text) + name + "_END\n" + rest)
      && s == first + "\n" + Closed(text) + name + "_END\n" + rest
      && first[..|name|] == name
      && s[|name| + |BEGIN_MARK|..] == Decimal.Show(|text|) + ("\n" + (Closed(text) + name + "_END\n" + rest))
    ensures |text| <= |Closed(text)|
  {
  }

  lemma FirstLineClean(name: string, text: string)
    requires NameOk(name)
    ensures '\n' !in FirstLine(name, text)
  {
  }

  // ------------------------------------------------------------------ whole cases

  /** What the caller has to see to: fields are single lines that cannot be taken for a block,
      the four that are read back fit the reader's buffers and do not end in CR, and the texts can
      be counted in 64 bits. The texts themselves are free. */
  ghost predicate Writable(c: Case) {
    && Clean(c.timestamp) && Clean(c.source) && Clean(c.id) && Clean(c.domain) && Clean(c.title)
    && Clean(c.status) && Clean(c.picked) && Clean(c.expected) && Clean(c.promptTokens)
    && Clean(c.generatedTokens) && Clean(c.budget) && Clean(c.elapsed) && Clean(c.temperature)
    && Clean(c.topK) && Clean(c.topP) && Clean(c.minP) && Clean(c.mode) && Clean(c.error) && Clean(c.kind)
    && (c.close.Some? ==>
          var t := c.close.value; Clean(t.kind) && Clean(t.index) && Clean(t.remaining) && Clean(t.rank))
    && (forall x :: x in c.choices ==> Clean(x)) && |c.choices| <= MAX_CHOICES
    && ReadsBack(c.source, SOURCE_SIZE) && ReadsBack(c.id, ID_SIZE)
    && ReadsBack(c.status, STATUS_SIZE) && ReadsBack(c.picked, PICKED_SIZE)
    && |c.system| <= ULLONG_MAX && |c.question| <= ULLONG_MAX && |c.output| <= ULLONG_MAX
  }

  predicate ReadsBack(v: string, size: nat) {
    |v| < size && (v == "" || v[|v| - 1] != '\r')
  }

  /** A line the case scanner passes over: clean, no case header, no label of a block. */
  ghost predicate Passed(line: string) {
    Clean(line) && (line == [] || (line[0] != '=' && line[0] != 'M'))
  }

  ghost predicate AllPassed(lines: seq<string>) {
    forall l :: l in lines ==> Passed(l)
  }

  /** A key and a value make a line that is passed over. */
  lemma FieldLine(key: string, value: string)
    requires key != [] && '\n' !in key && NoMarkStart(key) && key[0] != '=' && key[0] != 'M'
    requires Clean(value)
    ensures Passed(key + value)
  {
    CleanBehind(key, value);
  }

  lemma MetaLinesPassed(c: Case)
    requires Writable(c)
    ensures AllPassed(MetaLines(c))
  {
    hide Clean, Passed, Picked, TailLines;
    OriginLinesPassed(c);
    VerdictLinesPassed(c);
    TailLinesPassed(c);
  }

  lemma OriginLinesPassed(c: Case)
    requires Writable(c)
    ensures Passed("timestamp_unix: " + c.timestamp) && Passed("source: " + c.source) && Passed("id: " + c.id)
    ensures Passed("domain: " + c.domain)
  {
    hide Clean, Passed;
    FieldLine("timestamp_unix: ", c.timestamp);
    FieldLine("source: ", c.source);
    FieldLine("id: ", c.id);
    FieldLine("domain: ", c.domain);
  }

  lemma VerdictLinesPassed(c: Case)
    requires Writable(c)
    ensures Passed("title: " + c.title) && Passed("status: " + c.status) && Passed("picked: " + Picked(c))
  {
    hide Clean, Passed, Picked;
    FieldLine("title: ", c.title);
    FieldLine("status: ", c.status);
    PickedClean(c);
    FieldLine("picked: ", Picked(c));
  }

  lemma PickedClean(c: Case)
    requires Clean(c.picked)
    ensures Clean(Picked(c))
  {
    KeyClean("?");
  }

  lemma TailLinesPassed(c: Case)
    requires Writable(c)
    ensures AllPassed(TailLines(c))
  {
    hide Clean, ChoiceLines, CloseLines, NumberLines, EndLines, Passed;
    NumberLinesPassed(c);
    CloseLinesPassed(c.close);
    EndLinesPassed(c);
  }

  lemma NumberLinesPassed(c: Case)
    requires Writable(c)
    ensures AllPassed(NumberLines(c))
  {
    hide Clean, Passed, CountLines, SamplingLines;
    CountLinesPassed(c);
    SamplingLinesPassed(c);
  }

  lemma CountKeys()
    ensures NoMarkStart("prompt_tokens: ") && NoMarkStart("generated_tokens: ") && NoMarkStart("generation_budget: ")
    ensures NoMarkStart("elapsed_sec: ") && NoMarkStart("expected: ")
  {
  }

  lemma CloseKeys()
    ensures NoMarkStart("think_close: ") && NoMarkStart("think_close_token_index: ")
    ensures NoMarkStart("think_close_remaining_budget: ") && NoMarkStart("think_close_rank: ")
  {
  }

  lemma CountLinesPassed(c: Case)
    requires Writable(c)
    ensures AllPassed(CountLines(c))
  {
    hide Clean, Passed, NoMarkStart;
    CountKeys();
    FieldLine("expected: ", c.expected);
    FieldLine("prompt_tokens: ", c.promptTokens);
    FieldLine("generated_tokens: ", c.generatedTokens);
    FieldLine("generation_budget: ", c.budget);
    FieldLine("elapsed_sec: ", c.elapsed);
  }

  lemma SamplingLinesPassed(c: Case)
    requires Writable(c)
    ensures AllPassed(SamplingLines(c))
  {
    hide Clean, Passed;
    FieldLine("temperature: ", c.temperature);
    FieldLine("top_k: ", c.topK);
    FieldLine("top_p: ", c.topP);
    FieldLine("min_p: ", c.minP);
    FieldLine("think_mode_effective: ", c.mode);
  }

  lemma EndLinesPassed(c: Case)
    requires Writable(c)
    ensures AllPassed(EndLines(c))
  {
    hide Clean, ChoiceLines;
    FieldLine("error: ", c.error);
    FieldLine("answer_kind: ", c.kind);
    EmptyClean();
    FieldLine("choices:", "");
    assert "choices:" + "" == "choices:";
    ChoiceLinesPassed(c.choices, 0);
  }

  lemma NoneClean()
    ensures Clean("none")
  {
    KeyClean("none");
  }

  lemma CloseLinesPassed(close: Option<ThinkClose>)
    requires close.Some? ==>
      var t := close.value; Clean(t.kind) && Clean(t.index) && Clean(t.remaining) && Clean(t.rank)
    ensures AllPassed(CloseLines(close))
  {
    hide Clean, NoMarkStart;
    CloseKeys();
    if close.Some? {
      FieldLine("think_close: ", close.value.kind);
      FieldLine("think_close_token_index: ", close.value.index);
      FieldLine("think_close_remaining_budget: ", close.value.remaining);
      FieldLine("think_close_rank: ", close.value.rank);
    } else {
      NoneClean();
      FieldLine("think_close: ", "none");
      assert "think_close: " + "none" == "think_close: none";
    }
  }

  lemma {:induction false} ChoiceLinesPassed(choices: seq<string>, i: nat)
    requires i + |choices| <= MAX_CHOICES && forall x :: x in choices ==> Clean(x)
    ensures AllPassed(ChoiceLines(choices, i))
    decreases |choices|
  {
    if choices != [] {
      var key := "  " + [Letter(i)] + ". ";
      ChoiceLinesPassed(choices[1..], i + 1);
      assert choices[0] in choices;
      CleanBehind(key, choices[0]);
    }
  }

  /** Lines that are neither the start of a block nor a case header. */
  ghost predicate AllSkipped(lines: seq<string>) {
    forall l :: l in lines ==> Clean(l) && !StartsWith(l, CASE_MARK)
  }

  lemma {:induction false} FindCaseLines(lines: seq<string>, rest: string)
    requires AllSkipped(lines)
    ensures FindCase(Joined(lines) + rest) == FindCase(rest)
    decreases |lines|
  {
    hide FindCase;
    if lines == [] {
      assert Joined(lines) + rest == rest;
    } else {
      assert lines[0] in lines;
      FindCaseLines(lines[1..], rest);
      assert Joined(lines) + rest == lines[0] + "\n" + (Joined(lines[1..]) + rest);
      FindCaseLine(lines[0], Joined(lines[1..]) + rest);
    }
  }

  lemma {:induction false} FindLabelLines(lines: seq<string>, rest: string)
    requires AllPassed(lines)
    ensures FindLabel(Joined(lines) + rest, OUTPUT_BEGIN) == FindLabel(rest, OUTPUT_BEGIN)
    decreases |lines|
  {
    hide FindLabel;
    if lines == [] {
      assert Joined(lines) + rest == rest;
    } else {
      assert lines[0] in lines;
      FindLabelLines(lines[1..], rest);
      assert Joined(lines) + rest == lines[0] + "\n" + (Joined(lines[1..]) + rest);
      FindLabelLine(lines[0], Joined(lines[1..]) + rest, OUTPUT_BEGIN);
    }
  }

  lemma FindCaseBlock(name: string, text: string, rest: string)
    requires NameOk(name) && |text| <= ULLONG_MAX
    ensures FindCase(Block(name, text) + rest) == FindCase(rest)
  {
    hide Block, SkipBlock;
    SkipsBlock(name, text, rest);
    assert (Block(name, text) + rest)[|Block(name, text)|..] == rest;
  }

  lemma FindLabelBlock(name: string, text: string, rest: string)
    requires NameOk(name) && |text| <= ULLONG_MAX && name[0] != 'M'
    ensures FindLabel(Block(name, text) + rest, OUTPUT_BEGIN) == FindLabel(rest, OUTPUT_BEGIN)
  {
    hide SkipBlock, LineLen, StartsWith;
    SkipsBlock(name, text, rest);
    var s := Block(name, text) + rest;
    assert s[|Block(name, text)|..] == rest;
    BlockShape(name, text, rest);
    FirstLineClean(name, text);
    LineLenIs(FirstLine(name, text), Closed(text) + name + "_END\n" + rest);
    assert FirstLine(name, text)[0] == name[0];
    StartsDiffer(FirstLine(name, text), OUTPUT_BEGIN);
  }

  lemma StartsDiffer(s: string, prefix: string)
    requires s != [] && prefix != [] && s[0] != prefix[0]
    ensures !StartsWith(s, prefix)
  {
  }

  /** Everything of a case behind its header is passed over on the way to the next case. */
  lemma FindCaseBody(c: Case, rest: string)
    requires Writable(c)
    ensures FindCase(CaseBody(c) + rest) == FindCase(rest)
  {
    hide FindCase, Block, MetaLines, Clean, CString;
    MetaLinesPassed(c);
    assert AllSkipped(MetaLines(c));
    var s3 := "\n" + rest;
    var s2 := Block("MODEL_OUTPUT", CString(c.output)) + s3;
    var s1 := Block("QUESTION_PROMPT", CString(c.question)) + s2;
    var s0 := Block("SYSTEM_PROMPT", CString(c.system)) + s1;
    assert CaseBody(c) + rest == Joined(MetaLines(c)) + s0;
    FindCaseLines(MetaLines(c), s0);
    FindCaseBlock("SYSTEM_PROMPT", CString(c.system), s1);
    FindCaseBlock("QUESTION_PROMPT", CString(c.question), s2);
    FindCaseBlock("MODEL_OUTPUT", CString(c.output), s3);
    EmptyClean();
    FindCaseLine("", rest);
    assert "" + "\n" + rest == s3;
  }

  /** The model output comes back byte for byte, up to its first NUL. */
  lemma OutputIsRead(c: Case)
    requires Writable(c)
    ensures CopyOutput(CaseText(c)) == Some(CString(c.output))
  {
    hide FindLabel, OutputOf, CString;
    OutputIsFound(c);
    OutputBlock(CString(c.output));
  }

  /** So it comes back whole exactly when it holds no NUL. */
  lemma OutputComesBack(c: Case)
    requires Writable(c)
    ensures CopyOutput(CaseText(c)) == Some(c.output) <==> '\0' !in c.output
  {
    hide CopyOutput, CString, Writable;
    OutputIsRead(c);
    CStringIsStart(c.output);
  }

  /** For one: what stands behind a NUL is lost. */
  lemma NulCutsOutput(c: Case)
    requires Writable(c) && c.output == "a\0b"
    ensures CopyOutput(CaseText(c)) == Some("a")
  {
    hide CopyOutput, Writable;
    OutputIsRead(c);
    assert "a\0b"[1..] == "\0b" && CString("\0b") == "";
    assert CString("a\0b") == "a";
  }

  lemma OutputIsFound(c: Case)
    requires Writable(c)
    ensures FindLabel(CaseText(c), OUTPUT_BEGIN)
         == FindLabel(Block("MODEL_OUTPUT", CString(c.output)) + "\n", OUTPUT_BEGIN)
  {
    hide FindLabel, Block, MetaLines, Clean, HeaderLine, OUTPUT_BEGIN, CString;
    var s2 := Block("MODEL_OUTPUT", CString(c.output)) + "\n";
    var s1 := Block("QUESTION_PROMPT", CString(c.question)) + s2;
    var s0 := Block("SYSTEM_PROMPT", CString(c.system)) + s1;
    assert CaseText(c) == HeaderLine(c) + "\n" + (Joined(MetaLines(c)) + s0);
    HeaderClean(c);
    HeaderNoLabel(HeaderLine(c));
    FindLabelLine(HeaderLine(c), Joined(MetaLines(c)) + s0, OUTPUT_BEGIN);
    MetaLinesPassed(c);
    FindLabelLines(MetaLines(c), s0);
    FindLabelBlock("SYSTEM_PROMPT", CString(c.system), s1);
    FindLabelBlock("QUESTION_PROMPT", CString(c.question), s2);
  }

  lemma HeaderNoLabel(s: string)
    requires s != [] && s[0] == '='
    ensures !StartsWith(s, OUTPUT_BEGIN)
  {
  }

  /** The header line is clean and marks a case. */
  lemma HeaderClean(c: Case)
    requires Writable(c)
    ensures Clean(HeaderLine(c)) && StartsWith(HeaderLine(c), CASE_MARK) && HeaderLine(c)[0] == '='
  {
    var i, n := Decimal.Show(c.index + 1), Decimal.Show(c.total);
    var head := CASE_MARK + i + "/" + n + " ";
    KeyClean("/");
    KeyClean(" =====");
    CleanAhead(c.id, " =====");
    CleanBehind("/", c.id + " =====");
    CleanAhead(c.source, "/" + (c.id + " ====="));
    CleanBehind(head, c.source + ("/" + (c.id + " =====")));
    HeaderParts(c);
  }

  lemma HeaderParts(c: Case)
    ensures var head := CASE_MARK + Decimal.Show(c.index + 1) + "/" + Decimal.Show(c.total) + " ";
      HeaderLine(c) == head + (c.source + ("/" + (c.id + " =====")))
    ensures StartsWith(HeaderLine(c), CASE_MARK) && HeaderLine(c)[0] == '='
  {
    hide Decimal.Show;
    var i, n := Decimal.Show(c.index + 1), Decimal.Show(c.total);
    assert HeaderLine(c)[..|CASE_MARK|] == CASE_MARK;
    assert CASE_MARK[0] == '=';
  }

  lemma FirstAt(head: string, needle: string, tail: string)
    requires needle != [] && needle[0] !in head
    ensures IndexOf(head + needle + tail, needle) == |head|
  {
    var s := head + needle + tail;
    assert s[|head|..|head| + |needle|] == needle;
    assert OccursAt(s, needle, |head|);
    OccursChars(s, needle, IndexOf(s, needle), 0);
    assert forall k :: 0 <= k < |head| ==> s[k] == head[k] && head[k] in head;
  }

  lemma FindLabelHere(s: string, name: string)
    requires s != [] && StartsWith(s[..LineLen(s)], name)
    ensures FindLabel(s, name) == Some(s)
  {
    hide StartsWith, LineLen;
  }

  /** The first line of a block starts with a label that its name and the mark begin with. */
  lemma LabelIsFound(name: string, label0: string, tail: string, text: string, rest: string)
    requires NameOk(name) && name + BEGIN_MARK == label0 + tail
    ensures var s, first := Block(name, text) + rest, FirstLine(name, text);
      LineLen(s) == |first| < |s| && FindLabel(s, label0) == Some(s)
  {
    hide Closed, StartsWith, LineLen, FindLabel, BEGIN_MARK, Decimal.Show;
    var s := Block(name, text) + rest;
    var first := FirstLine(name, text);
    BlockShape(name, text, rest);
    FirstLineClean(name, text);
    LineLenIs(first, Closed(text) + name + "_END\n" + rest);
    assert first == label0 + (tail + Decimal.Show(|text|));
    StartsWithIt(label0, tail + Decimal.Show(|text|));
    FindLabelHere(s, label0);
  }

  lemma OutputBlock(text: string)
    requires |text| <= ULLONG_MAX
    ensures CopyOutput(Block("MODEL_OUTPUT", text) + "\n") == Some(text)
  {
    hide Block, OutputOf, LineLen, FindLabel, FirstLine;
    assert "MODEL_OUTPUT" + BEGIN_MARK == OUTPUT_BEGIN + " bytes=";
    LabelIsFound("MODEL_OUTPUT", OUTPUT_BEGIN, " bytes=", text, "\n");
    OutputParsed(text);
  }

  lemma StartsWithIt(a: string, b: string)
    ensures StartsWith(a + b, a)
  {
  }

  /** What reading an output comes down to once its first line has been understood. */
  lemma OutputIs(s: string, n: nat, b: nat, declared: nat, used: nat)
    requires n < |s| && b == IndexOf(s[..n], "bytes=") && b + 6 + used <= n && used > 0
    requires (declared, used) == StrToULL(s[b + 6..]) && n + 1 + declared <= |s|
    requires StartsWith(s[ContentEnd(s, n + 1 + declared)..], OUTPUT_END)
    ensures OutputOf(s, n) == Some(s[n + 1..n + 1 + declared])
  {
    hide IndexOf, StrToULL, StartsWith, ContentEnd;
  }

  lemma OutputParsed(text: string)
    requires |text| <= ULLONG_MAX
    ensures var s, n := Block("MODEL_OUTPUT", text) + "\n", |FirstLine("MODEL_OUTPUT", text)|;
      n < |s| && OutputOf(s, n) == Some(text)
  {
    hide Closed, StartsWith, IndexOf, StrToULL, ContentEnd, OutputOf, BlockEnd;
    var name, count := "MODEL_OUTPUT", Decimal.Show(|text|);
    var s := Block(name, text) + "\n";
    var first := FirstLine(name, text);
    var content := Closed(text) + name + "_END\n" + "\n";
    BlockShape(name, text, "\n");
    OutputFirstLine(count);
    assert s[..|first|] == first;
    CountIsRead(|text|, "\n" + content);
    OutputEnds(first + "\n", text);
    OutputIs(s, |first|, 19, |text|, |count|);
    ClosedStarts(text);
    assert s[|first| + 1..] == content;
    assert s[|first| + 1..|first| + 1 + |text|] == content[..|text|] == Closed(text)[..|text|];
  }

  lemma OutputEnds(head: string, text: string)
    ensures var s := head + Closed(text) + "MODEL_OUTPUT" + "_END\n" + "\n";
      |head| + |text| <= |s| && StartsWith(s[ContentEnd(s, |head| + |text|)..], OUTPUT_END)
  {
    hide Closed, ContentEnd, StartsWith;
    MarkerIsThere(head, text, "MODEL_OUTPUT", "\n");
    StartsWithIt(OUTPUT_END, "\n" + "\n");
    assert "MODEL_OUTPUT" + "_END" == OUTPUT_END;
  }

  lemma OutputFirstLine(count: string)
    ensures IndexOf("MODEL_OUTPUT" + BEGIN_MARK + count, "bytes=") == 19
  {
    hide IndexOf;
    FirstAt("MODEL_OUTPUT_BEGIN ", "bytes=", count);
    assert "MODEL_OUTPUT" + BEGIN_MARK + count == "MODEL_OUTPUT_BEGIN " + "bytes=" + count;
  }

  lemma ClosedStarts(text: string)
    ensures |text| <= |Closed(text)| && Closed(text)[..|text|] == text
  {
  }

  // ------------------------------------------------------------------------ fields

  lemma FieldPassed(line: string, rest: string, key: string, size: nat)
    requires size > 0 && '\n' !in line && !StartsWith(line, key)
    ensures GetField(line + "\n" + rest, key, size) == GetField(rest, key, size)
  {
    LineLenIs(line, rest);
  }

  lemma FieldHit(key: string, value: string, rest: string, size: nat)
    requires size > 0 && '\n' !in key && '\n' !in value && ReadsBack(value, size)
    ensures GetField(key + value + "\n" + rest, key, size) == Some(value)
  {
    var line := key + value;
    LineLenIs(line, rest);
    StartsWithIt(key, value);
    assert line[|key|..] == value;
    assert value != "" ==> value[|value| - 1] in value;
  }

  ghost predicate NoBreaks(lines: seq<string>) {
    forall l :: l in lines ==> '\n' !in l
  }

  /** The first line with the key gives the field. */
  lemma {:induction false} FieldIsRead(lines: seq<string>, i: nat, key: string, value: string, rest: string, size: nat)
    requires i < |lines| && NoBreaks(lines) && lines[i] == key + value
    requires forall j :: 0 <= j < i ==> !StartsWith(lines[j], key)
    requires size > 0 && '\n' !in key && '\n' !in value && ReadsBack(value, size)
    ensures GetField(Joined(lines) + rest, key, size) == Some(value)
    decreases i
  {
    hide GetField, StartsWith, ReadsBack;
    assert lines[0] in lines;
    var tail := Joined(lines[1..]) + rest;
    assert Joined(lines) + rest == lines[0] + "\n" + tail;
    if i == 0 {
      FieldHit(key, value, tail, size);
    } else {
      FieldPassed(lines[0], tail, key, size);
      FieldIsRead(lines[1..], i - 1, key, value, rest, size);
    }
  }

  /** The first lines of a case. */
  function HeadLines(c: Case): seq<string> {
    [HeaderLine(c), "timestamp_unix: " + c.timestamp, "source: " + c.source, "id: " + c.id,
     "domain: " + c.domain, "title: " + c.title, "status: " + c.status, "picked: " + Picked(c)]
  }

  lemma {:induction false} JoinedConcat(a: seq<string>, b: seq<string>)
    ensures Joined(a + b) == Joined(a) + Joined(b)
  {
    if a == [] {
      assert a + b == b;
    } else {
      assert (a + b)[1..] == a[1..] + b;
      JoinedConcat(a[1..], b);
    }
  }

  lemma CaseHead(c: Case) returns (rest: string)
    ensures CaseText(c) == Joined(HeadLines(c)) + rest
  {
    hide Block, HeaderLine, TailLines, CString;
    var blocks := Block("SYSTEM_PROMPT", CString(c.system)) + Block("QUESTION_PROMPT", CString(c.question))
                  + Block("MODEL_OUTPUT", CString(c.output)) + "\n";
    rest := Joined(TailLines(c)) + blocks;
    var fields := HeadLines(c)[1..];
    JoinedConcat(fields, TailLines(c));
    assert MetaLines(c) == fields + TailLines(c);
    assert CaseText(c) == HeaderLine(c) + "\n" + Joined(fields) + rest;
  }

  lemma KeysDiffer(line: string, key: string, k: nat)
    requires k < |key| && (k < |line| ==> line[k] != key[k])
    ensures !StartsWith(line, key)
  {
    StartsChar(line, key, k);
  }

  lemma StartsChar(s: string, prefix: string, k: nat)
    requires k < |prefix|
    ensures StartsWith(s, prefix) ==> s[k] == prefix[k]
  {
    if StartsWith(s, prefix) { assert s[..|prefix|][k] == s[k]; }
  }

  lemma HeadLinesUnbroken(c: Case)
    requires Writable(c)
    ensures NoBreaks(HeadLines(c)) && HeadLines(c)[0] != "" && HeadLines(c)[0][0] == '='
  {
    hide NoMark;
    HeaderClean(c);
    PickedClean(c);
  }

  /** The fields that the reader asks for come back as they were given. */
  lemma SourceAndIdAreRead(c: Case)
    requires Writable(c)
    ensures GetField(CaseText(c), "source: ", SOURCE_SIZE) == Some(c.source)
    ensures GetField(CaseText(c), "id: ", ID_SIZE) == Some(c.id)
  {
    hide GetField, StartsWith, Joined, NoBreaks, HeaderLine, CaseText;
    var rest := CaseHead(c);
    HeadLinesUnbroken(c);
    var h := HeadLines(c);
    KeysDiffer(h[0], "source: ", 0); KeysDiffer(h[1], "source: ", 0);
    FieldIsRead(h, 2, "source: ", c.source, rest, SOURCE_SIZE);
    KeysDiffer(h[0], "id: ", 0); KeysDiffer(h[1], "id: ", 0); KeysDiffer(h[2], "id: ", 0);
    FieldIsRead(h, 3, "id: ", c.id, rest, ID_SIZE);
  }

  lemma StatusIsRead(c: Case)
    requires Writable(c)
    ensures GetField(CaseText(c), "status: ", STATUS_SIZE) == Some(c.status)
  {
    hide GetField, StartsWith, Joined, NoBreaks, HeaderLine, CaseText;
    var rest := CaseHead(c);
    HeadLinesUnbroken(c);
    var h := HeadLines(c);
    KeysDiffer(h[0], "status: ", 0); KeysDiffer(h[1], "status: ", 0); KeysDiffer(h[2], "status: ", 1);
    KeysDiffer(h[3], "status: ", 0); KeysDiffer(h[4], "status: ", 0); KeysDiffer(h[5], "status: ", 0);
    FieldIsRead(h, 6, "status: ", c.status, rest, STATUS_SIZE);
  }

  lemma PickedIsRead(c: Case)
    requires Writable(c)
    ensures GetField(CaseText(c), "picked: ", PICKED_SIZE) == Some(Picked(c))
  {
    hide GetField, StartsWith, Joined, NoBreaks, HeaderLine, CaseText;
    var rest := CaseHead(c);
    HeadLinesUnbroken(c);
    var h := HeadLines(c);
    KeysDiffer(h[0], "picked: ", 0); KeysDiffer(h[1], "picked: ", 0); KeysDiffer(h[2], "picked: ", 0);
    KeysDiffer(h[3], "picked: ", 0); KeysDiffer(h[4], "picked: ", 0); KeysDiffer(h[5], "picked: ", 0);
    KeysDiffer(h[6], "picked: ", 0);
    PickedClean(c);
    FieldIsRead(h, 7, "picked: ", Picked(c), rest, PICKED_SIZE);
  }

  // -------------------------------------------------------------------- whole trace

  /** What a case is read back as. An empty pick is written, and read, as a question mark. */
  function Recorded(c: Case): Reading {
    Record(c.source, c.id, c.status, Picked(c), CString(c.output))
  }

  function AllRecorded(cases: seq<Case>): seq<Reading> {
    if cases == [] then [] else [Recorded(cases[0])] + AllRecorded(cases[1..])
  }

  lemma CaseIsRead(c: Case)
    requires Writable(c)
    ensures ReadCase(CaseText(c)) == Recorded(c)
  {
    hide Writable, GetField, CopyOutput, CaseText;
    SourceAndIdAreRead(c);
    StatusIsRead(c);
    PickedIsRead(c);
    OutputIsRead(c);
  }

  /** A case is where its header is, and the next one is looked for behind it. */
  lemma CaseIsFound(c: Case, rest: string)
    requires Writable(c)
    ensures FindCase(CaseText(c) + rest) == Some(CaseText(c) + rest)
    ensures FindCase(AfterLine(CaseText(c) + rest)) == FindCase(rest)
  {
    hide FindCase, AfterLine, CaseBody, HeaderLine, NoMark, Writable;
    HeaderClean(c);
    assert CaseText(c) + rest == HeaderLine(c) + "\n" + (CaseBody(c) + rest);
    FindCaseHeader(HeaderLine(c), CaseBody(c) + rest);
    LineLenIs(HeaderLine(c), CaseBody(c) + rest);
    FindCaseBody(c, rest);
  }

  ghost predicate AllWritable(cases: seq<Case>) {
    forall c :: c in cases ==> Writable(c)
  }

  lemma {:induction false} CasesAreRead(cases: seq<Case>)
    requires AllWritable(cases)
    ensures ReadTrace(CasesText(cases)) == AllRecorded(cases)
    ensures var found := FindCase(CasesText(cases)); found == if cases == [] then None else Some(CasesText(cases))
    decreases |cases|
  {
    hide FindCase, AfterLine, CaseText, Writable, ReadCase, Recorded;
    if cases == [] {
      FindNothing();
    } else {
      var c, rest := cases[0], CasesText(cases[1..]);
      assert c in cases;
      CasesAreRead(cases[1..]);
      CaseIsFound(c, rest);
      CaseIsRead(c);
      var text := CasesText(cases);
      assert text == CaseText(c) + rest;
      assert text[..|text| - |rest|] == CaseText(c);
    }
  }

  lemma FindNothing()
    ensures FindCase("") == None
  {
  }

  /** A trace with its header lines is read back as the list of its cases. */
  lemma TraceIsRead(preamble: seq<string>, cases: seq<Case>)
    requires AllSkipped(preamble) && AllWritable(cases)
    ensures ReadTrace(Joined(preamble) + CasesText(cases)) == AllRecorded(cases)
  {
    hide FindCase, AfterLine, CaseText, Writable, ReadCase, Recorded, AllSkipped, AllWritable;
    FindCaseLines(preamble, CasesText(cases));
    CasesAreRead(cases);
    assert ReadTrace(Joined(preamble) + CasesText(cases)) == ReadTrace(CasesText(cases));
  }
}
