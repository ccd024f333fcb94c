/** What every line of a case says, and what the reader makes of other lines than the writer's. */
module TraceFields {
  import Decimal
  import opened Optional
  import opened TraceFormat
  import opened TraceRoundTrip

  // ------------------------------------------------------------------------- the fields

  /** What stands behind each key, in the order of the lines. */
  function Given(c: Case): seq<(string, string)> {
    [("timestamp_unix: ", c.timestamp), ("source: ", c.source), ("id: ", c.id), ("domain: ", c.domain),
     ("title: ", c.title), ("status: ", c.status), ("picked: ", if c.picked == "" then "?" else c.picked),
     ("expected: ", c.expected), ("prompt_tokens: ", c.promptTokens), ("generated_tokens: ", c.generatedTokens),
     ("generation_budget: ", c.budget), ("elapsed_sec: ", c.elapsed), ("temperature: ", c.temperature),
     ("top_k: ", c.topK), ("top_p: ", c.topP), ("min_p: ", c.minP), ("think_mode_effective: ", c.mode)]
  }

  /** How thinking was closed. */
  function Closes(close: Option<ThinkClose>): seq<(string, string)> {
    match close
    case None => [("think_close: ", "none")]
    case Some(t) => [("think_close: ", t.kind), ("think_close_token_index: ", t.index),
                     ("think_close_remaining_budget: ", t.remaining), ("think_close_rank: ", t.rank)]
  }

  function Fields(c: Case): seq<(string, string)> {
    Given(c) + Closes(c.close) + (if c.error == "" then [] else [("error: ", c.error)])
  }

  function Line(f: (string, string)): string {
    f.0 + f.1
  }

  function Lines(fs: seq<(string, string)>): (r: seq<string>)
    ensures |r| == |fs| && forall i :: 0 <= i < |fs| ==> r[i] == Line(fs[i])
  {
    seq(|fs|, i requires 0 <= i < |fs| => Line(fs[i]))
  }

  lemma GivenLines(c: Case)
    ensures MetaLines(c) == Lines(Given(c)) + CloseLines(c.close) + EndLines(c)
  {
    hide CloseLines, EndLines;
    var a, b := MetaLines(c)[..17], Lines(Given(c));
    assert |b| == 17 && |a| == 17;
    assert b == ["timestamp_unix: " + c.timestamp, "source: " + c.source, "id: " + c.id,
                 "domain: " + c.domain, "title: " + c.title, "status: " + c.status, "picked: " + Picked(c)]
                + CountLines(c) + SamplingLines(c);
  }

  lemma FieldLines(c: Case)
    ensures MetaLines(c) == Lines(Fields(c)) + AllChoiceLines(c) + KindLines(c)
  {
    hide AllChoiceLines, Given, MetaLines;
    GivenLines(c);
    ClosesLines(c.close);
    assert c.error != "" ==> Lines([("error: ", c.error)]) == ErrorLines(c);
    LinesConcat(Given(c), Closes(c.close));
    LinesConcat(Given(c) + Closes(c.close), if c.error == "" then [] else [("error: ", c.error)]);
  }

  lemma ClosesLines(close: Option<ThinkClose>)
    ensures Lines(Closes(close)) == CloseLines(close)
  {
    if close.None? { assert Line(("think_close: ", "none")) == "think_close: none"; }
  }

  lemma LinesConcat(a: seq<(string, string)>, b: seq<(string, string)>)
    ensures Lines(a + b) == Lines(a) + Lines(b)
  {
  }

  /** A key: one colon, followed by a blank, at its end. */
  predicate Key(k: string) {
    && |k| >= 3 && k[|k| - 2] == ':' && k[|k| - 1] == ' ' && 'a' <= k[0] <= 'z'
    && forall i :: 0 <= i < |k| - 2 ==> k[i] != ':' && k[i] != '\n'
  }

  /** A number for each key, from its length and two of its letters. */
  function Rank(k: string): int
    requires Key(k)
  {
    var n, second, last := |k| - 2, k[1], k[|k| - 3];
    if n == 14 then 0
    else if n == 6 && second == 'o' && last == 'e' then 1
    else if n == 2 then 2
    else if n == 6 && second == 'o' then 3
    else if n == 5 && second == 'i' && last == 'e' then 4
    else if n == 6 && second == 't' then 5
    else if n == 6 then 6
    else if n == 8 then 7
    else if n == 13 then 8
    else if n == 16 && second == 'e' then 9
    else if n == 17 then 10
    else if n == 11 && second == 'l' then 11
    else if n == 11 && second == 'e' then 12
    else if n == 5 && last == 'k' then 13
    else if n == 5 && second == 'o' then 14
    else if n == 5 && second == 'i' then 15
    else if n == 20 then 16
    else if n == 11 && second == 'h' && last == 'e' then 17
    else if n == 23 then 18
    else if n == 28 then 19
    else if n == 16 then 20
    else if n == 5 then 21
    else 22
  }

  lemma OriginKeys()
    ensures Key("timestamp_unix: ") && Rank("timestamp_unix: ") == 0
    ensures Key("source: ") && Rank("source: ") == 1
    ensures Key("id: ") && Rank("id: ") == 2
    ensures Key("domain: ") && Rank("domain: ") == 3
  {
  }

  lemma VerdictKeys()
    ensures Key("title: ") && Rank("title: ") == 4
    ensures Key("status: ") && Rank("status: ") == 5
    ensures Key("picked: ") && Rank("picked: ") == 6
    ensures Key("expected: ") && Rank("expected: ") == 7
  {
  }

  lemma CountedKeys()
    ensures Key("prompt_tokens: ") && Rank("prompt_tokens: ") == 8
    ensures Key("generated_tokens: ") && Rank("generated_tokens: ") == 9
    ensures Key("generation_budget: ") && Rank("generation_budget: ") == 10
    ensures Key("elapsed_sec: ") && Rank("elapsed_sec: ") == 11
  {
  }

  lemma SampledKeys()
    ensures Key("temperature: ") && Rank("temperature: ") == 12
    ensures Key("top_k: ") && Rank("top_k: ") == 13
  {
  }

  lemma ChosenKeys()
    ensures Key("top_p: ") && Rank("top_p: ") == 14
    ensures Key("min_p: ") && Rank("min_p: ") == 15
    ensures Key("think_mode_effective: ") && Rank("think_mode_effective: ") == 16
  {
  }

  lemma ClosedKeys()
    ensures Key("think_close: ") && Rank("think_close: ") == 17
    ensures Key("think_close_token_index: ") && Rank("think_close_token_index: ") == 18
  {
  }

  lemma LeftKeys()
    ensures Key("think_close_remaining_budget: ") && Rank("think_close_remaining_budget: ") == 19
    ensures Key("think_close_rank: ") && Rank("think_close_rank: ") == 20
  {
  }

  lemma GivenKeys(c: Case, i: nat)
    requires i < |Given(c)|
    ensures Key(Given(c)[i].0) && Rank(Given(c)[i].0) == i
  {
    hide Key, Rank;
    OriginKeys();
    VerdictKeys();
    CountedKeys();
    SampledKeys();
    ChosenKeys();
  }

  lemma CloseKeys(close: Option<ThinkClose>, i: nat)
    requires i < |Closes(close)|
    ensures Key(Closes(close)[i].0) && Rank(Closes(close)[i].0) == 17 + i
  {
    hide Key, Rank;
    ClosedKeys();
    LeftKeys();
  }

  lemma FieldKeys(c: Case, i: nat)
    requires i < |Fields(c)|
    ensures Key(Fields(c)[i].0) && i <= if c.close.None? then 18 else 21
    ensures Rank(Fields(c)[i].0) == if c.close.None? && i == 18 then 21 else i
  {
    hide Given, Closes, Rank, Key;
    Sizes(c);
    if i < 17 {
      GivenKeys(c, i);
    } else if i < 17 + |Closes(c.close)| {
      CloseKeys(c.close, i - 17);
    } else {
      ErrorKey();
    }
  }

  lemma Sizes(c: Case)
    ensures |Given(c)| == 17 && |Closes(c.close)| == if c.close.None? then 1 else 4
  {
  }

  lemma ErrorKey()
    ensures Key("error: ") && Rank("error: ") == 21
  {
  }

  /** A line that begins with one key does not begin with another. */
  lemma OneKey(a: string, value: string, b: string)
    requires Key(a) && Key(b) && a != b
    ensures !StartsWith(a + value, b)
  {
    var line := a + value;
    assert forall i :: 0 <= i < |a| ==> line[i] == a[i];
  }

  // ------------------------------------------------------------------- reading them back

  /** All lines of a case in front of its blocks. */
  function AllLines(c: Case): seq<string> {
    [HeaderLine(c)] + MetaLines(c)
  }

  lemma CaseLines(c: Case) returns (rest: string)
    requires Writable(c)
    ensures CaseText(c) == Joined(AllLines(c)) + rest
    ensures NoBreaks(AllLines(c)) && HeaderLine(c) != "" && HeaderLine(c)[0] == '='
  {
    hide Block, HeaderLine, MetaLines, CString, NoMark, Writable;
    rest := Block("SYSTEM_PROMPT", CString(c.system)) + Block("QUESTION_PROMPT", CString(c.question))
            + Block("MODEL_OUTPUT", CString(c.output)) + "\n";
    HeaderClean(c);
    MetaLinesPassed(c);
    assert AllLines(c)[1..] == MetaLines(c);
    assert CaseText(c) == HeaderLine(c) + "\n" + Joined(MetaLines(c)) + rest;
    forall l | l in AllLines(c) ensures '\n' !in l {
      if l != HeaderLine(c) { assert l in MetaLines(c); }
    }
  }

  lemma LinesOf(c: Case)
    ensures |AllLines(c)| == 2 + |Fields(c)| + |AllChoiceLines(c)|
    ensures AllLines(c)[0] == HeaderLine(c)
    ensures forall i :: 0 <= i < |Fields(c)| ==> AllLines(c)[1 + i] == Line(Fields(c)[i])
    ensures forall i :: 0 <= i < |AllChoiceLines(c)| ==> AllLines(c)[1 + |Fields(c)| + i] == AllChoiceLines(c)[i]
    ensures AllLines(c)[|AllLines(c)| - 1] == "answer_kind: " + c.kind
  {
    hide MetaLines, Fields, AllChoiceLines, HeaderLine, Lines;
    FieldLines(c);
  }

  lemma OtherFields(c: Case, key: string, i: nat)
    requires Key(key) && i <= |Fields(c)| && forall j :: 0 <= j < i ==> Fields(c)[j].0 != key
    ensures forall j :: 0 <= j < i ==> !StartsWith(Line(Fields(c)[j]), key)
  {
    hide Fields, StartsWith, Key, Rank;
    forall j | 0 <= j < i ensures !StartsWith(Line(Fields(c)[j]), key) {
      FieldKeys(c, j);
      OneKey(Fields(c)[j].0, Fields(c)[j].1, key);
    }
  }

  /** Every field of a case is read back from the line of its key. */
  lemma FieldsAreRead(c: Case, i: nat, size: nat)
    requires Writable(c) && i < |Fields(c)| && size > 0 && ReadsBack(Fields(c)[i].1, size)
    ensures GetField(CaseText(c), Fields(c)[i].0, size) == Some(Fields(c)[i].1)
  {
    hide Fields, StartsWith, Key, Rank, AllLines, Joined, GetField, Writable, ReadsBack, CaseText, HeaderLine, NoBreaks;
    var rest := CaseLines(c);
    LinesOf(c);
    var (key, value) := Fields(c)[i];
    FieldKeys(c, i);
    forall j | 0 <= j < i ensures Fields(c)[j].0 != key { FieldKeys(c, j); }
    OtherFields(c, key, i);
    KeyStart(key);
    StartsDiffer(HeaderLine(c), key);
    forall j | 0 <= j < 1 + i ensures !StartsWith(AllLines(c)[j], key) {
      if j > 0 { assert AllLines(c)[1 + (j - 1)] == Line(Fields(c)[j - 1]); }
    }
    NoBreakIn(AllLines(c), 1 + i, key, value);
    FieldIsRead(AllLines(c), 1 + i, key, value, rest, size);
  }

  lemma KeyStart(key: string)
    requires Key(key)
    ensures key != "" && key[0] != '=' && key[0] != ' ' && '\n' !in key
  {
  }

  lemma NoBreakIn(lines: seq<string>, i: nat, key: string, value: string)
    requires NoBreaks(lines) && i < |lines| && lines[i] == key + value
    ensures '\n' !in value
  {
    assert lines[i] in lines;
    assert forall k :: 0 <= k < |value| ==> lines[i][|key| + k] == value[k];
  }

  lemma KindKey()
    ensures Key("answer_kind: ") && Rank("answer_kind: ") == 22
  {
  }

  /** And the kind of its answer from the last line. */
  lemma KindIsRead(c: Case, size: nat)
    requires Writable(c) && size > 0 && ReadsBack(c.kind, size)
    ensures GetField(CaseText(c), "answer_kind: ", size) == Some(c.kind)
  {
    hide Fields, StartsWith, Key, Rank, AllLines, Joined, GetField, Writable, ReadsBack, CaseText, HeaderLine, NoBreaks,
      AllChoiceLines;
    var rest := CaseLines(c);
    LinesOf(c);
    var key, n := "answer_kind: ", |AllLines(c)| - 1;
    KindKey();
    forall j | 0 <= j < |Fields(c)| ensures Fields(c)[j].0 != key { FieldKeys(c, j); }
    OtherFields(c, key, |Fields(c)|);
    StartsDiffer(HeaderLine(c), key);
    ChoicesStart(c);
    forall j | 0 <= j < n ensures !StartsWith(AllLines(c)[j], key) {
      if 0 < j <= |Fields(c)| {
        assert AllLines(c)[1 + (j - 1)] == Line(Fields(c)[j - 1]);
      } else if j > 0 {
        var k := j - 1 - |Fields(c)|;
        assert AllLines(c)[1 + |Fields(c)| + k] == AllChoiceLines(c)[k];
        StartsDiffer(AllChoiceLines(c)[k], key);
      }
    }
    NoBreakIn(AllLines(c), n, key, c.kind);
    FieldIsRead(AllLines(c), n, key, c.kind, rest, size);
  }

  lemma ChoicesStart(c: Case)
    ensures |AllChoiceLines(c)| == if c.choices == [] then 0 else 1 + |c.choices|
    ensures c.choices != [] ==> AllChoiceLines(c)[0] == "choices:"
    ensures forall i :: 0 <= i < |c.choices| ==>
              AllChoiceLines(c)[1 + i] == "  " + [Letter(i)] + ". " + c.choices[i]
    ensures forall i :: 0 <= i < |AllChoiceLines(c)| ==>
              AllChoiceLines(c)[i] != "" && AllChoiceLines(c)[i][0] == if i == 0 then 'c' else ' '
  {
    hide Letter, ChoiceLines;
    ChoicesAre(c.choices, 0);
    forall i | 0 < i < |AllChoiceLines(c)| ensures AllChoiceLines(c)[i] != "" && AllChoiceLines(c)[i][0] == ' ' {
      assert AllChoiceLines(c)[i] == ChoiceLines(c.choices, 0)[i - 1];
    }
  }

  lemma {:induction false} ChoicesAre(choices: seq<string>, n: nat)
    ensures |ChoiceLines(choices, n)| == |choices|
    ensures forall i :: 0 <= i < |choices| ==>
              ChoiceLines(choices, n)[i] == "  " + [Letter(n + i)] + ". " + choices[i]
  {
    hide Letter;
    if choices != [] {
      ChoicesAre(choices[1..], n + 1);
      forall i | 0 <= i < |choices| ensures ChoiceLines(choices, n)[i] == "  " + [Letter(n + i)] + ". " + choices[i] {
        if i > 0 { assert ChoiceLines(choices, n)[i] == ChoiceLines(choices[1..], n + 1)[i - 1]; }
      }
    }
  }

  /** And every choice from the line of its letter. */
  lemma ChoicesAreRead(c: Case, i: nat, size: nat)
    requires Writable(c) && i < |c.choices| && size > 0 && ReadsBack(c.choices[i], size)
    ensures |c.choices| <= 10
    ensures GetField(CaseText(c), "  " + ["ABCDEFGHIJ"[i]] + ". ", size) == Some(c.choices[i])
  {
    hide Fields, StartsWith, Key, Rank, AllLines, Joined, GetField, ReadsBack, CaseText, HeaderLine, NoBreaks,
      AllChoiceLines, Clean;
    var rest := CaseLines(c);
    hide Writable;
    LinesOf(c);
    ChoicesStart(c);
    var key, n := "  " + [Letter(i)] + ". ", 2 + |Fields(c)| + i;
    assert AllLines(c)[1 + |Fields(c)| + (1 + i)] == key + c.choices[i];
    forall j | 0 <= j < n ensures !StartsWith(AllLines(c)[j], key) {
      if j == 0 {
        StartsDiffer(AllLines(c)[0], key);
      } else if j <= |Fields(c)| {
        FieldKeys(c, j - 1);
        KeyStart(Fields(c)[j - 1].0);
        assert AllLines(c)[1 + (j - 1)] == Line(Fields(c)[j - 1]);
        StartsDiffer(Line(Fields(c)[j - 1]), key);
      } else {
        var k := j - 1 - |Fields(c)|;
        assert AllLines(c)[1 + |Fields(c)| + k] == AllChoiceLines(c)[k];
        if k == 0 {
          StartsDiffer(AllChoiceLines(c)[0], key);
        } else {
          assert AllChoiceLines(c)[1 + (k - 1)] == "  " + [Letter(k - 1)] + ". " + c.choices[k - 1];
          KeysDiffer(AllChoiceLines(c)[k], key, 2);
        }
      }
    }
    NoBreakIn(AllLines(c), n, key, c.choices[i]);
    FieldIsRead(AllLines(c), n, key, c.choices[i], rest, size);
    assert Letter(i) == "ABCDEFGHIJ"[i];
  }

  // ------------------------------------------------------------------------- the prompts

  lemma {:induction false} FindLabelPast(lines: seq<string>, rest: string, name: string)
    requires forall l :: l in lines ==> Clean(l) && !StartsWith(l, name)
    ensures FindLabel(Joined(lines) + rest, name) == FindLabel(rest, name)
    decreases |lines|
  {
    hide FindLabel, Clean, StartsWith;
    if lines == [] {
      assert Joined(lines) + rest == rest;
    } else {
      assert lines[0] in lines;
      FindLabelPast(lines[1..], rest, name);
      assert Joined(lines) + rest == lines[0] + "\n" + (Joined(lines[1..]) + rest);
      FindLabelLine(lines[0], Joined(lines[1..]) + rest, name);
    }
  }

  lemma BlockPast(name: string, text: string, rest: string, label0: string)
    requires NameOk(name) && |text| <= ULLONG_MAX && label0 != "" && name[0] != label0[0]
    ensures FindLabel(Block(name, text) + rest, label0) == FindLabel(rest, label0)
  {
    hide SkipBlock, LineLen, StartsWith;
    SkipsBlock(name, text, rest);
    var s := Block(name, text) + rest;
    assert s[|Block(name, text)|..] == rest;
    BlockShape(name, text, rest);
    FirstLineClean(name, text);
    LineLenIs(FirstLine(name, text), Closed(text) + name + "_END\n" + rest);
    assert FirstLine(name, text)[0] == name[0];
    StartsDiffer(FirstLine(name, text), label0);
  }

  /** A text stands behind the first line. */
  predicate Behind(s: string, text: string) {
    LineLen(s) < |s| && text <= s[LineLen(s) + 1..]
  }

  lemma BlockHas(name: string, label0: string, tail: string, text: string, rest: string)
    requires NameOk(name) && name + BEGIN_MARK == label0 + tail
    ensures FindLabel(Block(name, text) + rest, label0) == Some(Block(name, text) + rest)
    ensures Behind(Block(name, text) + rest, text)
  {
    hide FindLabel, LineLen, Closed, BEGIN_MARK, Decimal.Show, StartsWith;
    LabelIsFound(name, label0, tail, text, rest);
    BlockShape(name, text, rest);
    ClosedStarts(text);
    var s, first := Block(name, text) + rest, FirstLine(name, text);
    assert s[|first| + 1..] == Closed(text) + name + "_END\n" + rest;
    assert Closed(text)[..|text|] == text;
  }

  /** No line of a case begins with a capital letter. */
  lemma NoCapitals(c: Case, name: string)
    requires Writable(c) && name != "" && 'A' <= name[0] <= 'Z'
    ensures forall l :: l in AllLines(c) ==> Clean(l) && !StartsWith(l, name)
  {
    hide Clean, StartsWith, Fields, MetaLines, HeaderLine, AllChoiceLines, KindLines, Key, Rank, Writable;
    HeaderClean(c);
    MetaLinesPassed(c);
    LinesOf(c);
    ChoicesStart(c);
    forall l | l in AllLines(c) ensures Clean(l) && !StartsWith(l, name) {
      if l != HeaderLine(c) { assert l in MetaLines(c); }
      var i :| 0 <= i < |AllLines(c)| && AllLines(c)[i] == l;
      if 0 < i <= |Fields(c)| {
        FieldKeys(c, i - 1);
        KeyLetter(Fields(c)[i - 1].0);
        assert AllLines(c)[1 + (i - 1)] == Line(Fields(c)[i - 1]);
      } else if 0 < i < |AllLines(c)| - 1 {
        assert AllLines(c)[1 + |Fields(c)| + (i - 1 - |Fields(c)|)] == AllChoiceLines(c)[i - 1 - |Fields(c)|];
      }
      StartsDiffer(l, name);
    }
  }

  lemma KeyLetter(key: string)
    requires Key(key)
    ensures key != "" && 'a' <= key[0] <= 'z'
  {
  }

  /** The prompts are found under their labels, each up to its first NUL. */
  lemma PromptsAreThere(c: Case)
    requires Writable(c)
    ensures var s := FindLabel(CaseText(c), "SYSTEM_PROMPT_BEGIN"); s.Some? && Behind(s.value, CString(c.system))
    ensures var q := FindLabel(CaseText(c), "QUESTION_PROMPT_BEGIN"); q.Some? && Behind(q.value, CString(c.question))
  {
    hide FindLabel, Block, Clean, StartsWith, MetaLines, HeaderLine, CString, Behind, Writable;
    var s2 := Block("MODEL_OUTPUT", CString(c.output)) + "\n";
    var s1 := Block("QUESTION_PROMPT", CString(c.question)) + s2;
    var s0 := Block("SYSTEM_PROMPT", CString(c.system)) + s1;
    assert AllLines(c)[1..] == MetaLines(c);
    assert CaseText(c) == Joined(AllLines(c)) + s0;
    assert |CString(c.system)| <= ULLONG_MAX by { Counted(c); }
    NoCapitals(c, "SYSTEM_PROMPT_BEGIN");
    NoCapitals(c, "QUESTION_PROMPT_BEGIN");
    FindLabelPast(AllLines(c), s0, "SYSTEM_PROMPT_BEGIN");
    FindLabelPast(AllLines(c), s0, "QUESTION_PROMPT_BEGIN");
    assert "SYSTEM_PROMPT" + BEGIN_MARK == "SYSTEM_PROMPT_BEGIN" + " bytes=";
    assert "QUESTION_PROMPT" + BEGIN_MARK == "QUESTION_PROMPT_BEGIN" + " bytes=";
    BlockHas("SYSTEM_PROMPT", "SYSTEM_PROMPT_BEGIN", " bytes=", CString(c.system), s1);
    BlockPast("SYSTEM_PROMPT", CString(c.system), s1, "QUESTION_PROMPT_BEGIN");
    BlockHas("QUESTION_PROMPT", "QUESTION_PROMPT_BEGIN", " bytes=", CString(c.question), s2);
  }

  lemma Counted(c: Case)
    requires Writable(c)
    ensures |CString(c.system)| <= ULLONG_MAX
  {
    hide Clean, ReadsBack;
  }

  // ----------------------------------------------------------------------- to the letter

  /** The header of the third of twelve cases. */
  lemma HeaderSample(c: Case)
    requires c.index == 2 && c.total == 12 && c.source == "S" && c.id == "x"
    ensures HeaderLine(c) == "===== CASE 3/12 S/x ====="
  {
    assert Decimal.Show(12) == Decimal.Show(1) + "2" == "12";
  }

  /** Blocks whose text does and does not end its line. */
  lemma BlockSamples()
    ensures Block("N", "") == "N_BEGIN bytes=0\nN_END\n"
    ensures Block("N", "ab") == "N_BEGIN bytes=2\nab\nN_END\n"
    ensures Block("N", "a\n") == "N_BEGIN bytes=2\na\nN_END\n"
  {
    hide Closed, Decimal.Show;
    ClosedSamples();
    assert "N" + BEGIN_MARK == "N_BEGIN bytes=";
    assert Block("N", "") == "N_BEGIN bytes=" + "0" + "\n" + "" + "N" + "_END\n";
    assert Block("N", "ab") == "N_BEGIN bytes=" + "2" + "\n" + "ab\n" + "N" + "_END\n";
    assert Block("N", "a\n") == "N_BEGIN bytes=" + "2" + "\n" + "a\n" + "N" + "_END\n";
  }

  lemma ClosedSamples()
    ensures Closed("") == "" && Closed("ab") == "ab\n" && Closed("a\n") == "a\n"
    ensures Decimal.Show(0) == "0" && Decimal.Show(2) == "2"
  {
  }

  // -------------------------------------------------------------- other lines than its own

  /** A field is what stands behind its key on the first line with the key, without carriage returns at
      its end, and of that as much as the buffer holds with a zero byte behind it. */
  lemma FieldIsCut(lines: seq<string>, i: nat, key: string, value: string, ends: string, rest: string, size: nat)
    requires i < |lines| && NoBreaks(lines) && lines[i] == key + (value + ends) && size > 0
    requires (value == "" || value[|value| - 1] != '\r') && forall k :: 0 <= k < |ends| ==> ends[k] == '\r'
    requires forall j :: 0 <= j < i ==> !StartsWith(lines[j], key)
    ensures GetField(Joined(lines) + rest, key, size) == Some(if |value| < size then value else value[..size - 1])
    decreases i
  {
    hide GetField, StartsWith, CopySpan;
    assert lines[0] in lines;
    var tail := Joined(lines[1..]) + rest;
    assert Joined(lines) + rest == lines[0] + "\n" + tail;
    if i == 0 {
      CutHere(key, value, ends, tail, size);
    } else {
      FieldPassed(lines[0], tail, key, size);
      FieldIsCut(lines[1..], i - 1, key, value, ends, rest, size);
    }
  }

  lemma CutHere(key: string, value: string, ends: string, tail: string, size: nat)
    requires size > 0 && '\n' !in key + (value + ends)
    requires (value == "" || value[|value| - 1] != '\r') && forall k :: 0 <= k < |ends| ==> ends[k] == '\r'
    ensures GetField(key + (value + ends) + "\n" + tail, key, size)
         == Some(if |value| < size then value else value[..size - 1])
  {
    var line := key + (value + ends);
    LineLenIs(line, tail);
    StartsWithIt(key, value + ends);
    assert line[|key|..] == value + ends;
    assert value != "" ==> value[|value| - 1] == line[|key| + |value| - 1];
    Trimmed(value, ends);
  }

  lemma {:induction false} Trimmed(value: string, ends: string)
    requires value == "" || (value[|value| - 1] != '\r' && value[|value| - 1] != '\n')
    requires forall k :: 0 <= k < |ends| ==> ends[k] == '\r'
    ensures TrimEnd(value + ends) == value
    decreases |ends|
  {
    if ends == "" {
      assert value + ends == value;
    } else {
      var n := |ends| - 1;
      assert (value + ends)[..|value| + n] == value + ends[..n];
      assert (value + ends)[|value| + n] == ends[n];
      Trimmed(value, ends[..n]);
    }
  }

  /** Without a line for the key there is no field, ... */
  lemma {:induction false} NoLineNoField(lines: seq<string>, key: string, size: nat)
    requires NoBreaks(lines) && size > 0 && forall l :: l in lines ==> !StartsWith(l, key)
    ensures GetField(Joined(lines), key, size) == None
    decreases |lines|
  {
    hide StartsWith, GetField;
    if lines == [] {
      NoField(key, size);
    } else {
      assert lines[0] in lines;
      NoLineNoField(lines[1..], key, size);
      assert Joined(lines) == lines[0] + "\n" + Joined(lines[1..]);
      FieldPassed(lines[0], Joined(lines[1..]), key, size);
    }
  }

  /** ... and a case that lacks its source or its id is not read. */
  lemma NotRead(lines: seq<string>, key: string)
    requires key in {"source: ", "id: "} && NoBreaks(lines) && forall l :: l in lines ==> !StartsWith(l, key)
    ensures ReadCase(Joined(lines)) == NoIds
  {
    hide StartsWith, GetField, CopyOutput, Joined;
    NoLineNoField(lines, key, if key == "id: " then ID_SIZE else SOURCE_SIZE);
  }

  lemma NoField(key: string, size: nat)
    requires size > 0
    ensures GetField("", key, size) == None
  {
  }

  /** The output of an old trace, which has no count, ends where its end marker first begins a line. */
  lemma OldOutput(text: string, rest: string)
    requires var mark := "\nMODEL_OUTPUT_END"; forall i :: 0 <= i < |text| ==> !OccursAt(text + mark + rest, mark, i)
    ensures CopyOutput("MODEL_OUTPUT_BEGIN" + "\n" + (text + "\nMODEL_OUTPUT_END" + rest)) == Some(text)
  {
    hide CopyOutput, OccursAt;
    var mark := "\nMODEL_OUTPUT_END";
    FirstMark(text, mark, rest);
    assert mark == "\n" + OUTPUT_END;
    OldOutputAt(text, mark, text + mark + rest);
  }

  lemma OldOutputAt(text: string, mark: string, behind: string)
    requires mark == "\n" + OUTPUT_END && IndexOf(behind, mark) == |text| <= |behind| && behind[..|text|] == text
    ensures CopyOutput(OUTPUT_BEGIN + "\n" + behind) == Some(text)
  {
    hide IndexOf, FindLabel, LineLen, StartsWith, OutputOf, OccursAt;
    var first := OUTPUT_BEGIN;
    var s := first + "\n" + behind;
    NoCount();
    LineLenIs(first, behind);
    StartsWithIt(first, "");
    assert first + "" == first;
    FindLabelHere(s, OUTPUT_BEGIN);
    assert s[|first| + 1..] == behind;
    OldOutputOf(s, |first|, |text|);
  }

  lemma FirstMark(text: string, mark: string, rest: string)
    requires forall i :: 0 <= i < |text| ==> !OccursAt(text + mark + rest, mark, i)
    ensures var s := text + mark + rest; IndexOf(s, mark) == |text| && s[..|text|] == text
  {
    hide IndexOf;
    var s := text + mark + rest;
    assert s[|text|..|text| + |mark|] == mark;
    assert OccursAt(s, mark, |text|);
  }

  lemma OldOutputOf(s: string, n: nat, finish: nat)
    requires n < |s| && IndexOf(s[..n], "bytes=") < 0 && IndexOf(s[n + 1..], "\n" + OUTPUT_END) == finish
    ensures finish <= |s| - n - 1 && OutputOf(s, n) == Some(s[n + 1..][..finish])
  {
    hide IndexOf;
  }

  lemma NoCount()
    ensures IndexOf(OUTPUT_BEGIN, "bytes=") < 0 && '\n' !in OUTPUT_BEGIN
  {
    hide IndexOf;
    NotThere(OUTPUT_BEGIN, "bytes=");
  }

  lemma NotThere(s: string, needle: string)
    requires needle != "" && needle[0] !in s
    ensures IndexOf(s, needle) < 0
  {
    hide IndexOf;
    OccursChars(s, needle, IndexOf(s, needle), 0);
  }

  /** A count may stand behind blanks and a sign; a minus sign takes it from the greatest one on, and one
      that is too great counts as the greatest. Without digits there is none. */
  lemma CountWithSign(blanks: string, sign: string, digits: string, rest: string)
    requires forall i :: 0 <= i < |blanks| ==> blanks[i] == ' ' || '\t' <= blanks[i] <= '\r'
    requires sign == "" || sign == "+" || sign == "-"
    requires forall i :: 0 <= i < |digits| ==> Decimal.IsDigit(digits[i])
    requires rest == [] || !Decimal.IsDigit(rest[0])
    requires digits == "" ==> rest == [] || (!IsSpace(rest[0]) && (sign != "" || (rest[0] != '+' && rest[0] != '-')))
    ensures var v, r := Decimal.Value(digits), StrToULL(blanks + sign + digits + rest);
      if digits == "" then r == (0, 0)
      else
        && r.1 == |blanks| + |sign| + |digits|
        && r.0 == if v > 0xFFFF_FFFF_FFFF_FFFF then 0xFFFF_FFFF_FFFF_FFFF
                  else if sign == "-" && v > 0 then 0x1_0000_0000_0000_0000 - v else v
  {
    hide Decimal.Value, DigitRun, SpaceRun, Decimal.IsDigit, StrToULL, IsSpace;
    BlanksAre(blanks);
    Parts(blanks, sign, digits, rest);
    DigitsAreNot(digits, rest, sign);
    SpaceRunIs(blanks, sign + digits + rest);
    DigitRunIs(digits, rest);
    SignIs(blanks, sign, digits + rest);
    CountIs(blanks + sign + digits + rest, |blanks|, |sign|, digits);
  }

  /** What reading a count comes down to once its parts have been found. */
  lemma CountIs(s: string, at: nat, sign: nat, digits: string)
    requires at == SpaceRun(s) && sign == (if at < |s| && (s[at] == '-' || s[at] == '+') then 1 else 0)
    requires at + sign <= |s| && DigitRun(s[at + sign..]) == |digits| && s[at + sign..][..|digits|] == digits
    ensures forall i :: 0 <= i < |digits| ==> Decimal.IsDigit(digits[i])
    ensures StrToULL(s) ==
      if digits == "" then (0, 0)
      else
        var v := Decimal.Value(digits);
        (if v > ULLONG_MAX then ULLONG_MAX
         else if sign == 1 && s[at] == '-' && v > 0 then ULLONG_MAX + 1 - v else v, at + sign + |digits|)
  {
    hide Decimal.Value, DigitRun, SpaceRun, Decimal.IsDigit;
  }

  /** Only a closed block is skipped: its name of at most 96 characters stands in front of the first
      mark of its line, and the same name with _END right behind as many characters as were counted, or
      behind one line break more. */
  lemma SkipsOnlyBlocks(s: string) returns (n: nat, count: nat, at: nat)
    requires SkipBlock(s).Some?
    ensures 0 < n <= 96 && OccursAt(s, "_BEGIN bytes=", n) && n + 13 <= LineLen(s) < |s|
    ensures forall i :: 0 <= i < n ==> !OccursAt(s[..LineLen(s)], "_BEGIN bytes=", i)
    ensures count == StrToULL(s[n + 13..]).0 && 0 < StrToULL(s[n + 13..]).1 <= LineLen(s) - n - 13
    ensures at == LineLen(s) + 1 + count || (at == LineLen(s) + 2 + count && at <= |s| && s[at - 1] == '\n')
    ensures at <= |s| && StartsWith(s[at..], CString(s[..n]) + "_END") && SkipBlock(s).value > at
  {
    hide StrToULL, LineLen, IndexOf, CString, StartsWith, BlockEnd, ContentEnd, OccursAt;
    var l := LineLen(s);
    n := IndexOf(s[..l], BEGIN_MARK);
    MarkThere(s, l, n);
    count := StrToULL(s[n + 13..]).0;
    var content := if l < |s| then l + 1 else |s|;
    at := ContentEnd(s, content + count);
    EndThere(s, content + count, CString(s[..n]) + "_END");
  }

  lemma EndThere(s: string, m: nat, end: string)
    requires m <= |s| && BlockEnd(s, m, end).Some?
    ensures var at := ContentEnd(s, m);
      && StartsWith(s[at..], end) && BlockEnd(s, m, end).value >= at + |end|
      && (at == m || (at == m + 1 && s[m] == '\n'))
  {
    hide LineLen;
  }

  lemma MarkThere(s: string, l: nat, n: nat)
    requires l <= |s| && OccursAt(s[..l], BEGIN_MARK, n)
    ensures BEGIN_MARK == "_BEGIN bytes=" && OccursAt(s, "_BEGIN bytes=", n) && n + 13 <= l
  {
    assert s[..l][n..n + 13] == s[n..n + 13];
  }
}
