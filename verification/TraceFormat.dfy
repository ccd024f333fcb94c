/** The evaluation trace: how a case is written, and how the regrader scans it. Text is scanned as
    the part of the file that is still ahead. */
module TraceFormat {
  import Decimal
  import opened Optional

  const CASE_MARK := "===== CASE "
  const BEGIN_MARK := "_BEGIN bytes="
  const ULLONG_MAX: nat := 0xFFFF_FFFF_FFFF_FFFF

  // -------------------------------------------------------------------- C helpers

  /** memchr for a line break: its index, or the length. */
  function LineLen(s: string): (n: nat)
    ensures n <= |s| && (forall i :: 0 <= i < n ==> s[i] != '\n') && (n < |s| ==> s[n] == '\n')
  {
    if s == [] || s[0] == '\n' then 0 else 1 + LineLen(s[1..])
  }

  function AfterLine(s: string): (r: string)
    ensures s != [] ==> |r| < |s|
  {
    var n := LineLen(s);
    if n < |s| then s[n + 1..] else []
  }

  predicate OccursAt(s: string, needle: string, i: int) {
    0 <= i && i + |needle| <= |s| && s[i..i + |needle|] == needle
  }

  /** Index of the first occurrence, or -1. */
  function IndexOf(s: string, needle: string): (r: int)
    ensures r < 0 ==> forall i :: !OccursAt(s, needle, i)
    ensures r >= 0 ==> OccursAt(s, needle, r) && forall i :: 0 <= i < r ==> !OccursAt(s, needle, i)
    decreases |s|
  {
    if |s| < |needle| then -1
    else if s[..|needle|] == needle then 0
    else if s == [] then -1
    else
      var r := IndexOf(s[1..], needle);
      assert forall i :: 1 <= i ==> OccursAt(s, needle, i) == OccursAt(s[1..], needle, i - 1);
      if r < 0 then -1 else r + 1
  }

  predicate StartsWith(s: string, prefix: string) {
    |prefix| <= |s| && s[..|prefix|] == prefix
  }

  function CString(s: string): (t: string)
    ensures |t| <= |s|
  {
    if s == [] || s[0] == '\0' then [] else [s[0]] + CString(s[1..])
  }

  lemma {:induction false} CStringOfBoth(a: string, b: string)
    ensures '\0' in a ==> CString(a + b) == CString(a)
    ensures '\0' !in a ==> CString(a + b) == a + CString(b)
  {
    if a == [] {
      assert a + b == b;
    } else {
      assert (a + b)[0] == a[0] && (a + b)[1..] == a[1..] + b;
      CStringOfBoth(a[1..], b);
      assert a == [a[0]] + a[1..];
    }
  }

  lemma {:induction false} CStringIsStart(s: string)
    ensures CString(s) <= s && '\0' !in CString(s)
    ensures '\0' !in s ==> CString(s) == s
  {
    if s != [] && s[0] != '\0' {
      CStringIsStart(s[1..]);
      assert s == [s[0]] + s[1..];
    }
  }

  function DigitRun(s: string): (n: nat)
    ensures n <= |s| && forall i :: 0 <= i < n ==> Decimal.IsDigit(s[i])
    ensures n < |s| ==> !Decimal.IsDigit(s[n])
  {
    if s == [] || !Decimal.IsDigit(s[0]) then 0 else 1 + DigitRun(s[1..])
  }

  lemma {:induction false} DigitRunIs(d: string, rest: string)
    requires forall i :: 0 <= i < |d| ==> Decimal.IsDigit(d[i])
    requires rest == [] || !Decimal.IsDigit(rest[0])
    ensures DigitRun(d + rest) == |d|
  {
    if d == [] {
      assert d + rest == rest;
    } else {
      assert (d + rest)[1..] == d[1..] + rest;
      DigitRunIs(d[1..], rest);
    }
  }

  predicate IsSpace(c: char) {
    c == ' ' || '\t' <= c <= '\r'
  }

  function SpaceRun(s: string): (n: nat)
    ensures n <= |s|
    ensures s == [] || !IsSpace(s[0]) ==> n == 0
  {
    if s == [] || !IsSpace(s[0]) then 0 else 1 + SpaceRun(s[1..])
  }

  /** strtoull in base 10: the value, and how many characters it used (0: there is no number). */
  function StrToULL(s: string): (r: (nat, nat))
    ensures r.1 <= |s|
  {
    var sp := SpaceRun(s);
    var sign := if sp < |s| && (s[sp] == '-' || s[sp] == '+') then 1 else 0;
    var n := DigitRun(s[sp + sign..]);
    if n == 0 then (0, 0)
    else
      var v := Decimal.Value(s[sp + sign..][..n]);
      (if v > ULLONG_MAX then ULLONG_MAX
       else if sign == 1 && s[sp] == '-' && v > 0 then ULLONG_MAX + 1 - v else v,
       sp + sign + n)
  }

  /** A number as it is read: blanks, a sign and digits, and what is behind them. */
  lemma Parts(blanks: string, sign: string, digits: string, rest: string)
    ensures var s := blanks + sign + digits + rest;
      && s == blanks + (sign + digits + rest) == blanks + sign + (digits + rest)
      && s[|blanks| + |sign|..] == digits + rest && (digits + rest)[..|digits|] == digits
  {
  }

  lemma BlanksAre(blanks: string)
    requires forall i :: 0 <= i < |blanks| ==> blanks[i] == ' ' || '\t' <= blanks[i] <= '\r'
    ensures forall i :: 0 <= i < |blanks| ==> IsSpace(blanks[i])
  {
  }

  lemma SignIs(blanks: string, sign: string, behind: string)
    requires sign == "" || sign == "+" || sign == "-"
    requires sign == "" && behind != "" ==> behind[0] != '+' && behind[0] != '-'
    ensures var s, at := blanks + sign + behind, |blanks|;
      && ((at < |s| && (s[at] == '-' || s[at] == '+')) <==> |sign| == 1)
      && (sign == "-" <==> |sign| == 1 && s[at] == '-')
  {
  }

  lemma DigitsAreNot(digits: string, rest: string, sign: string)
    requires forall i :: 0 <= i < |digits| ==> Decimal.IsDigit(digits[i])
    requires sign == "" || sign == "+" || sign == "-"
    requires digits == "" ==> rest == [] || (!IsSpace(rest[0]) && (sign != "" || (rest[0] != '+' && rest[0] != '-')))
    ensures var behind := sign + digits + rest;
      && (behind == "" || !IsSpace(behind[0]))
      && (sign == "" && behind != "" ==> behind[0] != '+' && behind[0] != '-')
  {
    assert digits != "" ==> Decimal.IsDigit(digits[0]);
  }

  lemma {:induction false} SpaceRunIs(blanks: string, rest: string)
    requires forall i :: 0 <= i < |blanks| ==> IsSpace(blanks[i])
    requires rest == [] || !IsSpace(rest[0])
    ensures SpaceRun(blanks + rest) == |blanks|
    decreases |blanks|
  {
    if blanks == "" {
      assert blanks + rest == rest;
    } else {
      assert (blanks + rest)[1..] == blanks[1..] + rest;
      SpaceRunIs(blanks[1..], rest);
    }
  }

  // ----------------------------------------------------------------------- reader

  /** If s starts with a counted block that is closed by its own label, the length of the block up
      to and including the line of its end marker. */
  function SkipBlock(s: string): (r: Option<nat>)
    ensures r.Some? ==> 0 < r.value <= |s|
  {
    var n := LineLen(s);
    var b := IndexOf(s[..n], BEGIN_MARK);
    if b <= 0 || b > 96 then None
    else
      var endMarker := CString(s[..b]) + "_END";
      var bytes := b + |BEGIN_MARK|;
      var (declared, used) := StrToULL(s[bytes..]);
      if used == 0 || bytes + used > n then None
      else
        var content := if n < |s| then n + 1 else |s|;
        if declared > |s| - content then None
        else BlockEnd(s, content + declared, endMarker)
  }

  /** Content that does not end a line is followed by a line break that is not part of it. */
  function ContentEnd(s: string, m: nat): (at: nat)
    requires m <= |s|
    ensures m <= at <= |s|
  {
    if m < |s| && s[m] == '\n' then m + 1 else m
  }

  /** The end of the line that closes the block whose content ends at m. */
  function BlockEnd(s: string, m: nat, endMarker: string): (r: Option<nat>)
    requires m <= |s|
    ensures r.Some? ==> m + |endMarker| <= r.value <= |s|
  {
    var at := ContentEnd(s, m);
    if !StartsWith(s[at..], endMarker) then None
    else
      var after := at + |endMarker|;
      var n := LineLen(s[after..]);
      Some(if after + n < |s| then after + n + 1 else |s|)
  }

  /** The text from the next case header on. */
  function FindCase(s: string): (r: Option<string>)
    ensures r.Some? ==> 0 < |r.value| <= |s|
    decreases |s|
  {
    if s == [] then None
    else
      var skip := SkipBlock(s);
      if skip.Some? then FindCase(s[skip.value..])
      else if StartsWith(s[..LineLen(s)], CASE_MARK) then Some(s)
      else FindCase(AfterLine(s))
  }

  /** The text from the next line that starts with the label, counted blocks skipped. */
  function FindLabel(s: string, name: string): (r: Option<string>)
    ensures r.Some? ==> 0 < |r.value| <= |s|
    decreases |s|
  {
    if s == [] then None
    else if StartsWith(s[..LineLen(s)], name) then Some(s)
    else
      var skip := SkipBlock(s);
      FindLabel(if skip.Some? then s[skip.value..] else AfterLine(s), name)
  }

  function TrimEnd(s: string): (t: string)
    ensures |t| <= |s|
  {
    if s != [] && (s[|s| - 1] == '\r' || s[|s| - 1] == '\n') then TrimEnd(s[..|s| - 1]) else s
  }

  /** A field value as copied into a buffer of the given size. */
  function CopySpan(s: string, size: nat): string
    requires size > 0
  {
    var t := TrimEnd(s);
    if |t| >= size then t[..size - 1] else t
  }

  /** The value behind the key on the first line that starts with it. */
  function GetField(s: string, key: string, size: nat): Option<string>
    requires size > 0
    decreases |s|
  {
    if s == [] then None
    else
      var line := s[..LineLen(s)];
      if StartsWith(line, key) then Some(CopySpan(line[|key|..], size)) else GetField(AfterLine(s), key, size)
  }

  const OUTPUT_BEGIN := "MODEL_OUTPUT_BEGIN"
  const OUTPUT_END := "MODEL_OUTPUT_END"

  /** The model output of one case: by its byte count, or, in old traces, by its end marker. */
  function CopyOutput(s: string): Option<string> {
    match FindLabel(s, OUTPUT_BEGIN)
    case None => None
    case Some(begin) => if LineLen(begin) == |begin| then None else OutputOf(begin, LineLen(begin))
  }

  function OutputOf(begin: string, n: nat): Option<string>
    requires n < |begin|
  {
    var b := IndexOf(begin[..n], "bytes=");
    if b < 0 then
      var finish := IndexOf(begin[n + 1..], "\n" + OUTPUT_END);
      if finish < 0 then None else Some(begin[n + 1..][..finish])
    else
      var (declared, used) := StrToULL(begin[b + 6..]);
      if used == 0 || b + 6 + used > n || declared > |begin| - (n + 1) then None
      else if StartsWith(begin[ContentEnd(begin, n + 1 + declared)..], OUTPUT_END)
      then Some(begin[n + 1..n + 1 + declared]) else None
  }

  datatype Reading =
    | NoIds
    | NoOutput(source: string, id: string)
    | Record(source: string, id: string, status: string, picked: string, output: string)

  const SOURCE_SIZE: nat := 64
  const ID_SIZE: nat := 128
  const STATUS_SIZE: nat := 32
  const PICKED_SIZE: nat := 256

  function OrEmpty(o: Option<string>): string {
    match o case None => "" case Some(v) => v
  }

  function ReadCase(s: string): Reading {
    var source := GetField(s, "source: ", SOURCE_SIZE);
    var id := GetField(s, "id: ", ID_SIZE);
    if source.None? || id.None? then NoIds
    else
      match CopyOutput(s)
      case None => NoOutput(source.value, id.value)
      case Some(output) =>
        Record(source.value, id.value, OrEmpty(GetField(s, "status: ", STATUS_SIZE)),
               OrEmpty(GetField(s, "picked: ", PICKED_SIZE)), output)
  }

  /** All cases of a trace, in order. */
  function ReadTrace(s: string): seq<Reading>
    decreases |s|
  {
    match FindCase(s)
    case None => []
    case Some(c) =>
      var next := FindCase(AfterLine(c));
      var rest := OrEmpty(next);
      [ReadCase(c[..|c| - |rest|])] + ReadTrace(rest)
  }

  // ----------------------------------------------------------------------- writer

  /** A counted block. */
  function Block(name: string, text: string): string {
    name + BEGIN_MARK + Decimal.Show(|text|) + "\n" + Closed(text) + name + "_END\n"
  }

  /** The text of a block, brought to the end of a line. */
  function Closed(text: string): string {
    if text == [] || text[|text| - 1] == '\n' then text else text + "\n"
  }

  const MAX_CHOICES: nat := 10

  datatype ThinkClose = ThinkClose(kind: string, index: string, remaining: string, rank: string)

  /** What is written about a case; numbers are given as they are printed. */
  datatype Case = Case(
    index: nat, total: nat, timestamp: string,
    source: string, id: string, domain: string, title: string,
    status: string, picked: string, expected: string,
    promptTokens: string, generatedTokens: string, budget: string, elapsed: string,
    temperature: string, topK: string, topP: string, minP: string, mode: string,
    close: Option<ThinkClose>, error: string, choices: seq<string>, kind: string,
    system: string, question: string, output: string)

  function HeaderLine(c: Case): string {
    CASE_MARK + Decimal.Show(c.index + 1) + "/" + Decimal.Show(c.total) + " " + c.source + "/" + c.id + " ====="
  }

  function Picked(c: Case): string {
    if c.picked == "" then "?" else c.picked
  }

  function ChoiceLines(choices: seq<string>, i: nat): seq<string> {
    if choices == [] then []
    else ["  " + [Letter(i)] + ". " + choices[0]] + ChoiceLines(choices[1..], i + 1)
  }

  function Letter(i: nat): char {
    if i < 26 then 'A' + i as char else '?'
  }

  /** The lines between the header and the blocks. */
  function MetaLines(c: Case): seq<string> {
    ["timestamp_unix: " + c.timestamp, "source: " + c.source, "id: " + c.id,
     "domain: " + c.domain, "title: " + c.title, "status: " + c.status, "picked: " + Picked(c)]
    + TailLines(c)
  }

  function TailLines(c: Case): seq<string> {
    NumberLines(c) + CloseLines(c.close) + EndLines(c)
  }

  function NumberLines(c: Case): seq<string> {
    CountLines(c) + SamplingLines(c)
  }

  function CountLines(c: Case): seq<string> {
    ["expected: " + c.expected, "prompt_tokens: " + c.promptTokens, "generated_tokens: " + c.generatedTokens,
     "generation_budget: " + c.budget, "elapsed_sec: " + c.elapsed]
  }

  function SamplingLines(c: Case): seq<string> {
    ["temperature: " + c.temperature, "top_k: " + c.topK, "top_p: " + c.topP, "min_p: " + c.minP,
     "think_mode_effective: " + c.mode]
  }

  function ErrorLines(c: Case): seq<string> {
    if c.error == "" then [] else ["error: " + c.error]
  }

  function AllChoiceLines(c: Case): seq<string> {
    if c.choices == [] then [] else ["choices:"] + ChoiceLines(c.choices, 0)
  }

  function KindLines(c: Case): seq<string> {
    ["answer_kind: " + c.kind]
  }

  function EndLines(c: Case): seq<string> {
    ErrorLines(c) + AllChoiceLines(c) + KindLines(c)
  }

  function CloseLines(close: Option<ThinkClose>): seq<string> {
    match close
    case None => ["think_close: none"]
    case Some(t) => ["think_close: " + t.kind, "think_close_token_index: " + t.index,
                     "think_close_remaining_budget: " + t.remaining, "think_close_rank: " + t.rank]
  }

  function Joined(lines: seq<string>): string {
    if lines == [] then "" else lines[0] + "\n" + Joined(lines[1..])
  }

  function CaseBody(c: Case): string {
    Joined(MetaLines(c)) + Block("SYSTEM_PROMPT", CString(c.system)) + Block("QUESTION_PROMPT", CString(c.question))
    + Block("MODEL_OUTPUT", CString(c.output)) + "\n"
  }

  function CaseText(c: Case): string {
    HeaderLine(c) + "\n" + CaseBody(c)
  }

  function CasesText(cases: seq<Case>): string {
    if cases == [] then "" else CaseText(cases[0]) + CasesText(cases[1..])
  }
}
