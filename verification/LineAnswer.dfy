/** What is made of the line of an answer before it is compared: its numbers and ranges, with commas
    between them. */
module LineAnswer {
  import Decimal
  import opened LineSpec
  import TraceFormat

  // ------------------------------------------------------------------------ normalising

  /** The items found in a line. A dash and a second number may follow the first one behind blanks; the
      character behind an item is passed over unread. */
  function Pieces(s: string): (items: seq<Item>)
    ensures AllGood(items)
    decreases |s|
  {
    if s == [] then []
    else if !Decimal.IsDigit(s[0]) then Pieces(s[1..])
    else
      var (it, rest) := FirstPiece(s);
      [it] + (if rest == [] then [] else Pieces(rest[1..]))
  }

  /** The item at the start, and what is left behind it. */
  function FirstPiece(s: string): (r: (Item, string))
    requires s != [] && Decimal.IsDigit(s[0])
    ensures Good(r.0) && |r.1| < |s| && |ItemText(r.0)| + |r.1| <= |s|
  {
    var n := TraceFormat.DigitRun(s);
    var t := AfterBlanks(s[n..]);
    if t == [] || t[0] != '-' then (Number(s[..n]), t) else DashPiece(s[..n], t[1..])
  }

  /** The item of a number with a dash behind it. */
  function DashPiece(d: string, t: string): (r: (Item, string))
    requires Digits(d)
    ensures Good(r.0) && |r.1| <= |t| && |ItemText(r.0)| + |r.1| <= |d| + 1 + |t|
  {
    var u := AfterBlanks(t);
    var m := TraceFormat.DigitRun(u);
    (if m == 0 then Open(d) else Range(d, u[..m]), u[m..])
  }

  function AfterBlanks(s: string): (t: string)
    ensures |t| <= |s| && (t == [] || !TraceFormat.IsSpace(t[0]))
    ensures s == [] || !TraceFormat.IsSpace(s[0]) ==> t == s
  {
    if s == [] || !TraceFormat.IsSpace(s[0]) then s else AfterBlanks(s[1..])
  }

  function Stripped(s: string): (t: string)
    ensures t <= s && (t == [] || (t[|t| - 1] != ',' && t[|t| - 1] != '-'))
    ensures forall i :: |t| <= i < |s| ==> s[i] == ',' || s[i] == '-'
  {
    if s == [] || (s[|s| - 1] != ',' && s[|s| - 1] != '-') then s else Stripped(s[..|s| - 1])
  }

  function Cut(s: string, size: nat): string {
    if |s| <= size then s else s[..size]
  }

  /** The compact form of an answer line, in a buffer of the given size. */
  function Normalized(line: string, size: nat): string
    requires size > 0
  {
    var kept := Stripped(Cut(SpecText(Pieces(line)), size - 1));
    if kept == [] then Cut("?", size - 1) else kept
  }

  /** The last item loses an open dash. */
  function ClosedLast(items: seq<Item>): seq<Item>
    requires items != []
  {
    var k := |items| - 1;
    if items[k].Open? then items[k := Number(items[k].d)] else items
  }

  lemma {:induction false} NeverLonger(s: string)
    ensures |SpecText(Pieces(s))| <= |s|
    decreases |s|
  {
    hide FirstPiece, ItemText;
    if s != [] {
      if !Decimal.IsDigit(s[0]) {
        NeverLonger(s[1..]);
      } else {
        var (it, rest) := FirstPiece(s);
        if rest != [] { NeverLonger(rest[1..]); }
        var more := if rest == [] then [] else Pieces(rest[1..]);
        assert Pieces(s)[1..] == more;
      }
    }
  }

  lemma {:induction false} StripBehind(a: string, b: string)
    requires Stripped(b) != []
    ensures Stripped(a + b) == a + Stripped(b)
  {
    var s, c := a + b, b[..|b| - 1];
    assert s[|s| - 1] == b[|b| - 1];
    if b[|b| - 1] == ',' || b[|b| - 1] == '-' {
      assert s[..|s| - 1] == a + c;
      assert Stripped(b) == Stripped(c);
      StripBehind(a, c);
    }
  }

  lemma StripItem(it: Item)
    requires Good(it)
    ensures Stripped(ItemText(it)) == (if it.Open? then it.d else ItemText(it))
  {
    var t := ItemText(it);
    if it.Open? { assert t[..|t| - 1] == it.d; }
  }

  /** Stripping what was written closes its last item and changes nothing else. */
  lemma {:induction false} StrippedCloses(items: seq<Item>)
    requires AllGood(items) && items != []
    ensures Stripped(SpecText(items)) == SpecText(ClosedLast(items)) != []
    ensures AllGood(ClosedLast(items)) && !ClosedLast(items)[|items| - 1].Open?
  {
    hide Stripped, Good, ItemText;
    var it, more := items[0], items[1..];
    StripItem(it);
    ItemNotEmpty(it);
    if more == [] {
      assert items == [it];
      Single(it);
      Single(Number(it.d));
    } else {
      assert items == [it] + more;
      StrippedCloses(more);
      StripBehind(ItemText(it) + ",", SpecText(more));
      ClosedBehind(items);
      Joined(it, more);
      Joined(it, ClosedLast(more));
    }
  }

  lemma Single(it: Item)
    ensures SpecText([it]) == ItemText(it)
    ensures ClosedLast([it]) == [if it.Open? then Number(it.d) else it]
  {
    hide ItemText;
    assert [it][1..] == [];
  }

  lemma ClosedBehind(items: seq<Item>)
    requires |items| > 1
    ensures ClosedLast(items) == [items[0]] + ClosedLast(items[1..])
  {
  }

  lemma Joined(it: Item, more: seq<Item>)
    requires more != []
    ensures SpecText([it] + more) == (ItemText(it) + ",") + SpecText(more)
  {
    hide ItemText;
    assert ([it] + more)[1..] == more;
    assert ItemText(it) + ("," + SpecText(more)) == (ItemText(it) + ",") + SpecText(more);
  }

  lemma ItemNotEmpty(it: Item)
    requires Good(it)
    ensures ItemText(it) != [] && it.d != []
    ensures it.Open? ==> Good(Number(it.d)) && ItemText(Number(it.d)) == it.d
  {
  }

  lemma NothingStripped()
    ensures SpecText([]) == Stripped([]) == []
  {
  }

  /** What a line that fits the buffer is normalised to: its items with commas between them, the last
      one closed, or a question mark where it holds no number. */
  lemma NormalizedIsSpec(line: string, size: nat)
    requires |line| < size
    ensures Pieces(line) == [] ==> Normalized(line, size) == Cut("?", size - 1)
    ensures Pieces(line) != [] ==> Normalized(line, size) == SpecText(ClosedLast(Pieces(line)))
  {
    hide Pieces, SpecText, Stripped, ClosedLast;
    NeverLonger(line);
    if Pieces(line) == [] {
      NothingStripped();
    } else {
      StrippedCloses(Pieces(line));
    }
  }

  /** Digits at the start, and what follows them. */
  lemma DigitsFirst(d: string, u: string)
    requires Digits(d) && (u == [] || !Decimal.IsDigit(u[0]))
    ensures var t := d + u; t != [] && Decimal.IsDigit(t[0])
    ensures var b := AfterBlanks(u);
            FirstPiece(d + u) == if b == [] || b[0] != '-' then (Number(d), b) else DashPiece(d, b[1..])
  {
    hide TraceFormat.DigitRun, AfterBlanks, DashPiece;
    TraceFormat.DigitRunIs(d, u);
    assert (d + u)[0] == d[0] && (d + u)[..|d|] == d && (d + u)[|d|..] == u;
  }

  /** The first item of a text that goes on with a comma, or not at all. */
  lemma FirstOfText(it: Item, rest: string)
    requires Good(it) && (rest == [] || rest[0] == ',')
    ensures var t := ItemText(it) + rest; t != [] && Decimal.IsDigit(t[0]) && FirstPiece(t) == (it, rest)
  {
    hide FirstPiece, AfterBlanks, DashPiece, Digits;
    match it
    case Number(d) =>
      DigitsFirst(d, rest);
    case Range(d, e) =>
      var u := "-" + (e + rest);
      assert ItemText(it) + rest == d + u && u[1..] == e + rest;
      DigitsFirst(d, u);
      DashRange(d, e, rest);
    case Open(d) =>
      var u := "-" + rest;
      assert ItemText(it) + rest == d + u && u[1..] == rest;
      DigitsFirst(d, u);
      DashOpen(d, rest);
  }

  lemma DashRange(d: string, e: string, rest: string)
    requires Digits(d) && Digits(e) && (rest == [] || rest[0] == ',')
    ensures DashPiece(d, e + rest) == (Range(d, e), rest)
  {
    hide TraceFormat.DigitRun, AfterBlanks;
    assert (e + rest)[0] == e[0];
    TraceFormat.DigitRunIs(e, rest);
    assert (e + rest)[..|e|] == e && (e + rest)[|e|..] == rest;
  }

  lemma DashOpen(d: string, rest: string)
    requires Digits(d) && (rest == [] || rest[0] == ',')
    ensures DashPiece(d, rest) == (Open(d), rest)
  {
    assert rest[0..] == rest;
  }

  /** A list in the compact form is found as it was written, so normalising it again changes nothing. */
  lemma {:induction false} SpecIsFound(items: seq<Item>)
    requires AllGood(items)
    ensures Pieces(SpecText(items)) == items
  {
    hide FirstPiece, ItemText, Good;
    if items != [] {
      var rest := Rest(items[1..]);
      SpecIsFound(items[1..]);
      FirstOfText(items[0], rest);
      if |items| > 1 { assert rest[1..] == SpecText(items[1..]); }
      assert items == [items[0]] + items[1..];
    }
  }

  /** Which lines are named by an answer line, whatever it says: those its items write, and every line
      up to an item that ends in a dash and is not the last. */
  lemma AnswerNames(line: string, size: nat)
    requires |line| < size && Pieces(line) != []
    ensures var items := ClosedLast(Pieces(line));
            AllGood(items) && Named(Normalized(line, size)) == Written(items) + UpToOpen(items)
    ensures var items := ClosedLast(Pieces(line));
            Normalized(Normalized(line, size), size) == Normalized(line, size)
  {
    hide Pieces, SpecText, Named, Written, UpToOpen, ClosedLast, Normalized;
    var items := ClosedLast(Pieces(line));
    StrippedCloses(Pieces(line));
    NormalizedIsSpec(line, size);
    SpecNames(items);
    SpecIsFound(items);
    NeverLonger(line);
    ClosedAgain(Pieces(line));
    ClosedFits(Pieces(line));
    NormalizedIsSpec(SpecText(items), size);
  }

  lemma ClosedAgain(items: seq<Item>)
    requires items != []
    ensures ClosedLast(items) != [] && ClosedLast(ClosedLast(items)) == ClosedLast(items)
  {
  }

  lemma ClosedFits(items: seq<Item>)
    requires AllGood(items) && items != []
    ensures |SpecText(ClosedLast(items))| <= |SpecText(items)|
  {
    hide SpecText, ClosedLast;
    StrippedCloses(items);
  }

  // ---------------------------------------------------------------------- what gets lost

  function DigitsOf(s: string): string {
    if s == [] then [] else (if Decimal.IsDigit(s[0]) then [s[0]] else []) + DigitsOf(s[1..])
  }

  /** A number on its own has blanks behind it and then another digit. */
  predicate Crowded(s: string)
    decreases |s|
  {
    if s == [] then false
    else if !Decimal.IsDigit(s[0]) then Crowded(s[1..])
    else
      var rest := FirstPiece(s).1;
      rest != [] && (Decimal.IsDigit(rest[0]) || Crowded(rest[1..]))
  }

  lemma {:induction false} DigitsOfBoth(a: string, b: string)
    ensures DigitsOf(a + b) == DigitsOf(a) + DigitsOf(b)
  {
    if a == [] {
      assert a + b == b;
    } else {
      DigitsOfBoth(a[1..], b);
      assert (a + b)[0] == a[0] && (a + b)[1..] == a[1..] + b;
      Associate(if Decimal.IsDigit(a[0]) then [a[0]] else [], DigitsOf(a[1..]), DigitsOf(b));
    }
  }

  lemma {:induction false} DigitsBehindBlanks(s: string)
    ensures DigitsOf(AfterBlanks(s)) == DigitsOf(s)
  {
    if s != [] && TraceFormat.IsSpace(s[0]) { DigitsBehindBlanks(s[1..]); }
  }

  lemma DigitsOfCut(s: string, n: nat)
    requires n <= |s|
    ensures DigitsOf(s) == DigitsOf(s[..n]) + DigitsOf(s[n..])
  {
    assert s == s[..n] + s[n..];
    DigitsOfBoth(s[..n], s[n..]);
  }

  lemma DigitsOfFirst(s: string)
    requires s != [] && Decimal.IsDigit(s[0])
    ensures var (it, rest) := FirstPiece(s); DigitsOf(s) == DigitsOf(ItemText(it)) + DigitsOf(rest)
  {
    hide DigitsOf, TraceFormat.DigitRun, AfterBlanks, DashPiece;
    var n := TraceFormat.DigitRun(s);
    DigitsOfCut(s, n);
    DigitsBehindBlanks(s[n..]);
    var t := AfterBlanks(s[n..]);
    if t != [] && t[0] == '-' {
      DashFirst(t);
      DigitsOfDash(s[..n], t[1..]);
      assert FirstPiece(s) == DashPiece(s[..n], t[1..]);
    } else {
      assert FirstPiece(s) == (Number(s[..n]), t);
    }
  }

  lemma DashFirst(t: string)
    requires t != [] && t[0] == '-'
    ensures DigitsOf(t) == DigitsOf(t[1..])
  {
  }

  lemma DigitsOfDash(d: string, t: string)
    requires Digits(d)
    ensures var (it, rest) := DashPiece(d, t); DigitsOf(ItemText(it)) + DigitsOf(rest) == DigitsOf(d) + DigitsOf(t)
  {
    hide DigitsOf, TraceFormat.DigitRun, AfterBlanks, Digits, ItemText;
    DigitsBehindBlanks(t);
    var u := AfterBlanks(t);
    var m := TraceFormat.DigitRun(u);
    if m == 0 {
      DigitsOfOpen(d);
      assert u[0..] == u;
    } else {
      DigitsOfCut(u, m);
      DigitsOfRange(d, u[..m]);
      Associate(DigitsOf(d), DigitsOf(u[..m]), DigitsOf(u[m..]));
    }
  }

  lemma DigitsOfOpen(d: string)
    ensures DigitsOf(ItemText(Open(d))) == DigitsOf(d)
  {
    DigitsOfBoth(d, "-");
    DashHasNone();
  }

  lemma DigitsOfRange(d: string, e: string)
    ensures DigitsOf(ItemText(Range(d, e))) == DigitsOf(d) + DigitsOf(e)
  {
    hide DigitsOf;
    DigitsOfBoth(d, "-" + e);
    DigitsOfBoth("-", e);
    DashHasNone();
  }

  lemma Associate(a: string, b: string, c: string)
    ensures (a + b) + c == a + (b + c)
  {
  }

  lemma DashHasNone()
    ensures DigitsOf("-") == [] && DigitsOf(",") == []
  {
  }

  lemma DigitsOfText(it: Item, items: seq<Item>)
    ensures DigitsOf(SpecText([it] + items)) == DigitsOf(ItemText(it)) + DigitsOf(SpecText(items))
  {
    hide ItemText, DigitsOf;
    assert ([it] + items)[1..] == items;
    DigitsOfBoth(ItemText(it), Rest(items));
    if items != [] {
      DigitsOfBoth(",", SpecText(items));
      DashHasNone();
    }
  }

  /** The digits of an answer line all survive exactly when it is not crowded. */
  lemma {:induction false} DigitsSurvive(s: string)
    ensures DigitsOf(SpecText(Pieces(s))) == DigitsOf(s) <==> !Crowded(s)
    ensures |DigitsOf(SpecText(Pieces(s)))| <= |DigitsOf(s)|
    decreases |s|
  {
    hide FirstPiece, SpecText, DigitsOf;
    if s == [] {
      NothingStripped();
    } else if !Decimal.IsDigit(s[0]) {
      DigitsStep(s);
      DigitsSurvive(s[1..]);
    } else {
      var (it, rest) := FirstPiece(s);
      if rest != [] { DigitsSurvive(rest[1..]); }
      NothingStripped();
      FirstSurvives(s, if rest == [] then [] else Pieces(rest[1..]));
    }
  }

  /** One item and what is found behind the character passed over. */
  lemma FirstSurvives(s: string, more: seq<Item>)
    requires s != [] && Decimal.IsDigit(s[0])
    requires var rest := FirstPiece(s).1;
             if rest == [] then more == [] else |DigitsOf(SpecText(more))| <= |DigitsOf(rest[1..])|
    ensures var (it, rest) := FirstPiece(s);
            && |DigitsOf(SpecText([it] + more))| <= |DigitsOf(s)|
            && (DigitsOf(SpecText([it] + more)) == DigitsOf(s) <==>
                rest == [] || (!Decimal.IsDigit(rest[0]) && DigitsOf(SpecText(more)) == DigitsOf(rest[1..])))
  {
    hide FirstPiece, SpecText, ItemText, DigitsOf;
    var (it, rest) := FirstPiece(s);
    DigitsOfFirst(s);
    DigitsOfText(it, more);
    NothingStripped();
    if rest == [] {
      NoDigits();
    } else {
      DigitsStep(rest);
      var c := if Decimal.IsDigit(rest[0]) then [rest[0]] else [];
      SameBehind(DigitsOf(ItemText(it)), DigitsOf(SpecText(more)), c, DigitsOf(rest[1..]));
    }
  }

  lemma NoDigits()
    ensures DigitsOf([]) == []
  {
  }

  lemma DigitsStep(s: string)
    requires s != []
    ensures DigitsOf(s) == (if Decimal.IsDigit(s[0]) then [s[0]] else []) + DigitsOf(s[1..])
  {
  }

  lemma SameBehind(a: string, b: string, c: string, d: string)
    requires |b| <= |d|
    ensures a + b == a + (c + d) <==> c == [] && b == d
  {
    assert (a + b)[|a|..] == b && (a + (c + d))[|a|..] == c + d;
    if c == [] { assert c + d == d; }
  }

  // ------------------------------------------------------------------ two answers

  /** The answer "5-, 9" is taken to name the lines 0 to 5, and is refused where 5 and 9 are expected. */
  lemma RightAnswerRefused()
    ensures Pieces("5-, 9") == [Open("5"), Number("9")] && Normalized("5-, 9", 256) == "5-,9"
    ensures Named("5-,9") == {0, 1, 2, 3, 4, 5, 9} && !Accepted("5,9", "5-,9")
  {
    hide Pieces, Normalized, Named, SpecText, ClosedLast, Written, UpToOpen;
    var (five, nine) := (Open("5"), Number("9"));
    Amounts();
    FiveAndNine();
    NormalizedIsSpec("5-, 9", 256);
    TextsOfFive();
    SpecNames([five, nine]);
    SpecNames([Number("5"), nine]);
    LinesOfFive();
  }

  lemma TextsOfFive()
    ensures ClosedLast([Open("5"), Number("9")]) == [Open("5"), Number("9")]
    ensures SpecText([Open("5"), Number("9")]) == "5-,9" && SpecText([Number("5"), Number("9")]) == "5,9"
  {
    Single(Number("9"));
    Joined(Open("5"), [Number("9")]);
    Joined(Number("5"), [Number("9")]);
    assert [Open("5")] + [Number("9")] == [Open("5"), Number("9")];
    assert [Number("5")] + [Number("9")] == [Number("5"), Number("9")];
  }

  lemma LinesOfFive()
    requires Digits("5") && Digits("9") && Amount("5") == 5 && Amount("9") == 9
    ensures Written([Open("5"), Number("9")]) + UpToOpen([Open("5"), Number("9")]) == {0, 1, 2, 3, 4, 5, 9}
    ensures 0 !in Written([Number("5"), Number("9")]) + UpToOpen([Number("5"), Number("9")])
  {
    hide WritesSome, OpenAbove, Amount, Digits;
    forall i ensures WritesSome([Open("5"), Number("9")], i) <==> i == 5 || i == 9 { WrittenOfFive(Open("5"), i); }
    forall i ensures OpenAbove([Open("5"), Number("9")], i) <==> i <= 5 { WrittenOfFive(Open("5"), i); }
    WrittenOfFive(Number("5"), 0);
  }

  lemma WrittenOfFive(five: Item, i: int)
    requires Digits("5") && Digits("9") && Amount("5") == 5 && Amount("9") == 9
    requires five == Open("5") || five == Number("5")
    ensures WritesSome([five, Number("9")], i) <==> i == 5 || i == 9
    ensures OpenAbove([five, Number("9")], i) <==> five.Open? && i <= 5
  {
    hide Amount, Digits;
    var items := [five, Number("9")];
    assert five in items && Number("9") in items;
    assert Writes(five, i) <==> i == 5;
    assert Writes(Number("9"), i) <==> i == 9;
  }

  lemma FiveAndNine()
    ensures Pieces("5-, 9") == [Open("5"), Number("9")]
  {
    hide FirstPiece;
    var (five, nine) := (Open("5"), Number("9"));
    assert ItemText(five) + ", 9" == "5-, 9" && ItemText(nine) + "" == "9";
    FirstOfText(five, ", 9");
    FirstOfText(nine, "");
    assert ", 9"[1..] == " 9" && " 9"[1..] == "9";
    assert Pieces("9") == [nine] && Pieces(" 9") == [nine];
  }

  lemma Amounts()
    ensures Digits("5") && Digits("9") && Amount("5") == 5 && Amount("9") == 9
  {
    assert "5"[..0] == [] && "9"[..0] == [];
  }

  /** The character behind an item is lost even where it is a digit. */
  lemma DigitLost()
    ensures Pieces("9 15") == [Number("9"), Number("5")] && Crowded("9 15")
  {
    hide FirstPiece;
    NineAlone();
    assert ItemText(Number("5")) + "" == "5";
    FirstOfText(Number("5"), "");
    assert "15"[1..] == "5" && Pieces("5") == [Number("5")];
  }

  lemma NineAlone()
    ensures FirstPiece("9 15") == (Number("9"), "15")
  {
    TraceFormat.DigitRunIs("9", " 15");
    assert "9" + " 15" == "9 15" && "9 15"[1..] == " 15" && "9 15"[..1] == "9";
    assert " 15"[1..] == "15" && AfterBlanks("15") == "15" && AfterBlanks(" 15") == "15";
  }

  // ------------------------------------------------------------- normalising into a buffer

  /** Puts one character behind what is there, if there is room for it and the NUL. */
  method Put(dst: array<char>, n: nat, c: char, ghost done: string) returns (m: nat)
    requires n < dst.Length && dst[..n] == Cut(done, dst.Length - 1)
    modifies dst
    ensures m < dst.Length && dst[..m] == Cut(done + [c], dst.Length - 1)
  {
    m := n;
    if n + 1 < dst.Length {
      dst[n] := c;
      m := n + 1;
    }
  }

  method CopyDigits(line: string, p: nat, dst: array<char>, n: nat, ghost done: string) returns (q: nat, m: nat)
    requires p <= |line| && n < dst.Length && dst[..n] == Cut(done, dst.Length - 1)
    modifies dst
    ensures q == p + TraceFormat.DigitRun(line[p..]) <= |line|
    ensures m < dst.Length && dst[..m] == Cut(done + line[p..q], dst.Length - 1)
  {
    hide Cut, TraceFormat.DigitRun;
    q, m := p, n;
    assert done + line[p..q] == done;
    while q < |line| && Decimal.IsDigit(line[q])
      invariant p <= q <= |line| && p + TraceFormat.DigitRun(line[p..]) == q + TraceFormat.DigitRun(line[q..])
      invariant m < dst.Length && dst[..m] == Cut(done + line[p..q], dst.Length - 1)
    {
      DigitRunStep(line, q);
      m := Put(dst, m, line[q], done + line[p..q]);
      assert done + line[p..q] + [line[q]] == done + line[p..q + 1];
      q := q + 1;
    }
    NoDigitRun(line, q);
  }

  lemma DigitRunStep(line: string, q: nat)
    requires q < |line| && Decimal.IsDigit(line[q])
    ensures q + TraceFormat.DigitRun(line[q..]) == q + 1 + TraceFormat.DigitRun(line[q + 1..])
  {
    assert line[q..][1..] == line[q + 1..];
  }

  lemma NoDigitRun(line: string, q: nat)
    requires q <= |line| && (q == |line| || !Decimal.IsDigit(line[q]))
    ensures TraceFormat.DigitRun(line[q..]) == 0
  {
  }

  method SkipBlanks(line: string, p: nat) returns (q: nat)
    requires p <= |line|
    ensures p <= q <= |line| && line[q..] == AfterBlanks(line[p..])
  {
    q := p;
    while q < |line| && TraceFormat.IsSpace(line[q])
      invariant p <= q <= |line| && AfterBlanks(line[p..]) == AfterBlanks(line[q..])
    {
      assert line[q..][1..] == line[q + 1..];
      q := q + 1;
    }
  }

  /** Copies what follows a number and its dash. */
  method CopyBehindDash(line: string, p: nat, dst: array<char>, n: nat, ghost done: string, ghost d: string)
    returns (q: nat, m: nat)
    requires p <= |line| && Digits(d)
    requires n < dst.Length && dst[..n] == Cut(done + (d + "-"), dst.Length - 1)
    modifies dst
    ensures p <= q <= |line| && line[q..] == DashPiece(d, line[p..]).1
    ensures m < dst.Length && dst[..m] == Cut(done + ItemText(DashPiece(d, line[p..]).0), dst.Length - 1)
  {
    hide Cut, TraceFormat.DigitRun, AfterBlanks, Digits;
    q := SkipBlanks(line, p);
    ghost var u := line[q..];
    q, m := CopyDigits(line, q, dst, n, done + (d + "-"));
    ghost var k := TraceFormat.DigitRun(u);
    assert u[k..] == line[q..] && u[..k] == line[q - k..q];
    assert done + (d + "-") + u[..k] == done + (d + ("-" + u[..k]));
    if k == 0 { assert done + (d + "-") + u[..k] == done + (d + "-"); }
  }

  /** Copies the item that starts at p. */
  method CopyPiece(line: string, p: nat, dst: array<char>, n: nat, ghost done: string) returns (q: nat, m: nat)
    requires p < |line| && Decimal.IsDigit(line[p])
    requires n < dst.Length && dst[..n] == Cut(done, dst.Length - 1)
    modifies dst
    ensures p < q <= |line| && line[q..] == FirstPiece(line[p..]).1
    ensures m < dst.Length && dst[..m] == Cut(done + ItemText(FirstPiece(line[p..]).0), dst.Length - 1)
  {
    hide Cut, TraceFormat.DigitRun, AfterBlanks, DashPiece;
    ghost var s := line[p..];
    ghost var k := TraceFormat.DigitRun(s);
    q, m := CopyDigits(line, p, dst, n, done);
    ghost var d := line[p..q];
    assert s[..k] == d && s[k..] == line[q..];
    q := SkipBlanks(line, q);
    if q < |line| && line[q] == '-' {
      m := Put(dst, m, '-', done + d);
      q := q + 1;
      assert done + d + ['-'] == done + (d + "-");
      assert FirstPiece(s) == DashPiece(d, line[q..]);
      q, m := CopyBehindDash(line, q, dst, m, done, d);
    } else {
      assert FirstPiece(s) == (Number(d), line[q..]);
    }
  }

  /** What the text becomes when more items are found. */
  ghost function Joining(done: string, items: seq<Item>): string {
    if done == [] then SpecText(items) else done + Rest(items)
  }

  lemma JoiningMore(done: string, it: Item, more: seq<Item>)
    requires Good(it)
    ensures Joining(done, [it] + more) == Joining((if done == [] then "" else done + ",") + ItemText(it), more)
  {
    hide ItemText;
    ItemNotEmpty(it);
    assert ([it] + more)[1..] == more;
    assert SpecText([it] + more) == ItemText(it) + Rest(more);
    if done == [] {
      assert "" + ItemText(it) == ItemText(it);
    } else {
      assert Rest([it] + more) == "," + (ItemText(it) + Rest(more));
      assert done + ("," + (ItemText(it) + Rest(more))) == ((done + ",") + ItemText(it)) + Rest(more);
    }
  }

  /** Drops commas and dashes from the end. */
  method Strip(dst: array<char>, length: nat) returns (n: nat)
    requires length <= dst.Length
    ensures n <= length && dst[..n] == Stripped(dst[..length])
  {
    n := length;
    while n > 0 && (dst[n - 1] == ',' || dst[n - 1] == '-')
      invariant n <= length && Stripped(dst[..n]) == Stripped(dst[..length])
    {
      assert dst[..n][..n - 1] == dst[..n - 1];
      n := n - 1;
    }
  }

  /** Copies the items of a line, with commas between them. */
  method CopyPieces(line: string, dst: array<char>) returns (n: nat)
    requires dst.Length > 0
    modifies dst
    ensures n < dst.Length && dst[..n] == Cut(SpecText(Pieces(line)), dst.Length - 1)
  {
    hide FirstPiece, ItemText, SpecText, Joining, Good, Pieces, Cut;
    n := 0;
    ghost var done := "";
    var p := 0;
    assert line[0..] == line;
    NothingJoined(Pieces(line));
    NothingCut(dst.Length - 1);
    assert dst[..0] == [];
    while p < |line|
      invariant p <= |line| && n < dst.Length && dst[..n] == Cut(done, dst.Length - 1)
      invariant Joining(done, Pieces(line[p..])) == SpecText(Pieces(line))
    {
      PiecesStep(line, p);
      if Decimal.IsDigit(line[p]) {
        ghost var (it, rest) := FirstPiece(line[p..]);
        JoiningMore(done, it, if rest == [] then [] else Pieces(rest[1..]));
        if n > 0 { n := Put(dst, n, ',', done); }
        CutNothing(done, dst.Length - 1);
        done := if done == [] then "" else done + ",";
        p, n := CopyPiece(line, p, dst, n, done);
        done := done + ItemText(it);
        if p == |line| { break; }
        assert rest[1..] == line[p + 1..];
      }
      p := p + 1;
    }
    assert line[p..] == [];
    NoPieces();
    NothingMore(done);
  }

  lemma PiecesStep(line: string, p: nat)
    requires p < |line|
    ensures Pieces(line[p..]) ==
            if Decimal.IsDigit(line[p]) then
              var (it, rest) := FirstPiece(line[p..]); [it] + (if rest == [] then [] else Pieces(rest[1..]))
            else Pieces(line[p + 1..])
  {
    hide FirstPiece;
    assert line[p..][1..] == line[p + 1..];
  }

  lemma NoPieces()
    ensures Pieces([]) == []
  {
  }

  lemma NothingCut(size: nat)
    ensures Cut([], size) == []
  {
  }

  /** Where nothing of a text fits, nothing of a longer one does. */
  lemma CutNothing(s: string, size: nat)
    ensures Cut(s, size) == [] ==> s == [] || Cut(s + ",", size) == []
  {
    if size == 0 { assert (s + ",")[..0] == []; }
  }

  /** Writes the compact form of an answer line into the buffer, with a NUL behind it. */
  method NormalizeLineSpec(line: string, dst: array<char>) returns (n: nat)
    modifies dst
    ensures dst.Length == 0 ==> n == 0
    ensures dst.Length > 0 ==> n < dst.Length && dst[..n] == Normalized(line, dst.Length) && dst[n] == '\0'
  {
    hide SpecText, Pieces, Stripped;
    n := 0;
    if dst.Length == 0 { return; }
    n := CopyPieces(line, dst);
    n := Strip(dst, n);
    dst[n] := '\0';
    if n == 0 && dst.Length > 1 {
      dst[0], dst[1] := '?', '\0';
      n := 1;
    }
  }

  lemma NothingJoined(items: seq<Item>)
    ensures Joining("", items) == SpecText(items)
  {
  }

  lemma NothingMore(done: string)
    ensures Joining(done, []) == done
  {
  }

  // -------------------------------------------------------------------- how items are found

  predicate Blank(s: string) {
    forall i :: 0 <= i < |s| ==> s[i] == ' ' || '\t' <= s[i] <= '\r'
  }

  lemma {:induction false} BlanksAreSkipped(blanks: string, s: string)
    requires Blank(blanks) && (s == [] || !TraceFormat.IsSpace(s[0]))
    ensures AfterBlanks(blanks + s) == s
    decreases |blanks|
  {
    if blanks == [] {
      assert blanks + s == s;
    } else {
      assert (blanks + s)[1..] == blanks[1..] + s;
      BlanksAreSkipped(blanks[1..], s);
    }
  }

  /** Behind a number, whatever blanks there are, another character but a dash is passed over unread, be
      it a digit. */
  lemma NumberIsFound(d: string, blanks: string, c: char, rest: string)
    requires Digits(d) && Blank(blanks) && c != '-' && !TraceFormat.IsSpace(c)
    requires blanks == "" ==> !Decimal.IsDigit(c)
    ensures Pieces(d + (blanks + ([c] + rest))) == [Number(d)] + Pieces(rest)
  {
    hide FirstPiece, AfterBlanks, DashPiece;
    var u := blanks + ([c] + rest);
    NoDigitFirst(blanks, c, rest);
    DigitsFirst(d, u);
    BlanksAreSkipped(blanks, [c] + rest);
    assert ([c] + rest)[1..] == rest;
  }

  lemma NoDigitFirst(blanks: string, c: char, rest: string)
    requires Blank(blanks) && (blanks == "" ==> !Decimal.IsDigit(c))
    ensures var u := blanks + ([c] + rest); u != [] && !Decimal.IsDigit(u[0])
  {
    assert blanks != "" ==> (blanks + ([c] + rest))[0] == blanks[0];
  }

  /** Behind a dash, with whatever blanks around it, a second number makes a range; the character behind
      is passed over unread. Without one the dash stays open, and the character behind is passed over. */
  lemma DashIsFound(d: string, b: string, b1: string, e: string, c: char, rest: string)
    requires Digits(d) && Blank(b) && Blank(b1) && !Decimal.IsDigit(c) && (e == "" ==> !TraceFormat.IsSpace(c))
    requires forall i :: 0 <= i < |e| ==> Decimal.IsDigit(e[i])
    ensures Pieces(d + (b + ("-" + (b1 + (e + ([c] + rest))))))
         == [if e == "" then Open(d) else Range(d, e)] + Pieces(rest)
  {
    hide FirstPiece, AfterBlanks, DashPiece;
    var t := b1 + (e + ([c] + rest));
    NoDigitFirst(b, '-', t);
    DigitsFirst(d, b + ("-" + t));
    BlanksAreSkipped(b, "-" + t);
    assert ("-" + t)[1..] == t;
    DashFound(d, b1, e, c, rest);
    assert ([c] + rest)[1..] == rest;
  }

  lemma DashFound(d: string, b1: string, e: string, c: char, rest: string)
    requires Digits(d) && Blank(b1) && !Decimal.IsDigit(c) && (e == "" ==> !TraceFormat.IsSpace(c))
    requires forall i :: 0 <= i < |e| ==> Decimal.IsDigit(e[i])
    ensures DashPiece(d, b1 + (e + ([c] + rest))) == (if e == "" then Open(d) else Range(d, e), [c] + rest)
  {
    hide AfterBlanks, TraceFormat.DigitRun;
    var u := e + ([c] + rest);
    assert e != "" ==> u[0] == e[0];
    BlanksAreSkipped(b1, u);
    TraceFormat.DigitRunIs(e, [c] + rest);
    assert u[..|e|] == e && u[|e|..] == [c] + rest;
  }

  /** What is in front of the first digit is passed over. */
  lemma {:induction false} OthersArePassed(s: string, rest: string)
    requires forall i :: 0 <= i < |s| ==> !Decimal.IsDigit(s[i])
    ensures Pieces(s + rest) == Pieces(rest)
    decreases |s|
  {
    if s == [] {
      assert s + rest == rest;
    } else {
      assert (s + rest)[1..] == s[1..] + rest;
      OthersArePassed(s[1..], rest);
    }
  }
}
