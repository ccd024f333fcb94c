/** Answers that name lines: numbers and ranges in a text, and when one such answer is accepted for
    another. */
module LineSpec {
  import Decimal
  import TraceFormat

  const LINES: nat := 256
  const LONG_MAX: nat := 0x7FFF_FFFF_FFFF_FFFF

  // --------------------------------------------------------------------------- numbers

  function Clamped(v: int): int {
    if v > LONG_MAX then LONG_MAX else if v < -(LONG_MAX + 1) then -(LONG_MAX + 1) else v
  }

  /** strtol in base 10: the value, and how many characters it used (0: there is no number). */
  function StrToL(s: string): (r: (int, nat))
    ensures r.1 <= |s|
    ensures s != [] && Decimal.IsDigit(s[0]) ==> r.1 > 0
  {
    var sp := TraceFormat.SpaceRun(s);
    var sign := if sp < |s| && (s[sp] == '-' || s[sp] == '+') then 1 else 0;
    var n := TraceFormat.DigitRun(s[sp + sign..]);
    if n == 0 then (0, 0)
    else
      var v: int := Decimal.Value(s[sp + sign..][..n]);
      (Clamped(if sign == 1 && s[sp] == '-' then 0 - v else v), sp + sign + n)
  }

  /** Where the first digit is, or the length. */
  function ToDigit(s: string): (n: nat)
    ensures n <= |s| && (n < |s| ==> Decimal.IsDigit(s[n])) && forall i :: 0 <= i < n ==> !Decimal.IsDigit(s[i])
  {
    if s == [] || Decimal.IsDigit(s[0]) then 0 else 1 + ToDigit(s[1..])
  }

  /** The ranges of a text; a number on its own is a range of one. A dash takes the number behind it,
      or, where there is none, zero. */
  function Ranges(s: string): seq<(int, int)>
    decreases |s|, 1
  {
    FromDigit(s[ToDigit(s)..])
  }

  function FromDigit(t: string): seq<(int, int)>
    requires t == [] || Decimal.IsDigit(t[0])
    decreases |t|, 0
  {
    if t == [] then []
    else
      var (a, used) := StrToL(t);
      var u := t[used..];
      if u != [] && u[0] == '-' then
        var (b, more) := StrToL(u[1..]);
        [(a, b)] + Ranges(u[1 + more..])
      else [(a, a)] + Ranges(u)
  }

  predicate Covers(r: (int, int), i: int) {
    (r.0 <= i <= r.1) || (r.1 <= i <= r.0)
  }

  predicate InSome(rs: seq<(int, int)>, i: int) {
    exists r :: r in rs && Covers(r, i)
  }

  /** The lines that a text names. */
  function Named(s: string): set<int> {
    NamedBy(Ranges(s))
  }

  function NamedBy(rs: seq<(int, int)>): (lines: set<int>)
    ensures forall i :: i in lines <==> 0 <= i < LINES && InSome(rs, i)
  {
    set i | 0 <= i < LINES && InSome(rs, i)
  }

  // ---------------------------------------------------------------------- what is written

  /** What an answer is made of: digits on their own, two runs of digits with a dash between them, and
      digits with a dash behind which there is no number. */
  datatype Item = Number(d: string) | Range(d: string, e: string) | Open(d: string)

  predicate Digits(s: string) {
    s != [] && forall i :: 0 <= i < |s| ==> Decimal.IsDigit(s[i])
  }

  predicate Good(it: Item) {
    Digits(it.d) && (it.Range? ==> Digits(it.e))
  }

  predicate AllGood(items: seq<Item>) {
    forall it :: it in items ==> Good(it)
  }

  function ItemText(it: Item): string {
    match it
    case Number(d) => d
    case Range(d, e) => d + ("-" + e)
    case Open(d) => d + "-"
  }

  function SpecText(items: seq<Item>): string
    decreases |items|, 0
  {
    if items == [] then "" else ItemText(items[0]) + Rest(items[1..])
  }

  function Rest(items: seq<Item>): string
    decreases |items|, 1
  {
    if items == [] then "" else "," + SpecText(items)
  }

  function Amount(d: string): nat
    requires Digits(d)
  {
    var v := Decimal.Value(d);
    if v > LONG_MAX then LONG_MAX else v
  }

  /** The range that an item is read as. */
  function Read(it: Item): (int, int)
    requires Good(it)
  {
    match it
    case Number(d) => (Amount(d), Amount(d))
    case Range(d, e) => (Amount(d), Amount(e))
    case Open(d) => (Amount(d), 0)
  }

  /** Whether an item writes a line: an open one writes the line of its number. */
  predicate Writes(it: Item, i: int)
    requires Good(it)
  {
    match it
    case Number(d) => i == Amount(d)
    case Range(d, e) => Amount(d) <= i <= Amount(e) || Amount(e) <= i <= Amount(d)
    case Open(d) => i == Amount(d)
  }

  predicate WritesSome(items: seq<Item>, i: int)
    requires AllGood(items)
  {
    exists it :: it in items && Writes(it, i)
  }

  predicate OpenAbove(items: seq<Item>, i: int)
    requires AllGood(items)
  {
    exists it :: it in items && it.Open? && i <= Amount(it.d)
  }

  function Written(items: seq<Item>): set<int>
    requires AllGood(items)
  {
    set i | 0 <= i < LINES && WritesSome(items, i)
  }

  /** The lines up to the number of some open item. */
  function UpToOpen(items: seq<Item>): set<int>
    requires AllGood(items)
  {
    set i | 0 <= i < LINES && OpenAbove(items, i)
  }

  lemma DigitsAreRead(d: string, rest: string)
    requires Digits(d) && (rest == [] || !Decimal.IsDigit(rest[0]))
    ensures StrToL(d + rest) == (Amount(d), |d|)
  {
    hide Decimal.Value, TraceFormat.DigitRun;
    var s := d + rest;
    assert s[0] == d[0] && Decimal.IsDigit(d[0]) && !TraceFormat.IsSpace(d[0]);
    TraceFormat.DigitRunIs(d, rest);
    assert s[0..] == s && s[..|d|] == d;
  }

  lemma AtDigit(t: string)
    requires t != [] && Decimal.IsDigit(t[0])
    ensures Ranges(t) == FromDigit(t)
  {
    hide FromDigit;
    assert t[0..] == t;
  }

  lemma NoNumber(rest: string)
    requires rest == [] || rest[0] == ','
    ensures StrToL(rest) == (0, 0)
  {
    assert rest[0..] == rest;
  }

  /** An item with a comma or nothing behind it is read as its range, and the rest as it stands. */
  lemma ItemIsRead(it: Item, rest: string)
    requires Good(it) && (rest == [] || rest[0] == ',')
    ensures Ranges(ItemText(it) + rest) == [Read(it)] + Ranges(rest)
  {
    hide StrToL, Ranges, Amount, ToDigit, Digits, FromDigit;
    var t := ItemText(it) + rest;
    match it
    case Number(d) =>
      StartsWithDigits(d, rest);
      NumberIsRead(t, |d|, rest);
    case Range(d, e) =>
      assert t == d + ("-" + (e + rest));
      StartsWithDigits(d, "-" + (e + rest));
      DigitsAreRead(e, rest);
      DashIsRead(t, |d|, e + rest);
      assert (e + rest)[|e|..] == rest;
    case Open(d) =>
      assert t == d + ("-" + rest);
      StartsWithDigits(d, "-" + rest);
      NoNumber(rest);
      DashIsRead(t, |d|, rest);
      assert rest[0..] == rest;
  }

  lemma DashIsRead(t: string, used: nat, u: string)
    requires t != [] && Decimal.IsDigit(t[0]) && used == StrToL(t).1 && t[used..] == "-" + u
    ensures FromDigit(t) == [(StrToL(t).0, StrToL(u).0)] + Ranges(u[StrToL(u).1..])
  {
    hide StrToL, Ranges;
    var more := StrToL(u).1;
    assert ("-" + u)[1..] == u && ("-" + u)[1 + more..] == u[more..];
  }

  lemma NumberIsRead(t: string, used: nat, u: string)
    requires t != [] && Decimal.IsDigit(t[0]) && used == StrToL(t).1 && t[used..] == u && (u == [] || u[0] != '-')
    ensures FromDigit(t) == [(StrToL(t).0, StrToL(t).0)] + Ranges(u)
  {
  }

  lemma StartsWithDigits(d: string, u: string)
    requires Digits(d) && (u == [] || !Decimal.IsDigit(u[0]))
    ensures var t := d + u;
            && t != [] && Decimal.IsDigit(t[0]) && t[|d|..] == u
            && Ranges(t) == FromDigit(t) && StrToL(t) == (Amount(d), |d|)
  {
    hide StrToL, Ranges, Amount, FromDigit;
    assert (d + u)[0] == d[0];
    AtDigit(d + u);
    DigitsAreRead(d, u);
  }

  lemma CommaIsSkipped(s: string)
    ensures Ranges("," + s) == Ranges(s)
  {
    hide FromDigit;
    var t := "," + s;
    assert t[1..] == s && !Decimal.IsDigit(',');
    assert t[ToDigit(t)..] == s[ToDigit(s)..];
  }

  lemma NoRanges()
    ensures Ranges("") == []
  {
  }

  function AllRead(items: seq<Item>): seq<(int, int)>
    requires AllGood(items)
  {
    if items == [] then [] else [Read(items[0])] + AllRead(items[1..])
  }

  /** A written list is read item by item, wherever its open items stand. */
  lemma {:induction false} SpecIsRead(items: seq<Item>)
    requires AllGood(items)
    ensures Ranges(SpecText(items)) == AllRead(items)
  {
    hide Ranges, ItemText, Read, Good;
    NoRanges();
    if items != [] {
      SpecIsRead(items[1..]);
      ItemIsRead(items[0], Rest(items[1..]));
      if |items| > 1 { CommaIsSkipped(SpecText(items[1..])); }
    }
  }

  lemma {:induction false} SomeIsRead(items: seq<Item>, i: int)
    requires AllGood(items)
    ensures InSome(AllRead(items), i) <==> exists it :: it in items && Covers(Read(it), i)
  {
    hide Good, Read, Covers;
    if items != [] {
      SomeIsRead(items[1..], i);
      var r, rest := Read(items[0]), AllRead(items[1..]);
      assert items == [items[0]] + items[1..];
      if InSome(AllRead(items), i) {
        var x :| x in [r] + rest && Covers(x, i);
        assert x == r || x in rest;
      }
      if Covers(r, i) { assert r in [r] + rest; }
      if InSome(rest, i) {
        var x :| x in rest && Covers(x, i);
        assert x in [r] + rest;
      }
    }
  }

  /** Which lines a written list names: those it writes, and every line up to an open item. */
  lemma SpecNames(items: seq<Item>)
    requires AllGood(items)
    ensures Named(SpecText(items)) == Written(items) + UpToOpen(items)
  {
    hide Ranges, Amount, AllRead, InSome, SpecText;
    SpecIsRead(items);
    var named := Named(SpecText(items));
    forall i ensures i in named <==> i in Written(items) + UpToOpen(items) {
      SomeIsRead(items, i);
      assert i in named <==> 0 <= i < LINES && InSome(AllRead(items), i);
      if it :| it in items && Covers(Read(it), i) && 0 <= i {
        assert Writes(it, i) || (it.Open? && i <= Amount(it.d));
      }
      if it :| it in items && Writes(it, i) { assert Covers(Read(it), i); }
      if it :| it in items && it.Open? && 0 <= i <= Amount(it.d) { assert Covers(Read(it), i); }
    }
  }

  /** So only written lines are named exactly when every line up to an open item is written anyway. */
  lemma OnlyWrittenNamed(items: seq<Item>)
    requires AllGood(items)
    ensures Named(SpecText(items)) == Written(items) <==> UpToOpen(items) <= Written(items)
  {
    hide Named, SpecText, Written, UpToOpen;
    SpecNames(items);
  }

  /** Where lines count from one, that is: exactly when no item is open. */
  lemma ClosedTells(items: seq<Item>)
    requires AllGood(items) && 0 !in Written(items)
    ensures Named(SpecText(items)) == Written(items) <==> forall it :: it in items ==> !it.Open?
  {
    hide Named, SpecText, Amount;
    OnlyWrittenNamed(items);
    if it :| it in items && it.Open? {
      assert 0 in UpToOpen(items);
    }
  }

  // --------------------------------------------------------------------------- judging

  /** An answer is accepted when it names some line, and only lines that are expected. */
  predicate Accepted(expected: string, got: string) {
    Named(got) != {} && Named(got) <= Named(expected)
  }

  /** An answer that writes expected lines, and no others, is accepted exactly when every line up to one
      of its open items is expected as well. */
  lemma RightAnswerAccepted(expected: seq<Item>, items: seq<Item>)
    requires AllGood(expected) && AllGood(items) && forall it :: it in expected ==> !it.Open?
    requires Written(items) != {} && Written(items) <= Written(expected)
    ensures Accepted(SpecText(expected), SpecText(items)) <==> UpToOpen(items) <= Written(expected)
  {
    hide Named, SpecText, Written, OpenAbove, AllGood;
    SpecNames(expected);
    SpecNames(items);
    NoneOpen(expected);
  }

  lemma NoneOpen(items: seq<Item>)
    requires AllGood(items) && forall it :: it in items ==> !it.Open?
    ensures UpToOpen(items) == {}
  {
  }

  // ----------------------------------------------------------------------------- the loops

  lemma InSomeMore(done: seq<(int, int)>, r: (int, int), i: int)
    ensures InSome(done + [r], i) == (InSome(done, i) || Covers(r, i))
  {
    var all := done + [r];
    if InSome(done, i) {
      var x :| x in done && Covers(x, i);
      assert x in all;
    }
    if Covers(r, i) { assert r in all; }
  }

  method SkipToDigit(s: string, start: nat) returns (p: nat)
    requires start <= |s|
    ensures start <= p <= |s| && p == start + ToDigit(s[start..])
  {
    p := start;
    while p < |s| && !Decimal.IsDigit(s[p])
      invariant start <= p <= |s| && start + ToDigit(s[start..]) == p + ToDigit(s[p..])
    {
      assert s[p..][1..] == s[p + 1..];
      p := p + 1;
    }
  }

  /** Marks one range, either way round, as far as there are lines. */
  method MarkRange(lines: array<bool>, r: (int, int)) returns (hit: bool)
    requires lines.Length == LINES
    modifies lines
    ensures forall i :: 0 <= i < LINES ==> lines[i] == (old(lines[i]) || Covers(r, i))
    ensures hit == exists i :: 0 <= i < LINES && Covers(r, i)
  {
    var (a, b) := r;
    if a > b { a, b := b, a; }
    if a < 0 { a := 0; }
    if b >= LINES { b := LINES - 1; }
    hit := false;
    var i := a;
    while i <= b
      invariant a <= i && (i <= b + 1 || i == a)
      invariant forall k :: 0 <= k < LINES ==> lines[k] == (old(lines[k]) || (a <= k < i && k <= b))
      invariant hit == (a < i)
      decreases b - i
    {
      lines[i] := true;
      hit := true;
      i := i + 1;
    }
    if a <= b { assert Covers(r, a); }
  }

  /** Reads one range. */
  method ReadRange(spec: string, start: nat) returns (r: (int, int), p: nat)
    requires start < |spec| && Decimal.IsDigit(spec[start])
    ensures start < p <= |spec| && Ranges(spec[start..]) == [r] + Ranges(spec[p..])
  {
    hide StrToL, Ranges;
    var s := spec[start..];
    AtDigit(s);
    var (a, used) := StrToL(s);
    p := start + used;
    assert s[used..] == spec[p..];
    if p < |spec| && spec[p] == '-' {
      p := p + 1;
      var (b, more) := StrToL(spec[p..]);
      assert s[used..][1..] == spec[p..] && s[used..][1 + more..] == spec[p + more..];
      p := p + more;
      r := (a, b);
    } else {
      r := (a, a);
    }
  }

  lemma SkipKeeps(spec: string, p: nat, q: nat)
    requires p <= q <= |spec| && q == p + ToDigit(spec[p..])
    ensures Ranges(spec[p..]) == Ranges(spec[q..])
  {
    hide FromDigit;
    assert spec[p..][q - p..] == spec[q..];
    if q < |spec| { AtDigit(spec[q..]); }
  }

  /** Marks the lines of a text; tells whether it named any. */
  method ParseLineSpec(spec: string, lines: array<bool>) returns (any: bool)
    requires lines.Length == LINES
    modifies lines
    ensures forall i :: 0 <= i < LINES ==> lines[i] == (old(lines[i]) || i in Named(spec))
    ensures any == (Named(spec) != {})
  {
    hide Ranges, InSome, Covers;
    any := false;
    var p := 0;
    assert spec[0..] == spec;
    ghost var done: seq<(int, int)> := [];
    NothingDone();
    assert [] + Ranges(spec) == Ranges(spec);
    while p < |spec|
      invariant p <= |spec| && done + Ranges(spec[p..]) == Ranges(spec)
      invariant forall i :: 0 <= i < LINES ==> lines[i] == (old(lines[i]) || InSome(done, i))
      invariant any == exists i :: 0 <= i < LINES && InSome(done, i)
      decreases |spec| - p
    {
      var q := SkipToDigit(spec, p);
      SkipKeeps(spec, p, q);
      p := q;
      if p == |spec| { break; }
      var r, next := ReadRange(spec, p);
      var hit := MarkRange(lines, r);
      any := any || hit;
      forall i ensures InSome(done + [r], i) == (InSome(done, i) || Covers(r, i)) { InSomeMore(done, r, i); }
      done := done + [r];
      p := next;
    }
    assert spec[p..] == "";
    NoRanges();
    assert done == Ranges(spec);
    NamedSome(done);
  }

  lemma NamedSome(rs: seq<(int, int)>)
    ensures (NamedBy(rs) != {}) == exists i :: 0 <= i < LINES && InSome(rs, i)
  {
    hide InSome;
    if i :| 0 <= i < LINES && InSome(rs, i) { assert i in NamedBy(rs); }
    if NamedBy(rs) != {} {
      var i :| i in NamedBy(rs);
      assert 0 <= i < LINES && InSome(rs, i);
    }
  }

  lemma NothingDone()
    ensures forall i :: !InSome([], i)
  {
  }

  method AnswerMatches(expected: string, got: string) returns (ok: bool)
    ensures ok == Accepted(expected, got)
  {
    hide Named;
    var e := new bool[LINES](_ => false);
    var g := new bool[LINES](_ => false);
    var any := ParseLineSpec(expected, e);
    NoneInNone(Named(got), Named(expected));
    NamedAreLines(expected);
    NamedAreLines(got);
    if !any { return false; }
    any := ParseLineSpec(got, g);
    if !any { return false; }
    ok := false;
    for i := 0 to LINES
      invariant forall k :: 0 <= k < i && k in Named(got) ==> k in Named(expected)
      invariant ok == exists k :: 0 <= k < i && k in Named(got)
    {
      if g[i] {
        if !e[i] {
          assert i in Named(got) && i !in Named(expected);
          return false;
        }
        ok := true;
      }
    }
    assert Named(got) <= Named(expected);
    NamesSome(Named(got));
  }

  lemma NamesSome(a: set<int>)
    requires forall i :: i in a ==> 0 <= i < LINES
    ensures (exists k :: 0 <= k < LINES && k in a) == (a != {})
  {
    if !exists k :: 0 <= k < LINES && k in a {
      assert forall k :: k !in a;
      assert a == {};
    }
  }

  lemma NoneInNone(a: set<int>, b: set<int>)
    ensures b == {} && a <= b ==> a == {}
  {
  }

  lemma NamedAreLines(s: string)
    ensures forall i :: i in Named(s) ==> 0 <= i < LINES
  {
  }

  // ----------------------------------------------------------------- without open items

  /** A list without open items names the lines from 0 to 255 that it writes, and no others. */
  lemma ClosedNames(items: seq<Item>, i: int)
    requires AllGood(items) && forall it :: it in items ==> !it.Open?
    ensures i in Named(SpecText(items)) <==> 0 <= i < 256 && exists it :: it in items && Writes(it, i)
  {
    hide Named, SpecText, OpenAbove, Amount;
    SpecNames(items);
    NoneOpen(items);
  }

  /** Of such lists an answer is accepted exactly when it writes some line, and only expected ones. */
  lemma ClosedAccepted(expected: seq<Item>, items: seq<Item>)
    requires AllGood(expected) && AllGood(items)
    requires (forall it :: it in expected ==> !it.Open?) && forall it :: it in items ==> !it.Open?
    ensures Accepted(SpecText(expected), SpecText(items)) <==>
              && (exists i :: i in Written(items))
              && forall i :: i in Written(items) ==> i in Written(expected)
  {
    hide Named, SpecText, Written, OpenAbove, AllGood;
    SpecNames(expected);
    SpecNames(items);
    NoneOpen(expected);
    NoneOpen(items);
    assert Written(items) != {} <==> exists i :: i in Written(items);
  }

  // ------------------------------------------------------------------ numbers with a sign

  /** The number that digits with a sign in front make, within the range of 64 bits. */
  function Signed(sign: string, digits: string): int
    requires forall i :: 0 <= i < |digits| ==> Decimal.IsDigit(digits[i])
  {
    var v := if sign == "-" then 0 - Decimal.Value(digits) else Decimal.Value(digits);
    if v > 0x7FFF_FFFF_FFFF_FFFF then 0x7FFF_FFFF_FFFF_FFFF
    else if v < -0x8000_0000_0000_0000 then -0x8000_0000_0000_0000 else v
  }

  /** A number may stand behind blanks and a sign. */
  lemma NumberWithSign(blanks: string, sign: string, digits: string, rest: string)
    requires forall i :: 0 <= i < |blanks| ==> blanks[i] == ' ' || '\t' <= blanks[i] <= '\r'
    requires (sign == "" || sign == "+" || sign == "-") && Digits(digits)
    requires rest == [] || !Decimal.IsDigit(rest[0])
    ensures StrToL(blanks + sign + digits + rest) == (Signed(sign, digits), |blanks| + |sign| + |digits|)
  {
    hide Decimal.Value, TraceFormat.DigitRun, TraceFormat.SpaceRun, Decimal.IsDigit, StrToL, TraceFormat.IsSpace;
    TraceFormat.BlanksAre(blanks);
    TraceFormat.Parts(blanks, sign, digits, rest);
    TraceFormat.DigitsAreNot(digits, rest, sign);
    TraceFormat.SpaceRunIs(blanks, sign + digits + rest);
    TraceFormat.DigitRunIs(digits, rest);
    TraceFormat.SignIs(blanks, sign, digits + rest);
    NumberParts(blanks + sign + digits + rest, |blanks|, |sign|, digits);
  }

  /** What reading a number comes down to once its parts have been found. */
  lemma NumberParts(s: string, at: nat, sign: nat, digits: string)
    requires at == TraceFormat.SpaceRun(s) && Digits(digits)
    requires sign == if at < |s| && (s[at] == '-' || s[at] == '+') then 1 else 0
    requires at + sign <= |s| && TraceFormat.DigitRun(s[at + sign..]) == |digits|
    requires s[at + sign..][..|digits|] == digits
    ensures StrToL(s) == (Signed(if sign == 1 && s[at] == '-' then "-" else "", digits), at + sign + |digits|)
  {
    hide Decimal.Value, TraceFormat.DigitRun, TraceFormat.SpaceRun, Decimal.IsDigit;
  }

  /** A dash right behind a number takes the number behind it, even behind blanks and with a sign. */
  lemma DashTakes(d: string, blanks: string, sign: string, e: string, rest: string)
    requires forall i :: 0 <= i < |blanks| ==> blanks[i] == ' ' || '\t' <= blanks[i] <= '\r'
    requires Digits(d) && (sign == "" || sign == "+" || sign == "-") && Digits(e)
    requires rest == [] || !Decimal.IsDigit(rest[0])
    ensures Ranges(d + ("-" + (blanks + sign + e + rest))) == [(Signed("", d), Signed(sign, e))] + Ranges(rest)
  {
    hide StrToL, Ranges, Amount, FromDigit;
    var u := blanks + sign + e + rest;
    StartsWithDigits(d, "-" + u);
    NumberWithSign(blanks, sign, e, rest);
    DashIsRead(d + ("-" + u), |d|, u);
    TraceFormat.Parts(blanks, sign, e, rest);
    assert u[|blanks| + |sign| + |e|..] == rest;
    AmountIs(d);
  }

  lemma AmountIs(d: string)
    requires Digits(d)
    ensures Amount(d) == Signed("", d)
  {
  }
}
