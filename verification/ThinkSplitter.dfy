/** The two consumers of generated text that follow its thinking tags: the styled stream of the
    evaluator's screen, and the printer of the command line. */
module ThinkSplitter {
  import opened ThinkTags

  /** One round of a scan that has read t up to i. */
  lemma ScanStep(t: string, i: nat, finish: bool)
    requires i < |t|
    ensures var cur := t[i..];
      var e := First(cur);
      && i + |Spelling(e)| <= |t|
      && (Held(cur, finish) ==> Lex(cur, finish) == Split([], cur) && |cur| < PENDING_SIZE)
      && (!Held(cur, finish) ==> Lex(cur, finish) == Put(e, Lex(t[i + |Spelling(e)|..], finish)))
  {
    var cur := t[i..];
    var n := |Spelling(First(cur))|;
    assert cur[n..] == t[i + n..];
  }

  lemma ShowFirst(v: View, e: Event, rest: Split)
    ensures ShowAll(v, Put(e, rest).events) == ShowAll(Show(v, e), rest.events)
  {
    assert ([e] + rest.events)[1..] == rest.events;
  }

  /** What is still ahead of v leads to what all of it leads to from the start. */
  predicate Ahead(start: View, whole: Split, v: View, rest: Split) {
    ShowAll(start, whole.events) == ShowAll(v, rest.events) && whole.pending == rest.pending
  }

  lemma AheadStep(start: View, whole: Split, v: View, t: string, i: nat, finish: bool)
    requires i < |t| && !Held(t[i..], finish) && Ahead(start, whole, v, Lex(t[i..], finish))
    ensures var e := First(t[i..]);
      i + |Spelling(e)| <= |t| && Ahead(start, whole, Show(v, e), Lex(t[i + |Spelling(e)|..], finish))
  {
    hide Lex, ShowAll, Held, First, Spelling;
    ScanStep(t, i, finish);
    var e := First(t[i..]);
    ShowFirst(v, e, Lex(t[i + |Spelling(e)|..], finish));
  }

  function Repeated(style: nat, n: nat): (r: seq<nat>)
    ensures |r| == n
  {
    seq(n, _ => style)
  }

  lemma Once(style: nat)
    ensures Repeated(style, 1) == [style]
  {
  }

  class StreamSplitter {
    var stream: string
    var styles: seq<nat>
    var inThink: bool
    var pendingTag: array<char>
    var pendingLen: nat

    ghost predicate Valid()
      reads this
    {
      pendingTag.Length == PENDING_SIZE && pendingLen < PENDING_SIZE && |stream| == |styles|
    }

    ghost function Pending(): string
      reads this, pendingTag
      requires Valid()
    {
      pendingTag[..pendingLen]
    }

    ghost function State(): View
      reads this, pendingTag
      requires Valid()
    {
      View(stream, styles, inThink, Pending())
    }

    constructor (thinking: bool)
      ensures Valid() && fresh(pendingTag) && State() == View("", [], thinking, "")
    {
      stream, styles, inThink, pendingLen := "", [], thinking, 0;
      pendingTag := new char[PENDING_SIZE](_ => ' ');
    }

    method AppendVisible(p: string)
      modifies this`stream, this`styles
      ensures stream == old(stream) + p
      ensures styles == old(styles) + Repeated(if inThink then 1 else 0, |p|)
    {
      stream := stream + p;
      styles := styles + Repeated(if inThink then 1 else 0, |p|);
    }

    method Hold(cur: string)
      requires pendingTag.Length == PENDING_SIZE && |cur| < PENDING_SIZE
      modifies this`pendingLen, pendingTag
      ensures pendingLen == |cur| && pendingTag[..pendingLen] == cur
    {
      for k := 0 to |cur|
        invariant pendingTag[..k] == cur[..k]
      {
        pendingTag[k] := cur[k];
      }
      pendingLen := |cur|;
    }

    method AppendTokenText(text: string, finish: bool)
      requires Valid()
      modifies this`stream, this`styles, this`inThink, this`pendingLen, pendingTag
      ensures Valid() && pendingTag == old(pendingTag)
      ensures State() == Feed(old(State()), text, finish)
    {
      hide Lex, ShowAll, Held, First, Starts, Ahead;
      var t := pendingTag[..pendingLen] + text;
      ghost var start := old(State()).(pending := "");
      ghost var whole := Lex(t, finish);
      pendingLen := 0;
      var i := 0;
      assert t[0..] == t;
      assert State() == start;
      AheadAtStart(start, whole);
      while i < |t|
        invariant i <= |t| && Valid() && pendingLen == 0
        invariant Ahead(start, whole, State(), Lex(t[i..], finish))
        modifies this`stream, this`styles, this`inThink
      {
        var cur := t[i..];
        ghost var v := State();
        Once(0);
        Once(1);
        if !Held(cur, finish) { AheadStep(start, whole, v, t, i, finish); }
        if Starts(cur, OPEN_TAG) {
          OpenFirst(cur, finish);
          inThink := true;
          assert State() == Show(v, Open);
          i := i + |OPEN_TAG|;
          continue;
        }
        if Starts(cur, CLOSE_TAG) {
          CloseFirst(cur, finish);
          inThink := false;
          AppendVisible("\n");
          assert State() == Show(v, Close);
          i := i + |CLOSE_TAG|;
          continue;
        }
        ByteFirst(cur, finish);
        if !finish && cur[0] == '<' && (ProperPrefix(cur, OPEN_TAG) || ProperPrefix(cur, CLOSE_TAG)) {
          break;
        }
        AppendVisible(cur[..1]);
        assert cur[..1] == [cur[0]];
        assert State() == Show(v, Byte(cur[0]));
        i := i + 1;
      }
      NothingLeft(start, whole, State(), t, i, finish);
      if i < |t| && |t| - i < PENDING_SIZE {
        Hold(t[i..]);
      }
    }
  }

  lemma AheadAtStart(start: View, whole: Split)
    ensures Ahead(start, whole, start, whole)
  {
  }

  lemma OpenFirst(cur: string, finish: bool)
    requires Starts(cur, OPEN_TAG)
    ensures First(cur) == Open && !Held(cur, finish)
  {
  }

  lemma CloseFirst(cur: string, finish: bool)
    requires Starts(cur, CLOSE_TAG)
    ensures First(cur) == Close && !Held(cur, finish)
  {
    StartsChar(cur, OPEN_TAG, 1);
    StartsChar(cur, CLOSE_TAG, 1);
  }

  lemma ByteFirst(cur: string, finish: bool)
    requires cur != [] && !Starts(cur, OPEN_TAG) && !Starts(cur, CLOSE_TAG)
    ensures First(cur) == Byte(cur[0])
    ensures var partial := ProperPrefix(cur, OPEN_TAG) || ProperPrefix(cur, CLOSE_TAG);
      Held(cur, finish) == (!finish && cur[0] == '<' && partial)
  {
  }

  lemma NothingLeft(start: View, whole: Split, v: View, t: string, i: nat, finish: bool)
    requires i <= |t| && (i < |t| ==> Held(t[i..], finish)) && Ahead(start, whole, v, Lex(t[i..], finish))
    ensures ShowAll(start, whole.events) == v && whole.pending == t[i..]
    ensures |t| - i < PENDING_SIZE
  {
    if i == |t| { assert t[i..] == []; }
    assert Lex(t[i..], finish) == Split([], t[i..]);
  }

  // --------------------------------------------------------------------- the printer

  lemma PrintFirst(p: Printer, e: Event, rest: Split, useColor: bool)
    ensures PrintAll(p, Put(e, rest).events, useColor) == PrintAll(Print(p, e, useColor), rest.events, useColor)
  {
    assert ([e] + rest.events)[1..] == rest.events;
  }

  predicate PrintAhead(start: Printer, whole: Split, p: Printer, rest: Split, useColor: bool) {
    PrintAll(start, whole.events, useColor) == PrintAll(p, rest.events, useColor) && whole.pending == rest.pending
  }

  lemma PrintAheadAtStart(start: Printer, whole: Split, useColor: bool)
    ensures PrintAhead(start, whole, start, whole, useColor)
  {
  }

  lemma PrintAheadStep(start: Printer, whole: Split, p: Printer, t: string, i: nat, finish: bool, useColor: bool)
    requires i < |t| && !Held(t[i..], finish) && PrintAhead(start, whole, p, Lex(t[i..], finish), useColor)
    ensures var e := First(t[i..]);
      && i + |Spelling(e)| <= |t|
      && PrintAhead(start, whole, Print(p, e, useColor), Lex(t[i + |Spelling(e)|..], finish), useColor)
  {
    hide Lex, PrintAll, Held, First, Spelling, Print;
    ScanStep(t, i, finish);
    var e := First(t[i..]);
    PrintFirst(p, e, Lex(t[i + |Spelling(e)|..], finish), useColor);
  }

  lemma NothingToPrint(start: Printer, whole: Split, p: Printer, t: string, i: nat, finish: bool, useColor: bool)
    requires i <= |t| && (i < |t| ==> Held(t[i..], finish))
    requires PrintAhead(start, whole, p, Lex(t[i..], finish), useColor)
    ensures PrintAll(start, whole.events, useColor) == p && whole.pending == t[i..]
    ensures |t| - i < PENDING_SIZE
  {
    if i == |t| { assert t[i..] == []; }
    assert Lex(t[i..], finish) == Split([], t[i..]);
  }

  class TokenPrinter {
    const formatThinking: bool
    const useColor: bool
    /** What has been sent to the terminal. */
    var fp: seq<Output>
    var inThink: bool
    var colorOpen: bool
    var lastOutputNewline: bool
    var pending: array<char>
    var pendingLen: nat

    ghost predicate Valid()
      reads this
    {
      pending.Length == PENDING_SIZE && pendingLen < PENDING_SIZE
    }

    ghost function State(): Printer
      reads this, pending
      requires Valid()
    {
      Printer(fp, inThink, colorOpen, lastOutputNewline, pending[..pendingLen])
    }

    constructor (formatThinking: bool, thinking: bool, useColor: bool)
      ensures Valid() && fresh(pending) && State() == Printer([], thinking, false, true, "")
      ensures this.formatThinking == formatThinking && this.useColor == useColor
    {
      this.formatThinking, this.useColor := formatThinking, useColor;
      fp, inThink, colorOpen, lastOutputNewline, pendingLen := [], thinking, false, true, 0;
      pending := new char[PENDING_SIZE](_ => ' ');
    }

    method SetGreyColor()
      requires Valid()
      modifies this`fp, this`colorOpen
      ensures State() == SetGrey(old(State()), useColor)
    {
      if useColor && !colorOpen {
        fp := fp + [Grey];
        colorOpen := true;
      }
    }

    method ResetToPlain()
      requires Valid()
      modifies this`fp, this`colorOpen
      ensures State() == ResetColor(old(State()), useColor)
    {
      if useColor && colorOpen {
        fp := fp + [Reset];
        colorOpen := false;
      }
    }

    method WriteChar(c: char)
      requires Valid()
      modifies this`fp, this`colorOpen, this`lastOutputNewline
      ensures State() == Print(old(State()), Byte(c), useColor)
    {
      if inThink { SetGreyColor(); }
      fp := fp + [Plain(c)];
      lastOutputNewline := c == '\n';
    }

    method CloseThinking()
      requires Valid()
      modifies this`fp, this`colorOpen, this`lastOutputNewline, this`inThink
      ensures State() == Print(old(State()), Close, useColor)
    {
      inThink := false;
      ResetToPlain();
      if !lastOutputNewline {
        fp := fp + [Plain('\n')];
        lastOutputNewline := true;
      }
    }

    method Hold(cur: string)
      requires pending.Length == PENDING_SIZE && |cur| < PENDING_SIZE
      modifies this`pendingLen, pending
      ensures pendingLen == |cur| && pending[..pendingLen] == cur
    {
      for k := 0 to |cur|
        invariant pending[..k] == cur[..k]
      {
        pending[k] := cur[k];
      }
      pendingLen := |cur|;
    }

    method ProcessText(text: string, finish: bool)
      requires Valid()
      modifies this`fp, this`colorOpen, this`lastOutputNewline, this`inThink, this`pendingLen, pending
      ensures Valid() && pending == old(pending)
      ensures State() == Process(old(State()), text, finish, useColor)
    {
      hide Lex, PrintAll, Held, First, Starts, PrintAhead;
      var t := pending[..pendingLen] + text;
      ghost var start := old(State()).(pending := "");
      ghost var whole := Lex(t, finish);
      pendingLen := 0;
      var i := 0;
      assert t[0..] == t;
      assert State() == start;
      PrintAheadAtStart(start, whole, useColor);
      while i < |t|
        invariant i <= |t| && Valid() && pendingLen == 0
        invariant PrintAhead(start, whole, State(), Lex(t[i..], finish), useColor)
        modifies this`fp, this`colorOpen, this`lastOutputNewline, this`inThink
      {
        var cur := t[i..];
        if !Held(cur, finish) { PrintAheadStep(start, whole, State(), t, i, finish, useColor); }
        if Starts(cur, OPEN_TAG) {
          OpenFirst(cur, finish);
          inThink := true;
          i := i + |OPEN_TAG|;
          continue;
        }
        if Starts(cur, CLOSE_TAG) {
          CloseFirst(cur, finish);
          CloseThinking();
          i := i + |CLOSE_TAG|;
          continue;
        }
        ByteFirst(cur, finish);
        if !finish && cur[0] == '<' && (ProperPrefix(cur, OPEN_TAG) || ProperPrefix(cur, CLOSE_TAG)) {
          break;
        }
        WriteChar(cur[0]);
        i := i + 1;
      }
      NothingToPrint(start, whole, State(), t, i, finish, useColor);
      if i < |t| && |t| - i < PENDING_SIZE {
        Hold(t[i..]);
      }
    }

    /** The end of a generation whose thinking is formatted. */
    method FinishText()
      requires Valid()
      modifies this`fp, this`colorOpen, this`lastOutputNewline, this`inThink, this`pendingLen, pending
      ensures Valid() && pending == old(pending)
      ensures State() == if formatThinking then Finish(old(State()), useColor) else old(State())
    {
      if formatThinking {
        ProcessText("", true);
        ResetToPlain();
      }
    }
  }
}
