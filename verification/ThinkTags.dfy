/** Splitting generated text at thinking tags: what the tags of a text are, and that it does not
    matter how the text arrives in pieces. */
module ThinkTags {

  const OPEN_TAG := "<think>"
  const CLOSE_TAG := "</think>"
  const PENDING_SIZE: nat := 16

  datatype Event = Open | Close | Byte(c: char)

  /** What has been recognised, and the text held back because it may become a tag. */
  datatype Split = Split(events: seq<Event>, pending: string)

  predicate Starts(s: string, tag: string) {
    |tag| <= |s| && s[..|tag|] == tag
  }

  predicate ProperPrefix(s: string, tag: string) {
    |s| < |tag| && tag[..|s|] == s
  }

  predicate Partial(s: string) {
    s != [] && s[0] == '<' && (ProperPrefix(s, OPEN_TAG) || ProperPrefix(s, CLOSE_TAG))
  }

  function Spelling(e: Event): (r: string)
    ensures 0 < |r| <= 8
  {
    match e
    case Open => OPEN_TAG
    case Close => CLOSE_TAG
    case Byte(c) => [c]
  }

  /** What a text starts with. */
  function First(s: string): (e: Event)
    requires s != []
    ensures Starts(s, Spelling(e))
  {
    if Starts(s, OPEN_TAG) then Open else if Starts(s, CLOSE_TAG) then Close else Byte(s[0])
  }

  /** More text may still make this a tag. */
  predicate Held(s: string, finish: bool) {
    s != [] && First(s).Byte? && !finish && Partial(s)
  }

  function Lex(s: string, finish: bool): (r: Split)
    ensures r.pending == [] || (!finish && Partial(r.pending))
    ensures |r.pending| < PENDING_SIZE
  {
    if s == [] then Split([], [])
    else if Held(s, finish) then Split([], s)
    else Put(First(s), Lex(s[|Spelling(First(s))|..], finish))
  }

  function Put(e: Event, rest: Split): Split {
    Split([e] + rest.events, rest.pending)
  }

  // ----------------------------------------------------- what the recognised events are

  function Spelled(events: seq<Event>): string {
    if events == [] then "" else Spelling(events[0]) + Spelled(events[1..])
  }

  /** A byte is only ever given out where no tag starts. */
  predicate Faithful(events: seq<Event>, after: string) {
    events == [] ||
    (&& Faithful(events[1..], after)
     && (events[0].Byte? ==>
           var ahead := Spelled(events) + after;
           !Starts(ahead, OPEN_TAG) && !Starts(ahead, CLOSE_TAG)))
  }

  /** Nothing is lost or added, and tags are taken wherever they start. */
  lemma {:induction false} LexIsFaithful(s: string, finish: bool)
    ensures var r := Lex(s, finish); Spelled(r.events) + r.pending == s && Faithful(r.events, r.pending)
    decreases |s|
  {
    hide Held, First, Spelling;
    if s != [] && !Held(s, finish) {
      hide Lex;
      var e := First(s);
      var n := |Spelling(e)|;
      LexStep(s, n, finish);
      LexIsFaithful(s[n..], finish);
      TagAhead(s, Spelling(e));
      NoTagAhead(s);
      FaithfulPut(e, Lex(s[n..], finish));
    }
  }

  lemma FaithfulPut(e: Event, rest: Split)
    requires Faithful(rest.events, rest.pending)
    requires var ahead := Spelling(e) + (Spelled(rest.events) + rest.pending);
      e.Byte? ==> !Starts(ahead, OPEN_TAG) && !Starts(ahead, CLOSE_TAG)
    ensures var r := Put(e, rest);
      && Spelled(r.events) + r.pending == Spelling(e) + (Spelled(rest.events) + rest.pending)
      && Faithful(r.events, r.pending)
  {
    hide Starts, Spelling;
    var r := Put(e, rest);
    assert r.events[1..] == rest.events;
    assert Spelled(r.events) + r.pending == Spelling(e) + (Spelled(rest.events) + rest.pending);
  }

  lemma TagAhead(s: string, tag: string)
    ensures Starts(s, tag) ==> s == tag + s[|tag|..]
  {
  }

  lemma NoTagAhead(s: string)
    requires s != []
    ensures First(s).Byte? ==> !Starts(s, OPEN_TAG) && !Starts(s, CLOSE_TAG)
  {
  }

  /** There is no other way to read a whole text like that. */
  lemma {:induction false} FaithfulIsLex(events: seq<Event>)
    requires Faithful(events, "")
    ensures Lex(Spelled(events), true) == Split(events, "")
    decreases |events|
  {
    if events != [] {
      FaithfulIsLex(events[1..]);
      var s, e := Spelled(events), events[0];
      assert s + "" == s;
      FirstIs(e, Spelled(events[1..]));
      assert s[|Spelling(e)|..] == Spelled(events[1..]);
      assert events == [e] + events[1..];
    }
  }

  lemma FirstIs(e: Event, tail: string)
    requires var s := Spelling(e) + tail; e.Byte? ==> !Starts(s, OPEN_TAG) && !Starts(s, CLOSE_TAG)
    ensures First(Spelling(e) + tail) == e
  {
    var s := Spelling(e) + tail;
    assert s[..|Spelling(e)|] == Spelling(e);
    StartsChar(s, OPEN_TAG, 1);
    StartsChar(s, CLOSE_TAG, 1);
  }

  lemma StartsChar(s: string, tag: string, k: nat)
    requires k < |tag|
    ensures Starts(s, tag) ==> s[k] == tag[k]
  {
    if Starts(s, tag) { assert s[..|tag|][k] == s[k]; }
  }

  // ---------------------------------------------------------------- pieces of a text

  lemma LongEnough(a: string, b: string, tag: string)
    ensures |a| >= |tag| ==> Starts(a + b, tag) == Starts(a, tag)
  {
    if |a| >= |tag| { assert (a + b)[..|tag|] == a[..|tag|]; }
  }

  lemma StartsMore(a: string, b: string, tag: string)
    ensures Starts(a, tag) ==> Starts(a + b, tag)
    ensures Starts(a + b, tag) && !Starts(a, tag) ==> ProperPrefix(a, tag)
    ensures ProperPrefix(a + b, tag) ==> ProperPrefix(a, tag)
  {
    if Starts(a, tag) { assert (a + b)[..|tag|] == a[..|tag|]; }
    if Starts(a + b, tag) && !Starts(a, tag) {
      LongEnough(a, b, tag);
      assert (a + b)[..|tag|][..|a|] == a;
    }
    if ProperPrefix(a + b, tag) { assert tag[..|a + b|][..|a|] == a; }
  }

  /** More text does not change what is recognised first, unless that was held back. */
  lemma FirstMore(a: string, b: string, finish: bool)
    requires a != [] && !Held(a, false)
    ensures First(a + b) == First(a) && !Held(a + b, finish)
  {
    StartsMore(a, b, OPEN_TAG);
    StartsMore(a, b, CLOSE_TAG);
    FirstTag(a);
  }

  lemma FirstTag(s: string)
    requires s != []
    ensures ProperPrefix(s, OPEN_TAG) || ProperPrefix(s, CLOSE_TAG) ==> s[0] == '<'
  {
    if ProperPrefix(s, OPEN_TAG) { assert OPEN_TAG[..|s|][0] == '<'; }
    if ProperPrefix(s, CLOSE_TAG) { assert CLOSE_TAG[..|s|][0] == '<'; }
  }

  lemma LexStep(s: string, n: nat, finish: bool)
    requires s != [] && !Held(s, finish) && n == |Spelling(First(s))|
    ensures n <= |s| && Lex(s, finish) == Put(First(s), Lex(s[n..], finish))
  {
  }

  lemma PutPieces(e: Event, first: Split, second: Split)
    ensures Put(e, Split(first.events + second.events, second.pending))
         == Split(Put(e, first).events + second.events, second.pending)
    ensures Put(e, first).pending == first.pending
  {
    assert [e] + (first.events + second.events) == [e] + first.events + second.events;
  }

  /** Reading a text in two pieces, with what was held back put in front of the second, gives what
      reading it in one gives. */
  lemma {:induction false} LexInPieces(a: string, b: string, finish: bool)
    ensures var first := Lex(a, false);
      var second := Lex(first.pending + b, finish);
      Lex(a + b, finish) == Split(first.events + second.events, second.pending)
    decreases |a|
  {
    hide Held, First, Spelling;
    if a == [] {
      assert a + b == b && "" + b == b;
    } else if !Held(a, false) {
      hide Lex;
      FirstMore(a, b, finish);
      var n := |Spelling(First(a))|;
      LexStep(a, n, false);
      LexStep(a + b, n, finish);
      assert (a + b)[n..] == a[n..] + b;
      LexInPieces(a[n..], b, finish);
      PutPieces(First(a), Lex(a[n..], false), Lex(Lex(a[n..], false).pending + b, finish));
    }
  }

  // ----------------------------------------------------------------- the styled stream

  /** The text shown, a style for each character of it (1: thinking), and the splitter's state. */
  datatype View = View(stream: string, styles: seq<nat>, inThink: bool, pending: string)

  function Show(v: View, e: Event): View {
    match e
    case Open => v.(inThink := true)
    case Close => v.(inThink := false, stream := v.stream + "\n", styles := v.styles + [0])
    case Byte(c) => v.(stream := v.stream + [c], styles := v.styles + [if v.inThink then 1 else 0])
  }

  function ShowAll(v: View, events: seq<Event>): (w: View)
    ensures w.pending == v.pending
    ensures |v.stream| == |v.styles| ==> |w.stream| == |w.styles|
    decreases |events|
  {
    if events == [] then v else ShowAll(Show(v, events[0]), events[1..])
  }

  function Feed(v: View, text: string, finish: bool): View {
    var r := Lex(v.pending + text, finish);
    ShowAll(v.(pending := ""), r.events).(pending := r.pending)
  }

  lemma {:induction false} ShowMore(v: View, a: seq<Event>, b: seq<Event>)
    ensures ShowAll(v, a + b) == ShowAll(ShowAll(v, a), b)
    decreases |a|
  {
    if a == [] {
      assert a + b == b;
    } else {
      assert (a + b)[1..] == a[1..] + b;
      ShowMore(Show(v, a[0]), a[1..], b);
    }
  }

  lemma FeedInPieces(v: View, a: string, b: string, finish: bool)
    ensures Feed(Feed(v, a, false), b, finish) == Feed(v, a + b, finish)
  {
    hide Lex, ShowAll;
    var first := Lex(v.pending + a, false);
    LexInPieces(v.pending + a, b, finish);
    assert v.pending + a + b == v.pending + (a + b);
    var second := Lex(first.pending + b, finish);
    ShowMore(v.(pending := ""), first.events, second.events);
    assert ShowAll(v.(pending := ""), first.events).pending == "";
  }

  function Concat(chunks: seq<string>): string {
    if chunks == [] then "" else chunks[0] + Concat(chunks[1..])
  }

  function FeedChunks(v: View, chunks: seq<string>): View
    decreases |chunks|
  {
    if chunks == [] then v else FeedChunks(Feed(v, chunks[0], false), chunks[1..])
  }

  /** However a text is cut into pieces, feeding the pieces and then finishing shows what feeding
      the whole text does. */
  lemma {:induction false} ChunksDoNotMatter(v: View, chunks: seq<string>)
    ensures Feed(FeedChunks(v, chunks), "", true) == Feed(v, Concat(chunks), true)
    decreases |chunks|
  {
    hide Feed;
    if chunks != [] {
      var w := Feed(v, chunks[0], false);
      ChunksDoNotMatter(w, chunks[1..]);
      FeedInPieces(v, chunks[0], Concat(chunks[1..]), true);
    }
  }

  // -------------------------------------------------------------- the coloured printer

  /** What is sent to the terminal. */
  datatype Output = Plain(c: char) | Grey | Reset

  datatype Printer = Printer(out: seq<Output>, inThink: bool, colorOpen: bool, lastNewline: bool, pending: string)

  function ResetColor(p: Printer, useColor: bool): Printer {
    if useColor && p.colorOpen then p.(out := p.out + [Reset], colorOpen := false) else p
  }

  function SetGrey(p: Printer, useColor: bool): Printer {
    if useColor && !p.colorOpen then p.(out := p.out + [Grey], colorOpen := true) else p
  }

  function Print(p: Printer, e: Event, useColor: bool): Printer {
    match e
    case Open => p.(inThink := true)
    case Close =>
      var q := ResetColor(p.(inThink := false), useColor);
      if q.lastNewline then q else q.(out := q.out + [Plain('\n')], lastNewline := true)
    case Byte(c) =>
      var q := if p.inThink then SetGrey(p, useColor) else p;
      q.(out := q.out + [Plain(c)], lastNewline := c == '\n')
  }

  function PrintAll(p: Printer, events: seq<Event>, useColor: bool): (q: Printer)
    ensures q.pending == p.pending
    decreases |events|
  {
    if events == [] then p else PrintAll(Print(p, events[0], useColor), events[1..], useColor)
  }

  function Process(p: Printer, text: string, finish: bool, useColor: bool): Printer {
    var r := Lex(p.pending + text, finish);
    PrintAll(p.(pending := ""), r.events, useColor).(pending := r.pending)
  }

  lemma {:induction false} PrintMore(p: Printer, a: seq<Event>, b: seq<Event>, useColor: bool)
    ensures PrintAll(p, a + b, useColor) == PrintAll(PrintAll(p, a, useColor), b, useColor)
    decreases |a|
  {
    if a == [] {
      assert a + b == b;
    } else {
      assert (a + b)[1..] == a[1..] + b;
      PrintMore(Print(p, a[0], useColor), a[1..], b, useColor);
    }
  }

  lemma ProcessInPieces(p: Printer, a: string, b: string, finish: bool, useColor: bool)
    ensures Process(Process(p, a, false, useColor), b, finish, useColor) == Process(p, a + b, finish, useColor)
  {
    hide Lex, PrintAll;
    var first := Lex(p.pending + a, false);
    LexInPieces(p.pending + a, b, finish);
    assert p.pending + a + b == p.pending + (a + b);
    var second := Lex(first.pending + b, finish);
    PrintMore(p.(pending := ""), first.events, second.events, useColor);
    assert PrintAll(p.(pending := ""), first.events, useColor).pending == "";
  }

  /** Whether a terminal that was sent this is painting grey. */
  function Painting(out: seq<Output>): bool {
    if out == [] then false else PaintingAfter(Painting(out[..|out| - 1]), out[|out| - 1])
  }

  function PaintingAfter(on: bool, o: Output): bool {
    o.Grey? || (on && !o.Reset?)
  }

  /** The characters a terminal shows, each with whether it is grey. */
  function Screen(out: seq<Output>): seq<(char, bool)> {
    if out == [] then []
    else Screen(out[..|out| - 1]) + Shown(Painting(out[..|out| - 1]), out[|out| - 1])
  }

  function Shown(on: bool, o: Output): seq<(char, bool)> {
    if o.Plain? then [(o.c, on)] else []
  }

  /** What is to be seen of recognised events: thinking in grey, and a line ended where it closes. */
  function Looks(events: seq<Event>, inThink: bool, newline: bool, useColor: bool): seq<(char, bool)> {
    if events == [] then []
    else
      var e := events[0];
      Look(e, inThink, newline, useColor)
      + Looks(events[1..], ThinkAfter(inThink, e), NewlineAfter(newline, e), useColor)
  }

  function Look(e: Event, inThink: bool, newline: bool, useColor: bool): seq<(char, bool)> {
    match e
    case Open => []
    case Close => if newline then [] else [('\n', false)]
    case Byte(c) => [(c, inThink && useColor)]
  }

  predicate ThinkAfter(inThink: bool, e: Event) {
    e.Open? || (e.Byte? && inThink)
  }

  predicate NewlineAfter(newline: bool, e: Event) {
    e.Close? || (e.Byte? && e.c == '\n') || (e.Open? && newline)
  }

  /** The printer knows what colour the terminal is in, and leaves grey with the thinking. */
  predicate InStep(p: Printer, useColor: bool) {
    Painting(p.out) == p.colorOpen && (p.colorOpen ==> p.inThink && useColor)
  }

  lemma SentLast(out: seq<Output>, o: Output)
    ensures Painting(out + [o]) == PaintingAfter(Painting(out), o)
    ensures Screen(out + [o]) == Screen(out) + Shown(Painting(out), o)
  {
    assert (out + [o])[..|out|] == out;
  }

  lemma PrintShows(p: Printer, e: Event, useColor: bool)
    requires InStep(p, useColor)
    ensures InStep(Print(p, e, useColor), useColor)
    ensures Screen(Print(p, e, useColor).out) == Screen(p.out) + Look(e, p.inThink, p.lastNewline, useColor)
    ensures Print(p, e, useColor).inThink == ThinkAfter(p.inThink, e)
    ensures Print(p, e, useColor).lastNewline == NewlineAfter(p.lastNewline, e)
  {
    hide Painting, Screen;
    match e
    case Open =>
    case Close =>
      SentLast(p.out, Reset);
      var q := ResetColor(p.(inThink := false), useColor);
      SentLast(q.out, Plain('\n'));
    case Byte(c) =>
      SentLast(p.out, Grey);
      var q := if p.inThink then SetGrey(p, useColor) else p;
      SentLast(q.out, Plain(c));
  }

  /** The terminal shows the events as they are to be seen. */
  lemma {:induction false} PrintAllShows(p: Printer, events: seq<Event>, useColor: bool)
    requires InStep(p, useColor)
    ensures var q := PrintAll(p, events, useColor);
      InStep(q, useColor) && Screen(q.out) == Screen(p.out) + Looks(events, p.inThink, p.lastNewline, useColor)
    decreases |events|
  {
    hide InStep, Screen, Print, Look, ThinkAfter, NewlineAfter;
    if events != [] {
      var q := Print(p, events[0], useColor);
      PrintShows(p, events[0], useColor);
      PrintAllShows(q, events[1..], useColor);
    }
  }

  function Finish(p: Printer, useColor: bool): Printer {
    ResetColor(Process(p, "", true, useColor), useColor)
  }

  function ProcessChunks(p: Printer, chunks: seq<string>, useColor: bool): Printer
    decreases |chunks|
  {
    if chunks == [] then p else ProcessChunks(Process(p, chunks[0], false, useColor), chunks[1..], useColor)
  }

  lemma {:induction false} PrintedChunks(p: Printer, chunks: seq<string>, useColor: bool)
    ensures Process(ProcessChunks(p, chunks, useColor), "", true, useColor)
         == Process(p, Concat(chunks), true, useColor)
    decreases |chunks|
  {
    hide Process;
    if chunks != [] {
      PrintedChunks(Process(p, chunks[0], false, useColor), chunks[1..], useColor);
      ProcessInPieces(p, chunks[0], Concat(chunks[1..]), true, useColor);
    }
  }

  /** A generation printed in any pieces and finished shows the thinking in grey and the rest plain,
      and leaves the terminal plain. */
  lemma GenerationShows(chunks: seq<string>, inThink: bool, newline: bool, useColor: bool)
    ensures var q := Finish(ProcessChunks(Printer([], inThink, false, newline, ""), chunks, useColor), useColor);
      && Screen(q.out) == Looks(Lex(Concat(chunks), true).events, inThink, newline, useColor)
      && !Painting(q.out) && q.pending == ""
  {
    hide Lex, Looks, Process, Screen, Painting;
    var start := Printer([], inThink, false, newline, "");
    PrintedChunks(start, chunks, useColor);
    EmptyScreen();
    WholeShows(start, Concat(chunks), useColor);
    SentLast(Process(start, Concat(chunks), true, useColor).out, Reset);
  }

  lemma EmptyScreen()
    ensures Screen([]) == [] && !Painting([])
  {
  }

  lemma WholeShows(p: Printer, text: string, useColor: bool)
    requires InStep(p, useColor) && p.pending == ""
    ensures var q := Process(p, text, true, useColor);
      && InStep(q, useColor) && q.pending == ""
      && Screen(q.out) == Screen(p.out) + Looks(Lex(text, true).events, p.inThink, p.lastNewline, useColor)
  {
    hide Lex, Looks, PrintAll, Screen, Painting;
    assert "" + text == text;
    PrintAllShows(p, Lex(text, true).events, useColor);
  }
}
