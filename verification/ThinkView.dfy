/** What is seen of a text with thinking tags: which characters, and which of them as thinking. */
module ThinkView {
  import opened ThinkTags

  /** At i there is thinking: the last tag in front opens it, or there is none and it was open before. */
  predicate Thought(before: bool, events: seq<Event>, i: nat)
    requires i <= |events|
  {
    || (before && forall k :: 0 <= k < i ==> !events[k].Close?)
    || exists j :: 0 <= j < i && events[j].Open? && forall k :: j < k < i ==> !events[k].Close?
  }

  lemma ThoughtNext(before: bool, events: seq<Event>, e: Event)
    ensures var all := events + [e];
      && Thought(before, all, |events|) == Thought(before, events, |events|)
      && Thought(before, all, |all|) == (e.Open? || (!e.Close? && Thought(before, events, |events|)))
  {
    var all, n := events + [e], |events|;
    assert forall k :: 0 <= k < n ==> all[k] == events[k];
    assert all[n] == e;
    if Thought(before, events, n) && !e.Close? && !(before && forall k :: 0 <= k < n ==> !events[k].Close?) {
      var j :| 0 <= j < n && events[j].Open? && forall k :: j < k < n ==> !events[k].Close?;
      assert all[j].Open? && forall k :: j < k < n + 1 ==> !all[k].Close?;
    }
  }

  lemma ThoughtNone(before: bool)
    ensures Thought(before, [], 0) == before
  {
  }

  // -------------------------------------------------------------------- the styled stream

  /** Where thinking is open in the splitter is where the last tag opened it. */
  lemma {:induction false} OpenIsThought(v: View, events: seq<Event>)
    ensures ShowAll(v, events).inThink == Thought(v.inThink, events, |events|)
    decreases |events|
  {
    hide Thought;
    if events == [] {
      ThoughtNone(v.inThink);
    } else {
      var n := |events| - 1;
      OpenIsThought(v, events[..n]);
      assert events == events[..n] + [events[n]];
      ThoughtNext(v.inThink, events[..n], events[n]);
      ShowLast(v, events[..n], events[n]);
    }
  }

  lemma ShowLast(v: View, events: seq<Event>, e: Event)
    ensures ShowAll(v, events + [e]) == Show(ShowAll(v, events), e)
  {
    ShowMore(v, events, [e]);
    assert [e][1..] == [];
  }

  /** After some of a text the next tag or character adds: nothing where it opens thinking, a plain line
      break where it closes it, and itself otherwise, in style 1 exactly where there is thinking. */
  lemma StreamNext(v: View, events: seq<Event>, e: Event)
    ensures var w, w' := ShowAll(v, events), ShowAll(v, events + [e]);
      && w'.stream == w.stream + (match e case Open => "" case Close => "\n" case Byte(c) => [c])
      && w'.styles == w.styles + (match e
           case Open => [] case Close => [0] case Byte(_) => [if Thought(v.inThink, events, |events|) then 1 else 0])
  {
    hide Thought, ShowAll;
    ShowLast(v, events, e);
    OpenIsThought(v, events);
  }

  // -------------------------------------------------------------------------- the printer

  /** The cursor is at the start of a line. */
  predicate LineStart(shown: seq<(char, bool)>, before: bool) {
    if shown == [] then before else shown[|shown| - 1].0 == '\n'
  }

  /** After some of a text the next tag or character shows: nothing where it opens thinking, a plain line
      break where it closes it, unless a line starts there, and itself otherwise, in grey exactly where
      there is thinking and colours are used. */
  lemma LooksNext(events: seq<Event>, e: Event, inThink: bool, newline: bool, useColor: bool)
    ensures var shown := Looks(events, inThink, newline, useColor);
      Looks(events + [e], inThink, newline, useColor) == shown + match e
        case Open => []
        case Close => if LineStart(shown, newline) then [] else [('\n', false)]
        case Byte(c) => [(c, useColor && Thought(inThink, events, |events|))]
  {
    hide Thought, LineStart, Looks;
    LooksLast(events, e, inThink, newline, useColor);
    FlagsAre(events, inThink, newline, useColor);
  }

  /** What the printer knows after some of a text. */
  function Flags(events: seq<Event>, inThink: bool, newline: bool): (bool, bool)
    decreases |events|
  {
    if events == [] then (inThink, newline)
    else Flags(events[1..], ThinkAfter(inThink, events[0]), NewlineAfter(newline, events[0]))
  }

  lemma {:induction false} LooksLast(events: seq<Event>, e: Event, inThink: bool, newline: bool, useColor: bool)
    ensures var (think, line), all := Flags(events, inThink, newline), events + [e];
      && Looks(all, inThink, newline, useColor)
         == Looks(events, inThink, newline, useColor) + Look(e, think, line, useColor)
      && Flags(all, inThink, newline) == (ThinkAfter(think, e), NewlineAfter(line, e))
    decreases |events|
  {
    hide Look, ThinkAfter, NewlineAfter;
    var all := events + [e];
    if events == [] {
      assert all == [e] && [e][1..] == [];
    } else {
      assert all[1..] == events[1..] + [e];
      LooksLast(events[1..], e, ThinkAfter(inThink, events[0]), NewlineAfter(newline, events[0]), useColor);
    }
  }

  lemma {:induction false} FlagsAre(events: seq<Event>, inThink: bool, newline: bool, useColor: bool)
    ensures var (think, line) := Flags(events, inThink, newline);
      && think == Thought(inThink, events, |events|)
      && line == LineStart(Looks(events, inThink, newline, useColor), newline)
    decreases |events|
  {
    hide Thought, Looks, Flags;
    if events == [] {
      ThoughtNone(inThink);
      NothingLooks(inThink, newline, useColor);
    } else {
      var n := |events| - 1;
      FlagsAre(events[..n], inThink, newline, useColor);
      assert events == events[..n] + [events[n]];
      ThoughtNext(inThink, events[..n], events[n]);
      LooksLast(events[..n], events[n], inThink, newline, useColor);
    }
  }

  lemma NothingLooks(inThink: bool, newline: bool, useColor: bool)
    ensures Looks([], inThink, newline, useColor) == [] && Flags([], inThink, newline) == (inThink, newline)
  {
  }

  // ------------------------------------------------------------------------- to the letter

  /** Only what may become a tag is held back: a start of one, and not all of it. */
  lemma HoldsStarts(s: string)
    ensures var p := Lex(s, false).pending;
      p != "" ==> (|p| < 7 && p == "<think>"[..|p|]) || (|p| < 8 && p == "</think>"[..|p|])
    ensures Lex(s, true).pending == ""
  {
  }

  function Bytes(t: string): (r: seq<Event>)
    ensures |r| == |t| && forall i :: 0 <= i < |t| ==> r[i] == Byte(t[i])
  {
    seq(|t|, i requires 0 <= i < |t| => Byte(t[i]))
  }

  function Styles(style: nat, n: nat): (r: seq<nat>)
    ensures |r| == n && forall i :: 0 <= i < n ==> r[i] == style
  {
    seq(n, _ => style)
  }

  lemma TagInFront(e: Event, events: seq<Event>)
    requires !e.Byte? && Faithful(events, "")
    ensures Spelled([e] + events) == Spelling(e) + Spelled(events) && Faithful([e] + events, "")
  {
    assert ([e] + events)[1..] == events;
  }

  lemma {:induction false} TextInFront(t: string, events: seq<Event>)
    requires '<' !in t && Faithful(events, "")
    ensures Spelled(Bytes(t) + events) == t + Spelled(events) && Faithful(Bytes(t) + events, "")
    decreases |t|
  {
    hide Spelled, Faithful;
    if t == "" {
      assert Bytes(t) + events == events && t + Spelled(events) == Spelled(events);
    } else {
      var rest := Bytes(t[1..]) + events;
      TextInFront(t[1..], events);
      assert Bytes(t) + events == [Byte(t[0])] + rest;
      CharInFront(t[0], rest);
      assert t + Spelled(events) == [t[0]] + (t[1..] + Spelled(events));
    }
  }

  lemma CharInFront(c: char, events: seq<Event>)
    requires c != '<' && Faithful(events, "")
    ensures Spelled([Byte(c)] + events) == [c] + Spelled(events) && Faithful([Byte(c)] + events, "")
  {
    var all := [Byte(c)] + events;
    assert all[1..] == events;
    StartsChar(Spelled(all) + "", OPEN_TAG, 0);
    StartsChar(Spelled(all) + "", CLOSE_TAG, 0);
  }

  lemma {:induction false} TextShown(v: View, t: string)
    ensures ShowAll(v, Bytes(t))
         == v.(stream := v.stream + t, styles := v.styles + Styles(if v.inThink then 1 else 0, |t|))
    decreases |t|
  {
    var style := if v.inThink then 1 else 0;
    if t == "" {
      assert v.stream + t == v.stream && v.styles + Styles(style, 0) == v.styles;
    } else {
      var n := |t| - 1;
      TextShown(v, t[..n]);
      assert Bytes(t) == Bytes(t[..n]) + [Byte(t[n])];
      ShowLast(v, Bytes(t[..n]), Byte(t[n]));
      assert t == t[..n] + [t[n]];
      assert Styles(style, |t|) == Styles(style, n) + [style];
    }
  }

  /** A text with one thought in it: the tags are gone, the thought is in style 1, and a line ends
      behind it. */
  lemma OneThought(a: string, b: string, c: string)
    requires '<' !in a && '<' !in b && '<' !in c
    ensures Feed(View("", [], false, ""), a + ("<think>" + (b + ("</think>" + c))), true)
         == View(a + b + "\n" + c, Styles(0, |a|) + Styles(1, |b|) + [0] + Styles(0, |c|), false, "")
  {
    hide Lex, ShowAll, Spelled, Faithful, Styles, Bytes;
    var e4 := Bytes(c);
    var e3 := [Close] + e4;
    var e2 := Bytes(b) + e3;
    var e1 := [Open] + e2;
    var events := Bytes(a) + e1;
    NothingSpelled();
    TextInFront(c, []);
    assert Bytes(c) + [] == e4 && c + "" == c;
    TagInFront(Close, e4);
    TextInFront(b, e3);
    TagInFront(Open, e2);
    TextInFront(a, e1);
    FaithfulIsLex(events);
    var text := a + ("<think>" + (b + ("</think>" + c)));
    assert "" + text == text;
    Thoughts(a, b, c);
  }

  lemma NothingSpelled()
    ensures Spelled([]) == "" && Faithful([], "")
  {
  }

  lemma Thoughts(a: string, b: string, c: string)
    ensures ShowAll(View("", [], false, ""), Bytes(a) + ([Open] + (Bytes(b) + ([Close] + Bytes(c)))))
         == View(a + b + "\n" + c, Styles(0, |a|) + Styles(1, |b|) + [0] + Styles(0, |c|), false, "")
  {
    hide ShowAll, Styles, Bytes;
    var v0 := View("", [], false, "");
    var v1 := View(a, Styles(0, |a|), false, "");
    var v2 := View(a + b, Styles(0, |a|) + Styles(1, |b|), true, "");
    var v3 := View(a + b + "\n", Styles(0, |a|) + Styles(1, |b|) + [0], false, "");
    TextShown(v0, a);
    assert "" + a == a && [] + Styles(0, |a|) == Styles(0, |a|);
    ShowMore(v0, Bytes(a), [Open] + (Bytes(b) + ([Close] + Bytes(c))));
    ShowOne(v1, Open, Bytes(b) + ([Close] + Bytes(c)));
    TextShown(v1.(inThink := true), b);
    ShowMore(v1.(inThink := true), Bytes(b), [Close] + Bytes(c));
    ShowOne(v2, Close, Bytes(c));
    TextShown(v3, c);
  }

  lemma ShowOne(v: View, e: Event, rest: seq<Event>)
    ensures ShowAll(v, [e] + rest) == ShowAll(Show(v, e), rest)
  {
    assert ([e] + rest)[1..] == rest;
  }
}
