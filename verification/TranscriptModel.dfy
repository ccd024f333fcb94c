/** The interactive transcript: what it is for the modes and the dialogue at hand, and the splices that
    keep it so. */
module TranscriptModel {

  datatype Mode = ThinkNone | Low | Medium | High | XHigh | Max

  const MAX_MIN_CONTEXT: int := 98304

  /** Max thinking needs a large context. */
  function ModeForContext(mode: Mode, ctx: int): Mode {
    if mode == Max && ctx < MAX_MIN_CONTEXT then High else mode
  }

  /** What the engine renders, for the system text and the leading messages of one run. */
  datatype Engine = Engine(
    begin: seq<int>,
    hasTemplate: bool,
    maxPrefix: seq<int>,
    system: Mode -> seq<int>,
    leading: seq<int>,
    systemThinking: bool -> bool,
    control: (string, bool) -> bool,
    user: string -> seq<int>,
    vision: (string, int) -> (seq<int>, nat),
    assistant: Mode -> seq<int>,
    suffix: seq<int>)

  datatype Image = Image(tokenStart: int, embedding: int)

  /** The fields of the chat. */
  datatype Chat = Chat(
    transcript: seq<int>, ctxSize: int, maxPrefixTokens: int, systemPos: int, systemTokens: int,
    systemMode: Mode, systemInitialized: bool, enabledMode: Mode, thinking: bool, images: seq<Image>,
    cfgMode: Mode)

  // --------------------------------------------------------------------------- splices

  function Inserted(s: seq<int>, pos: int, src: seq<int>): (r: seq<int>)
    ensures |r| == |s| + |src|
  {
    var p := if pos < 0 then 0 else if pos > |s| then |s| else pos;
    s[..p] + src + s[p..]
  }

  function Removed(s: seq<int>, pos: int, n: int): seq<int> {
    if n <= 0 || pos < 0 || pos >= |s| then s
    else s[..pos] + s[(if pos + n > |s| then |s| else pos + n)..]
  }

  function Shifted(images: seq<Image>, delta: int): (r: seq<Image>)
    ensures |r| == |images|
  {
    seq(|images|, i requires 0 <= i < |images| => images[i].(tokenStart := images[i].tokenStart + delta))
  }

  function ThinkMode(c: Chat): Mode {
    if !c.thinking then ThinkNone else ModeForContext(c.enabledMode, c.ctxSize)
  }

  function ApplyMaxPrefix(en: Engine, c: Chat, enable: bool): Chat {
    var n := |en.maxPrefix|;
    if enable && !en.hasTemplate && c.maxPrefixTokens == 0 then
      c.(transcript := Inserted(c.transcript, 1, en.maxPrefix), maxPrefixTokens := n,
         systemPos := c.systemPos + n, images := Shifted(c.images, n))
    else if (!enable || en.hasTemplate) && c.maxPrefixTokens > 0 then
      c.(transcript := Removed(c.transcript, 1, c.maxPrefixTokens), maxPrefixTokens := 0,
         systemPos := c.systemPos - c.maxPrefixTokens, images := Shifted(c.images, -c.maxPrefixTokens))
    else c
  }

  function SyncSystem(en: Engine, c: Chat): Chat {
    var mode := if en.hasTemplate then ThinkMode(c) else ThinkNone;
    if c.systemInitialized && c.systemMode == mode then c
    else
      var block := en.system(mode);
      var without := if c.systemTokens > 0 then Removed(c.transcript, c.systemPos, c.systemTokens) else c.transcript;
      c.(transcript := if block != [] then Inserted(without, c.systemPos, block) else without,
         images := Shifted(c.images, |block| - c.systemTokens),
         systemTokens := |block|, systemMode := mode, systemInitialized := true)
  }

  function Synced(en: Engine, c: Chat): Chat {
    SyncSystem(en, ApplyMaxPrefix(en, c, ThinkMode(c) == Max))
  }

  // --------------------------------------------------------------------- what it should be

  /** A placed image: where its tokens start in the dialogue. */
  datatype Placed = Placed(offset: int, embedding: int)

  /** All that the user has decided and said. */
  datatype Talk = Talk(
    ctxSize: int, enabledMode: Mode, thinking: bool, cfgMode: Mode, dialogue: seq<int>, placed: seq<Placed>)

  function TalkMode(t: Talk): Mode {
    if !t.thinking then ThinkNone else ModeForContext(t.enabledMode, t.ctxSize)
  }

  function MaxPart(en: Engine, t: Talk): seq<int> {
    if TalkMode(t) == Max && !en.hasTemplate then en.maxPrefix else []
  }

  function SystemMode(en: Engine, t: Talk): Mode {
    if en.hasTemplate then TalkMode(t) else ThinkNone
  }

  /** What is in front of the dialogue. */
  function Front(en: Engine, t: Talk): seq<int>
    requires |en.begin| >= 1
  {
    en.begin[..1] + MaxPart(en, t) + en.begin[1..] + en.system(SystemMode(en, t))
  }

  function PlacedAt(placed: seq<Placed>, start: int): (r: seq<Image>)
    ensures |r| == |placed|
  {
    seq(|placed|, i requires 0 <= i < |placed| => Image(start + placed[i].offset, placed[i].embedding))
  }

  /** The chat rendered from scratch. */
  function Rendered(en: Engine, t: Talk): Chat
    requires |en.begin| >= 1
  {
    Chat(Front(en, t) + t.dialogue, t.ctxSize, |MaxPart(en, t)|, |en.begin| + |MaxPart(en, t)|,
         |en.system(SystemMode(en, t))|, SystemMode(en, t), true, t.enabledMode, t.thinking,
         PlacedAt(t.placed, |Front(en, t)|), t.cfgMode)
  }

  // ------------------------------------------------------- splicing is rendering again

  lemma ShiftPlaced(placed: seq<Placed>, start: int, delta: int)
    ensures Shifted(PlacedAt(placed, start), delta) == PlacedAt(placed, start + delta)
  {
  }

  /** The decisions of one talk with the transcript of another of the same dialogue. */
  ghost predicate SameDialogue(s: Talk, t: Talk) {
    s.dialogue == t.dialogue && s.placed == t.placed
  }

  function Decided(c: Chat, t: Talk): Chat {
    c.(ctxSize := t.ctxSize, enabledMode := t.enabledMode, thinking := t.thinking, cfgMode := t.cfgMode)
  }

  /** After the max prefix has been seen to, and before the system block has. */
  function HalfWay(en: Engine, s: Talk, t: Talk): Chat
    requires |en.begin| >= 1
  {
    var block := en.system(SystemMode(en, s));
    var front := en.begin[..1] + MaxPart(en, t) + en.begin[1..];
    Chat(front + block + s.dialogue, t.ctxSize, |MaxPart(en, t)|, |front|, |block|, SystemMode(en, s), true,
         t.enabledMode, t.thinking, PlacedAt(s.placed, |front| + |block|), t.cfgMode)
  }

  lemma InsertAt(a: seq<int>, x: seq<int>, b: seq<int>)
    ensures Inserted(a + b, |a|, x) == a + x + b
  {
  }

  lemma RemoveAt(a: seq<int>, x: seq<int>, b: seq<int>)
    requires x != []
    ensures Removed(a + x + b, |a|, |x|) == a + b
  {
    assert (a + x + b)[|a| + |x|..] == b;
  }

  lemma MaxPrefixApplied(en: Engine, s: Talk, t: Talk)
    requires |en.begin| >= 1
    ensures var c := Decided(Rendered(en, s), t);
      ApplyMaxPrefix(en, c, ThinkMode(c) == Max) == HalfWay(en, s, t)
  {
    hide Inserted, Removed;
    var c := Decided(Rendered(en, s), t);
    var first, rest := en.begin[..1], en.begin[1..] + en.system(SystemMode(en, s)) + s.dialogue;
    var x, y := MaxPart(en, s), MaxPart(en, t);
    assert c.transcript == first + x + rest;
    assert HalfWay(en, s, t).transcript == first + y + rest;
    ShiftPlaced(s.placed, |Front(en, s)|, |y| - |x|);
    if x == [] {
      assert first + x + rest == first + rest;
      InsertAt(first, en.maxPrefix, rest);
    } else {
      RemoveAt(first, x, rest);
      assert first + [] + rest == first + rest;
    }
  }

  lemma SystemSynced(en: Engine, s: Talk, t: Talk)
    requires |en.begin| >= 1 && SameDialogue(s, t)
    ensures SyncSystem(en, HalfWay(en, s, t)) == Rendered(en, t)
  {
    hide Inserted, Removed;
    var c := HalfWay(en, s, t);
    var front := en.begin[..1] + MaxPart(en, t) + en.begin[1..];
    var x, y := en.system(SystemMode(en, s)), en.system(SystemMode(en, t));
    assert |front| == |en.begin| + |MaxPart(en, t)|;
    if SystemMode(en, s) != SystemMode(en, t) {
      if x != [] { RemoveAt(front, x, s.dialogue); }
      else { assert front + x + s.dialogue == front + s.dialogue; }
      InsertAt(front, y, s.dialogue);
      assert y == [] ==> front + y + s.dialogue == front + s.dialogue;
      ShiftPlaced(s.placed, |front| + |x|, |y| - |x|);
    }
  }

  /** Whatever was decided since, applying the prefix and the system block in place gives the chat that
      rendering the same dialogue from scratch gives. */
  lemma SplicingIsRendering(en: Engine, s: Talk, t: Talk)
    requires |en.begin| >= 1 && SameDialogue(s, t)
    ensures Synced(en, Decided(Rendered(en, s), t)) == Rendered(en, t)
  {
    MaxPrefixApplied(en, s, t);
    SystemSynced(en, s, t);
  }

  // -------------------------------------------------------------------------- commands

  /** An image that cannot be added leaves a part of its message behind. */
  datatype ImageInput = NoImage | BadImage(partial: seq<int>) | GoodImage(embedding: int)

  /** How a turn ends: its prompt is not processed, the user stops it before its first token, the
      decoder fails after some tokens, or it is done. */
  datatype TurnEnd = SyncFails | Interrupted | DecodeFails(generated: seq<int>) | Done(generated: seq<int>)

  datatype Command =
    | SetThink(mode: Mode)
    | NoThink
    | SetContext(ctxSize: int)
    | Clear
    | Turn(text: string, image: ImageInput, end: TurnEnd)

  /** A chat before its prefix and system block. */
  function Begun(en: Engine, t: Talk, c: Chat): Chat {
    Decided(Chat(en.begin, 0, 0, |en.begin|, 0, c.systemMode, false, c.enabledMode, false, [], c.cfgMode), t)
  }

  lemma BegunIsRendered(en: Engine, t: Talk, c: Chat)
    requires |en.begin| >= 1 && t.dialogue == [] && t.placed == []
    ensures Synced(en, Begun(en, t, c)) == Rendered(en, t)
  {
    hide Inserted;
    var b := Begun(en, t, c);
    var first, rest := en.begin[..1], en.begin[1..];
    var front := first + MaxPart(en, t) + rest;
    assert en.begin == first + rest;
    InsertAt(first, en.maxPrefix, rest);
    assert first + [] + rest == en.begin;
    InsertAt(front, en.system(SystemMode(en, t)), []);
    assert front + [] == front;
    assert ApplyMaxPrefix(en, b, ThinkMode(b) == Max).transcript == front;
  }

  function EnabledFor(cfgMode: Mode): Mode {
    if cfgMode == ThinkNone then High else cfgMode
  }

  /** A talk that begins. */
  function Fresh(en: Engine, ctxSize: int, cfgMode: Mode): Talk {
    Talk(ctxSize, EnabledFor(cfgMode), en.systemThinking(cfgMode != ThinkNone), cfgMode, en.leading, [])
  }

  /** The user's side of a turn and the place of its image. */
  function Said(en: Engine, t: Talk, text: string, image: ImageInput): Talk {
    match image
    case GoodImage(embedding) =>
      var (tokens, offset) := en.vision(text, embedding);
      t.(dialogue := t.dialogue + tokens, placed := t.placed + [Placed(|t.dialogue| + offset, embedding)])
    case _ => t.(dialogue := t.dialogue + en.user(text))
  }

  /** With the start of the answer. */
  function Asked(en: Engine, t: Talk, text: string, image: ImageInput): Talk {
    var said := Said(en, t, text, image);
    said.(dialogue := said.dialogue + en.assistant(TalkMode(t)))
  }

  function Step(en: Engine, t: Talk, cmd: Command): Talk {
    match cmd
    case SetThink(mode) => t.(cfgMode := mode, enabledMode := mode, thinking := true)
    case NoThink => t.(cfgMode := ThinkNone, enabledMode := High, thinking := false)
    case SetContext(n) => t.(ctxSize := n)
    case Clear => Fresh(en, t.ctxSize, t.cfgMode)
    case Turn(text, image, end) =>
      var u := t.(thinking := en.control(text, t.thinking));
      if image.BadImage? then u
      else
        var asked := Asked(en, u, text, image);
        match end
        case DecodeFails(generated) => asked.(dialogue := asked.dialogue + generated)
        case Done(generated) => asked.(dialogue := asked.dialogue + generated + en.suffix)
        case _ => t
  }

  // ------------------------------------------------------------- what a command leaves

  /** Setting a mode makes it the one in force, but max needs a context of 98304 and is high below. */
  lemma SetThinkSets(en: Engine, t: Talk, mode: Mode)
    requires mode != ThinkNone
    ensures var u := Step(en, t, SetThink(mode));
      && TalkMode(u) == (if mode == Max && t.ctxSize < 98304 then High else mode)
      && u.cfgMode == mode && u.ctxSize == t.ctxSize && SameDialogue(u, t)
  {
  }

  /** Turning thinking off leaves none, and a text that turns it on again gets high. */
  lemma NoThinkStops(en: Engine, t: Talk, text: string, generated: seq<int>)
    ensures var u := Step(en, t, NoThink);
      && TalkMode(u) == ThinkNone && u.cfgMode == ThinkNone && u.ctxSize == t.ctxSize && SameDialogue(u, t)
      && TalkMode(Step(en, u, Turn(text, NoImage, Done(generated))))
         == if en.control(text, false) then High else ThinkNone
  {
  }

  /** Another context changes what max comes to, and nothing else. */
  lemma SetContextKeeps(en: Engine, t: Talk, n: int)
    ensures var u := Step(en, t, SetContext(n));
      && u.ctxSize == n && SameDialogue(u, t) && u.cfgMode == t.cfgMode && u.thinking == t.thinking
      && u.enabledMode == t.enabledMode
      && (TalkMode(t) == ThinkNone ==> TalkMode(u) == ThinkNone)
      && (t.thinking ==> TalkMode(u) == if t.enabledMode != Max then t.enabledMode else if n < 98304 then High else Max)
  {
  }

  /** Clearing begins with the leading messages alone, in the mode that was set last, high if none was
      or max does not fit the context, as far as the system text lets it think. */
  lemma ClearBegins(en: Engine, t: Talk)
    ensures var u := Step(en, t, Clear);
      && u.dialogue == en.leading && u.placed == [] && u.ctxSize == t.ctxSize && u.cfgMode == t.cfgMode
      && TalkMode(u) ==
           if !en.systemThinking(t.cfgMode != ThinkNone) then ThinkNone
           else if t.cfgMode == ThinkNone || (t.cfgMode == Max && t.ctxSize < 98304) then High
           else t.cfgMode
  {
  }

  /** A turn adds what the user says, the start of an answer in the mode that this leaves, what is
      generated and, if it is done, the suffix. An image is where its message has it. Of a turn that
      fails before its first token nothing is left. */
  lemma TurnAdds(en: Engine, t: Talk, text: string, image: ImageInput, generated: seq<int>)
    requires !image.BadImage?
    ensures var on := en.control(text, t.thinking);
      var mode := if !on then ThinkNone else if t.enabledMode == Max && t.ctxSize < 98304 then High else t.enabledMode;
      var said := if image.GoodImage? then en.vision(text, image.embedding).0 else en.user(text);
      var done, failed := Step(en, t, Turn(text, image, Done(generated))),
                          Step(en, t, Turn(text, image, DecodeFails(generated)));
      && done.dialogue == t.dialogue + said + en.assistant(mode) + generated + en.suffix
      && failed == done.(dialogue := t.dialogue + said + en.assistant(mode) + generated)
      && done.placed == t.placed + (if image.GoodImage? then
           [Placed(|t.dialogue| + en.vision(text, image.embedding).1, image.embedding)] else [])
      && done.thinking == on && TalkMode(done) == mode && done.enabledMode == t.enabledMode
      && done.ctxSize == t.ctxSize && done.cfgMode == t.cfgMode
    ensures Step(en, t, Turn(text, image, SyncFails)) == t == Step(en, t, Turn(text, image, Interrupted))
  {
  }

  /** What is in front of the dialogue: the first token, the prefix of max thinking unless a template
      has its own, what else begins a chat, and the system block, for the mode only under a template. */
  lemma RenderedIs(en: Engine, t: Talk, i: nat)
    requires |en.begin| >= 1
    ensures var c, mode := Rendered(en, t), TalkMode(t);
      && (en.hasTemplate ==> c.transcript == en.begin + en.system(mode) + t.dialogue)
      && (!en.hasTemplate && mode != Max ==> c.transcript == en.begin + en.system(ThinkNone) + t.dialogue)
      && (!en.hasTemplate && mode == Max ==>
            c.transcript == [en.begin[0]] + en.maxPrefix + en.begin[1..] + en.system(ThinkNone) + t.dialogue)
      && |c.images| == |t.placed|
      && (i < |t.placed| ==>
            && c.images[i].embedding == t.placed[i].embedding
            && c.images[i].tokenStart == |c.transcript| - |t.dialogue| + t.placed[i].offset)
      && ThinkMode(c) == mode
  {
    assert en.begin[..1] == [en.begin[0]] && en.begin == en.begin[..1] + [] + en.begin[1..];
  }

  /** The commands of the program set a mode that thinks. */
  predicate Proper(cmd: Command) {
    (cmd.SetThink? ==> cmd.mode != ThinkNone)
  }

  function After(en: Engine, t: Talk, cmds: seq<Command>): Talk
    decreases |cmds|
  {
    if cmds == [] then t else After(en, Step(en, t, cmds[0]), cmds[1..])
  }

  ghost predicate NoClear(cmds: seq<Command>) {
    forall c :: c in cmds ==> !c.Clear?
  }

  /** A turn that is rolled back leaves no trace; any other command but a clear only adds. */
  lemma StepGrows(en: Engine, t: Talk, cmd: Command)
    requires !cmd.Clear?
    ensures t.dialogue <= Step(en, t, cmd).dialogue && t.placed <= Step(en, t, cmd).placed
  {
  }

  lemma {:induction false} AfterGrows(en: Engine, t: Talk, cmds: seq<Command>)
    requires NoClear(cmds)
    ensures t.dialogue <= After(en, t, cmds).dialogue && t.placed <= After(en, t, cmds).placed
    decreases |cmds|
  {
    if cmds != [] {
      hide Step;
      assert cmds[0] in cmds;
      StepGrows(en, t, cmds[0]);
      AfterGrows(en, Step(en, t, cmds[0]), cmds[1..]);
    }
  }

  /** An image that is there stays the same image with the same tokens, wherever its front moves to. */
  lemma ImagesStay(en: Engine, t: Talk, cmds: seq<Command>, i: nat, n: nat)
    requires |en.begin| >= 1 && NoClear(cmds) && i < |t.placed|
    requires 0 <= t.placed[i].offset && t.placed[i].offset + n <= |t.dialogue|
    ensures var c, d := Rendered(en, t), Rendered(en, After(en, t, cmds));
      && |c.images| <= |d.images| && d.images[i].embedding == c.images[i].embedding
      && 0 <= c.images[i].tokenStart && c.images[i].tokenStart + n <= |c.transcript|
      && 0 <= d.images[i].tokenStart && d.images[i].tokenStart + n <= |d.transcript|
      && d.transcript[d.images[i].tokenStart..d.images[i].tokenStart + n]
         == c.transcript[c.images[i].tokenStart..c.images[i].tokenStart + n]
  {
    hide After, Front;
    AfterGrows(en, t, cmds);
    var u := After(en, t, cmds);
    ImageTokens(Front(en, t), t.dialogue, t.placed[i].offset, n);
    ImageTokens(Front(en, u), u.dialogue, t.placed[i].offset, n);
    var o := t.placed[i].offset;
    assert u.dialogue[o..o + n] == t.dialogue[o..o + n];
  }

  lemma ImageTokens(front: seq<int>, dialogue: seq<int>, offset: nat, n: nat)
    requires offset + n <= |dialogue|
    ensures (front + dialogue)[|front| + offset..|front| + offset + n] == dialogue[offset..offset + n]
  {
  }

  /** A turn whose image cannot be added is not undone: it keeps what its text said about thinking, so
      that it leaves the talk as it was exactly when the text said nothing new. */
  lemma BadImageKeepsThinking(en: Engine, t: Talk, text: string, partial: seq<int>, end: TurnEnd)
    ensures Step(en, t, Turn(text, BadImage(partial), end)) == t <==> en.control(text, t.thinking) == t.thinking
    ensures TalkMode(Step(en, t, Turn(text, BadImage(partial), end)))
         == if en.control(text, t.thinking) then ModeForContext(t.enabledMode, t.ctxSize) else ThinkNone
  {
  }

  /** For one: a text that turns thinking off, under an image that cannot be added, leaves it off. */
  lemma ThinkingStaysOff(en: Engine, t: Talk, text: string, partial: seq<int>, end: TurnEnd)
    requires t.thinking && t.enabledMode != ThinkNone && !en.control(text, true)
    ensures var u := Step(en, t, Turn(text, BadImage(partial), end));
      u != t && u.dialogue == t.dialogue && TalkMode(u) == ThinkNone != TalkMode(t)
  {
    BadImageKeepsThinking(en, t, text, partial, end);
  }

  /** When a turn that fails leaves the talk as it was: always where its prompt is not processed or it
      is stopped before its first token, and never where decoding fails and anything was said. */
  lemma FailedTurnLeaves(en: Engine, t: Talk, text: string, image: ImageInput, end: TurnEnd)
    requires image.BadImage? || !end.Done?
    ensures Step(en, t, Turn(text, image, end)) == t <==>
      if image.BadImage? then en.control(text, t.thinking) == t.thinking
      else end.DecodeFails? ==>
        && image.NoImage? && en.control(text, t.thinking) == t.thinking
        && en.user(text) == [] && en.assistant(TalkMode(t)) == [] && end.generated == []
  {
    if !image.BadImage? && end.DecodeFails? {
      var u := t.(thinking := en.control(text, t.thinking));
      var said, asked := Said(en, u, text, image), Asked(en, u, text, image);
      var after := Step(en, t, Turn(text, image, end));
      assert |after.dialogue| == |said.dialogue| + |en.assistant(TalkMode(said))| + |end.generated|;
      if image.GoodImage? {
        assert |after.placed| == |t.placed| + 1;
      } else {
        assert |said.dialogue| == |t.dialogue| + |en.user(text)|;
        assert TalkMode(said) == TalkMode(u);
      }
    }
  }

  // ------------------------------------------------------------------------ the splices

  /** An insertion in front of the tokens or behind them goes to their start or end. */
  lemma InsertedIs(s: seq<int>, pos: int, src: seq<int>)
    ensures pos <= 0 ==> Inserted(s, pos, src) == src + s
    ensures pos >= |s| ==> Inserted(s, pos, src) == s + src
    ensures 0 <= pos <= |s| ==> Inserted(s, pos, src) == s[..pos] + src + s[pos..]
  {
    assert pos <= 0 ==> Inserted(s, pos, src) == [] + src + s;
  }

  /** A removal ends at the end of the tokens, and one that begins outside them removes nothing. */
  lemma RemovedIs(s: seq<int>, pos: int, n: int)
    ensures n <= 0 || pos < 0 || pos >= |s| ==> Removed(s, pos, n) == s
    ensures 0 <= pos < |s| && n > 0 && pos + n >= |s| ==> Removed(s, pos, n) == s[..pos]
    ensures 0 <= pos < |s| && n > 0 && pos + n <= |s| ==> Removed(s, pos, n) == s[..pos] + s[pos + n..]
  {
  }
}
