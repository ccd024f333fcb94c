/** The token array and the chat that splices its prefix and system block in and out of it. */
module Transcript {
  import opened TranscriptModel

  class Tokens {
    var v: array<int>
    var len: nat

    ghost predicate Valid()
      reads this
    {
      len <= v.Length
    }

    ghost function Contents(): seq<int>
      reads this, v
      requires Valid()
    {
      v[..len]
    }

    constructor ()
      ensures Valid() && fresh(v) && Contents() == []
    {
      v := new int[0];
      len := 0;
    }

    /** Doubles the room until there is enough. */
    method Reserve(need: nat)
      requires Valid()
      modifies this`v
      ensures Valid() && need <= v.Length && Contents() == old(Contents())
      ensures v == old(v) || fresh(v)
    {
      var cap := v.Length;
      while cap < need
        invariant cap >= v.Length
        decreases need - cap
      {
        cap := if cap > 0 then cap * 2 else 64;
      }
      if cap > v.Length {
        var next := new int[cap];
        for i := 0 to len
          invariant next[..i] == v[..i]
          modifies next
        {
          next[i] := v[i];
        }
        v := next;
      }
    }

    method Push(x: int)
      requires Valid()
      modifies this, v
      ensures Valid() && Contents() == old(Contents()) + [x]
      ensures v == old(v) || fresh(v)
    {
      Reserve(len + 1);
      v[len] := x;
      len := len + 1;
    }

    /** memmove to the right, from the end. */
    method MoveRight(pos: nat, gap: nat, ghost s: seq<int>)
      requires pos <= len && len + gap <= v.Length && s == v[..len]
      modifies v
      ensures v[..pos] == s[..pos] && v[pos + gap..len + gap] == s[pos..]
    {
      var i := len;
      while i > pos
        invariant pos <= i <= len
        invariant forall k :: 0 <= k < i ==> v[k] == s[k]
        invariant forall k :: i + gap <= k < len + gap ==> v[k] == s[k - gap]
      {
        i := i - 1;
        v[i + gap] := v[i];
      }
    }

    method CopyIn(pos: nat, src: seq<int>)
      requires pos + |src| <= v.Length
      modifies v
      ensures v[pos..pos + |src|] == src
      ensures forall k :: 0 <= k < pos || pos + |src| <= k < v.Length ==> v[k] == old(v[k])
    {
      for i := 0 to |src|
        invariant forall k :: 0 <= k < i ==> v[pos..pos + i][k] == src[k]
        invariant forall k :: 0 <= k < pos || pos + i <= k < v.Length ==> v[k] == old(v[k])
      {
        v[pos + i] := src[i];
      }
    }

    /** Opens a gap and fills it. */
    method Splice(pos: nat, src: seq<int>, ghost s: seq<int>)
      requires pos <= len && len + |src| <= v.Length && s == v[..len]
      modifies v
      ensures v[..len + |src|] == s[..pos] + src + s[pos..]
    {
      MoveRight(pos, |src|, s);
      ghost var left, right := v[..pos], v[pos + |src|..len + |src|];
      CopyIn(pos, src);
      assert v[..pos] == left && v[pos + |src|..len + |src|] == right;
      assert v[..len + |src|] == v[..pos] + v[pos..pos + |src|] + v[pos + |src|..len + |src|];
    }

    method Insert(at: int, src: seq<int>)
      requires Valid()
      modifies this, v
      ensures Valid() && Contents() == Inserted(old(Contents()), at, src)
      ensures v == old(v) || fresh(v)
    {
      if |src| == 0 { return; }
      var pos: nat := if at < 0 then 0 else if at > len then len else at;
      Reserve(len + |src|);
      Splice(pos, src, v[..len]);
      len := len + |src|;
    }

    method Remove(pos: int, n: int)
      requires Valid()
      modifies this, v
      ensures Valid() && Contents() == Removed(old(Contents()), pos, n) && v == old(v)
    {
      if n <= 0 || pos < 0 || pos >= len { return; }
      var m := if pos + n > len then len - pos else n;
      ghost var s := Contents();
      var i := pos;
      while i < len - m
        invariant pos <= i <= len - m && v == old(v)
        invariant forall k :: 0 <= k < pos ==> v[k] == s[k]
        invariant forall k :: pos <= k < i ==> v[k] == s[k + m]
        invariant forall k :: i <= k < len ==> v[k] == s[k]
        modifies v
      {
        v[i] := v[i + m];
        i := i + 1;
      }
      len := len - m;
      assert v[..len] == s[..pos] + s[pos + m..];
    }

    method Truncate(n: nat)
      requires Valid() && n <= len
      modifies this`len
      ensures Valid() && Contents() == old(Contents())[..n]
    {
      len := n;
    }

    method PushAll(src: seq<int>)
      requires Valid()
      modifies this, v
      ensures Valid() && Contents() == old(Contents()) + src
      ensures v == old(v) || fresh(v)
    {
      for i := 0 to |src|
        invariant Valid() && Contents() == old(Contents()) + src[..i]
        invariant v == old(v) || fresh(v)
      {
        Push(src[i]);
        assert old(Contents()) + src[..i] + [src[i]] == old(Contents()) + src[..i + 1];
      }
      assert src[..|src|] == src;
    }
  }

  /** The chat after tokens were added at its end. */
  function Extended(c: Chat, tokens: seq<int>): Chat {
    c.(transcript := c.transcript + tokens)
  }

  /** Adding to the dialogue is adding to what it renders to. */
  lemma ExtendedIsRendered(en: Engine, t: Talk, tokens: seq<int>)
    requires |en.begin| >= 1
    ensures Extended(Rendered(en, t), tokens) == Rendered(en, t.(dialogue := t.dialogue + tokens))
  {
    assert Front(en, t) + t.dialogue + tokens == Front(en, t) + (t.dialogue + tokens);
  }

  lemma ImageIsRendered(en: Engine, t: Talk, tokens: seq<int>, offset: nat, embedding: int)
    requires |en.begin| >= 1
    ensures var c := Rendered(en, t);
      var image := Image(|c.transcript| + offset, embedding);
      var u := t.(dialogue := t.dialogue + tokens, placed := t.placed + [Placed(|t.dialogue| + offset, embedding)]);
      Extended(c.(images := c.images + [image]), tokens) == Rendered(en, u)
  {
    var u := t.(dialogue := t.dialogue + tokens, placed := t.placed + [Placed(|t.dialogue| + offset, embedding)]);
    assert Front(en, u) == Front(en, t);
    assert Front(en, t) + t.dialogue + tokens == Front(en, t) + (t.dialogue + tokens);
    assert PlacedAt(u.placed, |Front(en, u)|)
        == PlacedAt(t.placed, |Front(en, t)|) + [Image(|Front(en, t)| + |t.dialogue| + offset, embedding)];
  }

  lemma NotShifted(images: seq<Image>)
    ensures Shifted(images, 0) == images
  {
  }

  class ReplChat {
    const en: Engine
    const transcript: Tokens
    var ctxSize: int
    var maxPrefixTokens: int
    var systemPos: int
    var systemTokens: int
    var systemMode: Mode
    var systemInitialized: bool
    var enabledMode: Mode
    var thinking: bool
    var images: seq<Image>
    var cfgMode: Mode

    ghost predicate Valid()
      reads transcript
    {
      transcript.Valid() && |en.begin| >= 1
    }

    ghost function State(): Chat
      reads this, transcript, transcript.v
      requires Valid()
    {
      Chat(transcript.Contents(), ctxSize, maxPrefixTokens, systemPos, systemTokens, systemMode,
           systemInitialized, enabledMode, thinking, images, cfgMode)
    }

    constructor (en: Engine, ctxSize: int, cfgMode: Mode)
      requires |en.begin| >= 1
      ensures Valid() && this.en == en && fresh(transcript) && fresh(transcript.v)
      ensures State() == Rendered(en, Fresh(en, ctxSize, cfgMode))
    {
      this.en := en;
      transcript := new Tokens();
      this.ctxSize, this.cfgMode := ctxSize, cfgMode;
      maxPrefixTokens, systemPos, systemTokens := 0, 0, 0;
      systemMode, systemInitialized := ThinkNone, false;
      enabledMode := EnabledFor(cfgMode);
      thinking := en.systemThinking(cfgMode != ThinkNone);
      images := [];
      new;
      Begin();
    }

    /** What a new and a cleared chat start with. */
    method Begin()
      requires Valid() && transcript.len == 0 && maxPrefixTokens == 0 && systemTokens == 0 && !systemInitialized
      requires images == []
      requires enabledMode == EnabledFor(cfgMode) && thinking == en.systemThinking(cfgMode != ThinkNone)
      modifies this, transcript, transcript.v
      ensures Valid() && State() == Rendered(en, Fresh(en, old(ctxSize), old(cfgMode)))
      ensures transcript.v == old(transcript.v) || fresh(transcript.v)
    {
      hide Rendered, ApplyMaxPrefix, SyncSystem;
      ghost var t := Fresh(en, ctxSize, cfgMode).(dialogue := []);
      transcript.PushAll(en.begin);
      systemPos := transcript.len;
      BegunIsRendered(en, t, State());
      assert [] + en.begin == en.begin;
      assert State() == Begun(en, t, State());
      var mode := CurrentMode();
      ApplyMax(mode == Max);
      Sync();
      ExtendedIsRendered(en, t, en.leading);
      assert [] + en.leading == en.leading;
      Append(en.leading);
    }

    method ShiftImages(delta: int)
      modifies this`images
      ensures images == Shifted(old(images), delta)
    {
      var i := 0;
      while i < |images|
        invariant 0 <= i <= |images| == |old(images)|
        invariant forall k :: 0 <= k < i ==> images[k] == Shifted(old(images), delta)[k]
        invariant forall k :: i <= k < |images| ==> images[k] == old(images)[k]
      {
        images := images[i := images[i].(tokenStart := images[i].tokenStart + delta)];
        i := i + 1;
      }
    }

    function CurrentMode(): (m: Mode)
      reads this
    {
      if !thinking then ThinkNone else ModeForContext(enabledMode, ctxSize)
    }

    method ApplyMax(on: bool)
      requires Valid()
      modifies this, transcript, transcript.v
      ensures Valid() && State() == ApplyMaxPrefix(en, old(State()), on)
      ensures transcript.v == old(transcript.v) || fresh(transcript.v)
    {
      var enable := if en.hasTemplate then false else on;
      if enable && maxPrefixTokens == 0 {
        transcript.Insert(1, en.maxPrefix);
        maxPrefixTokens := |en.maxPrefix|;
        systemPos := systemPos + |en.maxPrefix|;
        ShiftImages(|en.maxPrefix|);
      } else if !enable && maxPrefixTokens > 0 {
        transcript.Remove(1, maxPrefixTokens);
        systemPos := systemPos - maxPrefixTokens;
        ShiftImages(-maxPrefixTokens);
        maxPrefixTokens := 0;
      }
    }

    /** The system block out, and another one in. */
    method ReplaceBlock(block: seq<int>)
      requires Valid()
      modifies transcript, transcript.v
      ensures Valid()
      ensures var s := old(transcript.Contents());
        var without := if systemTokens > 0 then Removed(s, systemPos, systemTokens) else s;
        transcript.Contents() == if block != [] then Inserted(without, systemPos, block) else without
      ensures transcript.v == old(transcript.v) || fresh(transcript.v)
    {
      if systemTokens > 0 { transcript.Remove(systemPos, systemTokens); }
      if |block| > 0 { transcript.Insert(systemPos, block); }
    }

    method Sync()
      requires Valid()
      modifies this, transcript, transcript.v
      ensures Valid() && State() == SyncSystem(en, old(State()))
      ensures transcript.v == old(transcript.v) || fresh(transcript.v)
    {
      hide Inserted, Removed, Shifted;
      var mode := if en.hasTemplate then CurrentMode() else ThinkNone;
      if systemInitialized && systemMode == mode { return; }
      var block := en.system(mode);
      var delta := |block| - systemTokens;
      ReplaceBlock(block);
      NotShifted(images);
      if delta != 0 { ShiftImages(delta); }
      systemTokens := |block|;
      systemMode := mode;
      systemInitialized := true;
    }

    method Append(tokens: seq<int>)
      requires Valid()
      modifies transcript, transcript.v
      ensures Valid() && State() == Extended(old(State()), tokens)
      ensures transcript.v == old(transcript.v) || fresh(transcript.v)
    {
      transcript.PushAll(tokens);
    }

    /** Brings prefix and system block in line with what has been decided. */
    method Resync(ghost s: Talk, ghost t: Talk)
      requires Valid() && State() == Decided(Rendered(en, s), t) && SameDialogue(s, t)
      modifies this, transcript, transcript.v
      ensures Valid() && State() == Rendered(en, t)
      ensures transcript.v == old(transcript.v) || fresh(transcript.v)
    {
      hide ApplyMaxPrefix, SyncSystem, Rendered;
      SplicingIsRendering(en, s, t);
      var mode := CurrentMode();
      ApplyMax(mode == Max);
      Sync();
    }

    /** Undoes a tentative turn. */
    method Rollback(rollbackLen: nat, rollbackImages: nat, oldThinking: bool, ghost u: Talk, ghost t: Talk)
      requires Valid() && rollbackLen <= transcript.len && rollbackImages <= |images|
      requires SameDialogue(u, t)
      requires var cut := State().transcript[..rollbackLen];
        State().(transcript := cut, images := images[..rollbackImages], thinking := oldThinking)
          == Decided(Rendered(en, u), t)
      modifies this, transcript, transcript.v
      ensures Valid() && State() == Rendered(en, t)
      ensures transcript.v == old(transcript.v) || fresh(transcript.v)
    {
      hide Rendered;
      transcript.Truncate(rollbackLen);
      images := images[..rollbackImages];
      thinking := oldThinking;
      Resync(u, t);
    }

    /** The user's message, with or without an image. */
    method Say(text: string, image: ImageInput, ghost u: Talk)
      requires Valid() && State() == Rendered(en, u) && !image.BadImage?
      modifies this`images, transcript, transcript.v
      ensures Valid() && State() == Rendered(en, Said(en, u, text, image))
      ensures transcript.v == old(transcript.v) || fresh(transcript.v)
    {
      if image.GoodImage? {
        var (tokens, offset) := en.vision(text, image.embedding);
        ImageIsRendered(en, u, tokens, offset, image.embedding);
        images := images + [Image(transcript.len + offset, image.embedding)];
        Append(tokens);
      } else {
        ExtendedIsRendered(en, u, en.user(text));
        Append(en.user(text));
      }
    }

    /** An image that cannot be added: its span and what was added of its message are taken back. */
    method FailImage(partial: seq<int>)
      requires Valid()
      modifies this`images, transcript, transcript.v
      ensures Valid() && State() == old(State())
      ensures transcript.v == old(transcript.v) || fresh(transcript.v)
    {
      var rollbackLen, rollbackImages := transcript.len, |images|;
      ghost var before := images;
      images := images + [Image(0, 0)];
      Append(partial);
      assert transcript.len == |transcript.Contents()|;
      images := images[..rollbackImages];
      transcript.Truncate(rollbackLen);
      assert images == before;
    }

    /** The user's message and the start of the answer. */
    method Ask(text: string, image: ImageInput, ghost u: Talk)
      requires Valid() && State() == Rendered(en, u) && !image.BadImage?
      modifies this`images, transcript, transcript.v
      ensures Valid() && State() == Rendered(en, Asked(en, u, text, image))
      ensures transcript.v == old(transcript.v) || fresh(transcript.v)
    {
      hide Rendered, Said;
      Say(text, image, u);
      ghost var said := Said(en, u, text, image);
      RenderedDecisions(en, said);
      SaidOnlyAdds(en, u, text, image);
      var assistant := en.assistant(CurrentMode());
      ExtendedIsRendered(en, said, assistant);
      Append(assistant);
    }

    /** One turn. */
    method RunTurn(text: string, image: ImageInput, end: TurnEnd, ghost t: Talk)
      requires Valid() && State() == Rendered(en, t)
      modifies this, transcript, transcript.v
      ensures Valid() && State() == Rendered(en, Step(en, t, Turn(text, image, end)))
    {
      hide Rendered, Asked, Front;
      var oldThinking := thinking;
      RenderedDecisions(en, t);
      thinking := en.control(text, thinking);
      ghost var u := t.(thinking := thinking);
      DecidedThinking(en, t, thinking);
      Resync(t, u);
      RenderedDecisions(en, u);
      if image.BadImage? {
        FailImage(image.partial);
        return;
      }
      var rollbackLen, rollbackImages := transcript.len, |images|;
      assert transcript.len == |transcript.Contents()|;
      Ask(text, image, u);
      FinishTurn(end, rollbackLen, rollbackImages, oldThinking, u, t, Asked(en, u, text, image), text, image);
    }

    method FinishTurn(end: TurnEnd, rollbackLen: nat, rollbackImages: nat, oldThinking: bool,
                      ghost u: Talk, ghost t: Talk, ghost asked: Talk, ghost text: string, ghost image: ImageInput)
      requires Valid() && asked == Asked(en, u, text, image) && State() == Rendered(en, asked)
      requires u == t.(thinking := u.thinking) && oldThinking == t.thinking
      requires rollbackLen == |Front(en, u)| + |u.dialogue| && rollbackImages == |u.placed|
      modifies this, transcript, transcript.v
      ensures Valid()
      ensures State() == Rendered(en, match end
        case DecodeFails(generated) => asked.(dialogue := asked.dialogue + generated)
        case Done(generated) => asked.(dialogue := asked.dialogue + generated + en.suffix)
        case _ => t)
    {
      hide Rendered, Front;
      match end {
        case DecodeFails(generated) =>
          ExtendedIsRendered(en, asked, generated);
          Append(generated);
        case Done(generated) =>
          Answer(generated, asked);
        case _ =>
          SaidOnlyAdds(en, u, text, image);
          assert transcript.len == |transcript.Contents()|;
          RolledBack(en, u, t, asked, State(), rollbackLen, rollbackImages);
          Rollback(rollbackLen, rollbackImages, oldThinking, u, t);
      }
    }

    /** The tokens of an answer, one by one, and what ends it. */
    method Answer(generated: seq<int>, ghost asked: Talk)
      requires Valid() && State() == Rendered(en, asked)
      modifies transcript, transcript.v
      ensures Valid() && State() == Rendered(en, asked.(dialogue := asked.dialogue + generated + en.suffix))
    {
      hide Rendered;
      ExtendedIsRendered(en, asked, generated);
      Append(generated);
      ExtendedIsRendered(en, asked.(dialogue := asked.dialogue + generated), en.suffix);
      Append(en.suffix);
    }

    /** Starts over, with the mode that was last chosen. */
    method Reset()
      requires Valid()
      modifies this, transcript, transcript.v
      ensures Valid() && State() == Rendered(en, Fresh(en, old(ctxSize), old(cfgMode)))
    {
      transcript.Truncate(0);
      images := [];
      maxPrefixTokens, systemPos, systemTokens, systemInitialized := 0, 0, 0, false;
      enabledMode := EnabledFor(cfgMode);
      thinking := en.systemThinking(cfgMode != ThinkNone);
      Begin();
    }

    /** A command that chooses a mode of thinking; only max thinking wants its prefix. */
    method ChooseMode(chosen: Mode, enabled: Mode, on: bool, ghost t: Talk)
      requires Valid() && State() == Rendered(en, t)
      requires on ==> enabled != ThinkNone
      modifies this, transcript, transcript.v
      ensures Valid() && State() == Rendered(en, t.(cfgMode := chosen, enabledMode := enabled, thinking := on))
    {
      hide Rendered;
      ghost var u := t.(cfgMode := chosen, enabledMode := enabled, thinking := on);
      RenderedDecisions(en, t);
      cfgMode, enabledMode, thinking := chosen, enabled, on;
      assert State() == Decided(Rendered(en, t), u);
      hide ApplyMaxPrefix, SyncSystem;
      SplicingIsRendering(en, t, u);
      var active := if enabled == Max && on then CurrentMode() == Max else false;
      ApplyMax(active);
      Sync();
    }

    /** One command of the prompt. */
    method Do(cmd: Command, ghost t: Talk)
      requires Valid() && State() == Rendered(en, t) && Proper(cmd)
      modifies this, transcript, transcript.v
      ensures Valid() && State() == Rendered(en, Step(en, t, cmd))
    {
      hide Rendered;
      RenderedDecisions(en, t);
      match cmd {
        case SetThink(mode) => ChooseMode(mode, mode, true, t);
        case NoThink => ChooseMode(ThinkNone, High, false, t);
        case SetContext(n) =>
          ctxSize := n;
          Resync(t, t.(ctxSize := n));
        case Clear => Reset();
        case Turn(text, image, end) => RunTurn(text, image, end, t);
      }
    }
  }

  lemma RenderedDecisions(en: Engine, t: Talk)
    requires |en.begin| >= 1
    ensures var c := Rendered(en, t);
      && c.thinking == t.thinking && c.enabledMode == t.enabledMode && c.ctxSize == t.ctxSize && c.cfgMode == t.cfgMode
      && |c.transcript| == |Front(en, t)| + |t.dialogue| && |c.images| == |t.placed|
  {
    hide Front, PlacedAt;
  }

  lemma DecidedThinking(en: Engine, t: Talk, thinking: bool)
    requires |en.begin| >= 1
    ensures Rendered(en, t).(thinking := thinking) == Decided(Rendered(en, t), t.(thinking := thinking))
  {
    hide Front, PlacedAt;
  }

  lemma SaidOnlyAdds(en: Engine, u: Talk, text: string, image: ImageInput)
    ensures var said := Said(en, u, text, image);
      && said.thinking == u.thinking && said.enabledMode == u.enabledMode && said.ctxSize == u.ctxSize
      && said.cfgMode == u.cfgMode && u.dialogue <= said.dialogue && u.placed <= said.placed
  {
  }

  /** What a rollback is left with once the tentative turn has been cut off. */
  lemma RolledBack(en: Engine, u: Talk, t: Talk, asked: Talk, c: Chat, n: nat, images: nat)
    requires |en.begin| >= 1 && c == Rendered(en, asked) && u == t.(thinking := u.thinking)
    requires asked == u.(dialogue := asked.dialogue, placed := asked.placed)
    requires u.dialogue <= asked.dialogue && u.placed <= asked.placed
    requires n == |Front(en, u)| + |u.dialogue| && images == |u.placed|
    ensures n <= |c.transcript| && images <= |c.images|
    ensures c.(transcript := c.transcript[..n], images := c.images[..images], thinking := t.thinking)
         == Decided(Rendered(en, u), t)
  {
    assert Front(en, asked) == Front(en, u);
    assert (Front(en, u) + asked.dialogue)[..n] == Front(en, u) + u.dialogue;
    assert PlacedAt(asked.placed, |Front(en, u)|)[..images] == PlacedAt(u.placed, |Front(en, u)|);
  }
}
