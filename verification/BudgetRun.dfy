/** Which token every round of a case takes, and how a case ends, from its tokens so far alone. */
module BudgetRun {
  import opened Budget

  /** There is thinking until the closing tag has been seen. */
  predicate Thinks(env: Env, out: seq<nat>) {
    env.thinking && !HasClose(Spelled(env, out))
  }

  /** Thinking that has a single closing token, within its last tokens but not in the reserve, and this
      token is among the likely ones. */
  predicate ClosesSoftly(env: Env, out: seq<nat>) {
    Thinks(env, out) && |env.closeTokens| == 1 && env.limit - |out| <= env.soft && env.closeRank(out) > 0
  }

  predicate InReserve(env: Env, out: seq<nat>) {
    Thinks(env, out) && env.closeTokens != [] && env.limit - |out| <= env.hard
  }

  /** The token that has its turn: in the reserve the closing tokens one after the other; outside it the
      single closing token where that is likely, or else the sampled one. While there is thinking, what
      stands for the end of thinking takes the place of the end of the text. */
  function Turn(env: Env, out: seq<nat>): nat {
    var left := env.limit - |out|;
    if InReserve(env, out) then
      env.closeTokens[(if env.hard < env.limit then env.hard - left else |out|) % |env.closeTokens|]
    else
      var t := if ClosesSoftly(env, out) then env.closeTokens[0] else env.sample(out);
      if Thinks(env, out) && t == env.eos then env.eosToClose(out) else t
  }

  /** The text is what the tokens spell, and there is thinking until its closing tag is seen. */
  predicate Spells(env: Env, g: Gen) {
    g.raw == Spelled(env, g.out) && (g.inThink <==> Thinks(env, g.out))
  }

  /** How a case ends: stopped, at the limit, with the end of the text, or where decoding fails. */
  predicate EndsSo(env: Env, outcome: Outcome, out: seq<nat>) {
    match outcome
    case Interrupted => |out| < env.limit && env.interrupted(out)
    case DecodeFailed =>
      |out| < env.limit && !env.interrupted(out) && Turn(env, out) != env.eos && !env.decodes(out + [Turn(env, out)])
    case Finished => |out| == env.limit || (!env.interrupted(out) && Turn(env, out) == env.eos)
  }

  /** Every token was taken in its turn, not being the end of the text, from a case that was not stopped,
      and was decoded. */
  predicate InTurn(env: Env, out: seq<nat>) {
    forall i :: 0 <= i < |out| ==>
      && out[i] == Turn(env, out[..i]) && out[i] != env.eos
      && !env.interrupted(out[..i]) && env.decodes(out[..i] + [out[i]])
  }

  /** Whatever the model, the user and the sampler do, a case takes in every round the token that has
      its turn, and ends for a reason. */
  lemma {:induction false} RunIs(env: Env, n: nat)
    requires Ready(env)
    ensures var p := After(env, n);
      Spells(env, p.g) && InTurn(env, p.g.out) && (p.Ended? ==> EndsSo(env, p.outcome, p.g.out))
  {
    hide HasClose, Inv, Round, Ready, Turn, EndsSo;
    if n == 0 {
      assert Spelled(env, []) == "";
      NothingSeen();
    } else {
      RunIs(env, n - 1);
      var p := After(env, n - 1);
      if p.Going? {
        RoundIs(env, p.g);
        AfterCounts(env, n - 1);
        if Round(env, p.g).Going? { InTurnNext(env, p.g.out); }
      }
    }
  }

  lemma NothingSeen()
    ensures !HasClose("")
  {
    CloseIsSeen("");
  }

  lemma InTurnNext(env: Env, out: seq<nat>)
    requires InTurn(env, out) && Turn(env, out) != env.eos && !env.interrupted(out)
    requires env.decodes(out + [Turn(env, out)])
    ensures InTurn(env, out + [Turn(env, out)])
  {
    hide Turn;
    var next := out + [Turn(env, out)];
    forall i | 0 <= i < |next|
      ensures next[i] == Turn(env, next[..i]) && next[i] != env.eos
      ensures !env.interrupted(next[..i]) && env.decodes(next[..i] + [next[i]])
    {
      if i < |out| { assert next[..i] == out[..i]; } else { assert next[..i] == out; }
    }
  }

  lemma RoundIs(env: Env, g: Gen)
    requires Ready(env) && Inv(env, g) && Spells(env, g)
    ensures InRange(env, g)
    ensures match Round(env, g)
      case Ended(outcome, h) => h.out == g.out && Spells(env, h) && EndsSo(env, outcome, h.out)
      case Going(h) =>
        && |g.out| < env.limit && !env.interrupted(g.out) && Turn(env, g.out) != env.eos
        && env.decodes(g.out + [Turn(env, g.out)])
        && h.out == g.out + [Turn(env, g.out)] && Spells(env, h)
  {
    hide HasClose, Spelled, Turn, Chosen, Ready;
    RangeOk(env, g);
    if |g.out| < env.limit {
      ChosenIsTurn(env, g);
      TakenSpells(env, g, Chosen(env, g));
    }
  }

  lemma TakenSpells(env: Env, g: Gen, c: Choice)
    requires Spells(env, g)
    ensures Spells(env, Taken(env, g, c))
  {
    hide HasClose, Noted;
    var out := g.out + [c.token];
    assert out[..|out| - 1] == g.out;
    assert Spelled(env, out) == Spelled(env, g.out) + env.text(c.token);
    NotSeenBefore(g.raw, env.text(c.token));
  }

  lemma ChosenIsTurn(env: Env, g: Gen)
    requires Ready(env) && Inv(env, g) && Spells(env, g) && |g.out| < env.limit
    ensures InRange(env, g) && Chosen(env, g).token == Turn(env, g.out)
  {
    hide HasClose, Spelled;
    RangeOk(env, g);
    if InReserve(env, g.out) {
      hide Inv, Ready;
      var k, r := NextClosing(env, g);
      EndIsNotClosing(env, k);
    } else {
      FreeOfClosing(env, g);
      hide Inv, Ready;
    }
  }

  lemma EndIsNotClosing(env: Env, k: nat)
    requires Ready(env) && k < |env.closeTokens|
    ensures env.closeTokens[k] != env.eos
  {
  }

  /** What is written down of the end of thinking, once: at the first closing token that the controller
      puts in, or else with the token that completes the tag, the number of that token, the tokens that
      were left, and the rank that made a soft end. */
  lemma CloseIsNoted(env: Env, g: Gen)
    requires Ready(env) && Inv(env, g) && Spells(env, g)
    ensures InRange(env, g)
    ensures var p := Round(env, g);
      p.Going? ==>
        var out, left := g.out, env.limit - |g.out|;
        var rank := if ClosesSoftly(env, out) && !InReserve(env, out) then env.closeRank(out) else 0;
        if g.close.kind != NoClose then p.g.close == g.close
        else if InReserve(env, out) then p.g.close == CloseInfo(Hard, |out| + 1, left, 0)
        else if rank > 0 then p.g.close == CloseInfo(Soft, |out| + 1, left, rank)
        else if Thinks(env, out) && env.sample(out) == env.eos then p.g.close == CloseInfo(Eos, |out| + 1, left, 0)
        else if Thinks(env, out) && !p.g.inThink then p.g.close == CloseInfo(Natural, |out| + 1, left, 0)
        else p.g.close == g.close
  {
    hide HasClose, Spelled;
    RangeOk(env, g);
    if InReserve(env, g.out) {
      if g.forced >= 0 { ForcedIsNoted(env, g); }
      EndIsNotClosing(env, 0);
    } else if |g.out| < env.limit {
      FreeOfClosing(env, g);
      if ClosesSoftly(env, g.out) { EndIsNotClosing(env, 0); }
    }
  }

  lemma ForcedIsNoted(env: Env, g: Gen)
    requires Inv(env, g) && g.forced >= 0
    ensures g.close.kind != NoClose
  {
    hide HasClose, ClosingAt, InfoOk;
  }
}
