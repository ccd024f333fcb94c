/** The controller that ends thinking in time for an answer. The model, its user and its sampler are
    functions of the tokens so far: whatever they do is one such function. */
module Budget {
  import TraceFormat

  const CLOSE_TEXT := "</think>"

  datatype Kind = NoClose | Natural | Soft | Hard | Eos

  datatype CloseInfo = CloseInfo(kind: Kind, tokenIndex: nat, remaining: int, rank: nat)

  /** A case to run. */
  datatype Env = Env(
    limit: nat, hard: int, soft: int, thinking: bool, closeTokens: seq<nat>, eos: nat,
    sample: seq<nat> -> nat,
    closeRank: seq<nat> -> nat,
    eosToClose: seq<nat> -> nat,
    decodes: seq<nat> -> bool,
    interrupted: seq<nat> -> bool,
    text: nat -> string)

  datatype Gen = Gen(out: seq<nat>, raw: string, inThink: bool, forced: int, close: CloseInfo)

  datatype Outcome = Finished | Interrupted | DecodeFailed

  datatype Progress = Going(g: Gen) | Ended(outcome: Outcome, g: Gen)

  function Start(env: Env): Gen {
    Gen([], "", env.thinking, -1, CloseInfo(NoClose, 0, 0, 0))
  }

  /** Whether the closing tag is seen: the search is one for C strings, and stops at the first NUL. */
  predicate HasClose(raw: string) {
    TraceFormat.IndexOf(TraceFormat.CString(raw), CLOSE_TEXT) >= 0
  }

  datatype Choice = Choice(token: nat, forced: int, kind: Kind, rank: nat)

  predicate InRange(env: Env, g: Gen) {
    g.forced == -1 || 0 <= g.forced < |env.closeTokens|
  }

  /** The token that the controller puts in, or the sampled one. */
  function Wanted(env: Env, g: Gen): Choice
    requires InRange(env, g)
  {
    var remaining := env.limit - |g.out|;
    var sampled := Choice(env.sample(g.out), g.forced, NoClose, 0);
    var n := |env.closeTokens|;
    if !g.inThink || n == 0 then sampled
    else if g.forced >= 0 then
      Choice(env.closeTokens[g.forced], if g.forced + 1 >= n then -1 else g.forced + 1, NoClose, 0)
    else if remaining <= env.hard then Choice(env.closeTokens[0], if n > 1 then 1 else -1, Hard, 0)
    else if remaining <= env.soft && n == 1 && env.closeRank(g.out) > 0 then
      Choice(env.closeTokens[0], g.forced, Soft, env.closeRank(g.out))
    else sampled
  }

  /** The end of the text is turned into the end of thinking while there is thinking. */
  function Chosen(env: Env, g: Gen): Choice
    requires InRange(env, g)
  {
    var c := Wanted(env, g);
    if c.token == env.eos && g.inThink then
      var t := env.eosToClose(g.out);
      c.(token := t, kind := if t != env.eos then Eos else c.kind)
    else c
  }

  function Noted(env: Env, g: Gen, c: Choice): CloseInfo {
    if c.kind != NoClose && g.close.kind == NoClose
    then CloseInfo(c.kind, |g.out| + 1, env.limit - |g.out|, c.rank) else g.close
  }

  function Taken(env: Env, g: Gen, c: Choice): Gen {
    var out, raw := g.out + [c.token], g.raw + env.text(c.token);
    var close := Noted(env, g, c);
    if g.inThink && HasClose(raw) then
      var natural := CloseInfo(Natural, |out|, env.limit - |g.out|, 0);
      Gen(out, raw, false, c.forced, if close.kind == NoClose then natural else close)
    else Gen(out, raw, g.inThink, c.forced, close)
  }

  function Round(env: Env, g: Gen): Progress
    requires InRange(env, g)
  {
    if |g.out| >= env.limit then Ended(Finished, g)
    else if env.interrupted(g.out) then Ended(Interrupted, g)
    else
      var c := Chosen(env, g);
      if c.token == env.eos then Ended(Finished, g)
      else if !env.decodes(g.out + [c.token]) then
        Ended(DecodeFailed, g.(forced := c.forced, close := Noted(env, g, c)))
      else Going(Taken(env, g, c))
  }

  /** What a case needs: the closing text is what its tokens spell, and none of them ends the text. */
  ghost predicate Ready(env: Env) {
    && env.eos !in env.closeTokens
    && (env.closeTokens != [] ==> Spelled(env, env.closeTokens) == CLOSE_TEXT && env.text(Last(env)) != "")
  }

  function Last(env: Env): nat
    requires env.closeTokens != []
  {
    env.closeTokens[|env.closeTokens| - 1]
  }

  function Spelled(env: Env, tokens: seq<nat>): string {
    if tokens == [] then "" else Spelled(env, tokens[..|tokens| - 1]) + env.text(tokens[|tokens| - 1])
  }

  /** Where the reserve for the answer begins. */
  function HardStart(env: Env): (h: nat)
    ensures h <= env.limit || h == 0
  {
    if env.hard >= env.limit then 0 else if env.hard < 0 then env.limit else env.limit - env.hard
  }

  /** Which closing token comes next when there have been so many. */
  function Slot(env: Env, d: nat): (k: nat)
    requires env.closeTokens != []
    ensures k < |env.closeTokens|
  {
    d % |env.closeTokens|
  }

  /** So many closing tokens, from the first one over and over. */
  function Cycle(env: Env, d: nat): (tokens: seq<nat>)
    requires env.closeTokens != []
    ensures |tokens| == d
  {
    if d == 0 then [] else Cycle(env, d - 1) + [env.closeTokens[Slot(env, d - 1)]]
  }

  /** The reserve has begun: all of it so far are closing tokens, and where they have been put in more
      than once there is a NUL in the text. */
  ghost predicate Closing(env: Env, g: Gen) {
    && g.inThink && env.closeTokens != [] && |g.out| > HardStart(env) && g.close.kind != NoClose
    && ClosingAt(env, g, |g.out| - HardStart(env))
  }

  ghost predicate ClosingAt(env: Env, g: Gen, d: nat)
    requires env.closeTokens != [] && d == |g.out| - HardStart(env)
  {
    var k := Slot(env, d);
    && g.forced == (if k == 0 then -1 else k)
    && g.out[HardStart(env)..] == Cycle(env, d)
    && (d >= |env.closeTokens| ==> '\0' in g.raw)
    && exists r :: g.raw == r + Spelled(env, env.closeTokens[..k])
  }

  ghost predicate InfoOk(env: Env, g: Gen) {
    && (g.close.kind == Hard ==>
          g.close.tokenIndex == HardStart(env) + 1 && g.close.remaining == env.limit - HardStart(env))
    && (g.close.kind == Soft ==>
          |env.closeTokens| == 1 && env.hard < g.close.remaining <= env.soft && g.close.rank > 0)
    && (env.thinking && !g.inThink ==> g.close.kind != NoClose)
  }

  /** What holds before every round. */
  ghost predicate Inv(env: Env, g: Gen) {
    && |g.out| <= env.limit
    && (g.inThink ==> !HasClose(g.raw))
    && (g.forced == -1 || Closing(env, g))
    && (g.inThink && env.closeTokens != [] && |g.out| > HardStart(env) ==> Closing(env, g))
    && InfoOk(env, g)
  }

  // ------------------------------------------------------------------- the closing text

  /** The tag is seen exactly where it stands with no NUL in front of it. */
  lemma CloseIsSeen(raw: string)
    ensures HasClose(raw) <==> exists i :: TraceFormat.OccursAt(raw, CLOSE_TEXT, i) && '\0' !in raw[..i]
  {
    hide TraceFormat.CString;
    var c := TraceFormat.CString(raw);
    TraceFormat.CStringIsStart(raw);
    if HasClose(raw) {
      var i := TraceFormat.IndexOf(c, CLOSE_TEXT);
      assert TraceFormat.OccursAt(raw, CLOSE_TEXT, i) by {
        assert raw[i..i + |CLOSE_TEXT|] == c[i..i + |CLOSE_TEXT|];
      }
      assert raw[..i] == c[..i];
    }
    if i :| TraceFormat.OccursAt(raw, CLOSE_TEXT, i) && '\0' !in raw[..i] {
      SeenBefore(raw, i);
    }
  }

  lemma SeenBefore(raw: string, i: int)
    requires TraceFormat.OccursAt(raw, CLOSE_TEXT, i) && '\0' !in raw[..i]
    ensures HasClose(raw)
  {
    hide TraceFormat.CString;
    var a, b := raw[..i] + CLOSE_TEXT, raw[i + |CLOSE_TEXT|..];
    assert raw[i..i + |CLOSE_TEXT|] == CLOSE_TEXT;
    assert raw == a + b;
    TraceFormat.CStringOfBoth(a, b);
    var c := TraceFormat.CString(raw);
    assert c[i..i + |CLOSE_TEXT|] == CLOSE_TEXT;
    assert TraceFormat.OccursAt(c, CLOSE_TEXT, i);
  }

  /** Once there is a NUL, nothing that follows changes what is seen. */
  lemma NulHides(raw: string, t: string)
    requires '\0' in raw
    ensures HasClose(raw + t) == HasClose(raw)
  {
    TraceFormat.CStringOfBoth(raw, t);
  }

  /** The tag at the end of a text is seen exactly when there is no NUL in front of it. */
  lemma CloseAtEnd(r: string)
    requires !HasClose(r)
    ensures HasClose(r + CLOSE_TEXT) <==> '\0' !in r
  {
    hide HasClose;
    if '\0' in r {
      NulHides(r, CLOSE_TEXT);
    } else {
      var s := r + CLOSE_TEXT;
      assert s[|r|..|r| + |CLOSE_TEXT|] == CLOSE_TEXT && s[..|r|] == r;
      SeenBefore(s, |r|);
    }
  }

  /** Text without the tag's last character completes no tag. */
  lemma NoCloseWithout(raw: string, t: string)
    requires '>' !in t
    ensures HasClose(raw + t) ==> HasClose(raw)
  {
    var s := raw + t;
    CloseIsSeen(s);
    CloseIsSeen(raw);
    hide HasClose;
    if HasClose(s) {
      var i :| TraceFormat.OccursAt(s, CLOSE_TEXT, i) && '\0' !in s[..i];
      assert s[i..i + |CLOSE_TEXT|][7] == s[i + 7] == '>';
      assert i + 8 <= |raw|;
      assert raw[i..i + |CLOSE_TEXT|] == s[i..i + |CLOSE_TEXT|] && raw[..i] == s[..i];
      assert TraceFormat.OccursAt(raw, CLOSE_TEXT, i);
    }
  }

  lemma {:induction false} SpelledPrefix(env: Env, tokens: seq<nat>, k: nat)
    requires k <= |tokens|
    ensures Spelled(env, tokens[..k]) <= Spelled(env, tokens)
    decreases |tokens| - k
  {
    if k == |tokens| {
      assert tokens[..k] == tokens;
    } else {
      SpelledPrefix(env, tokens, k + 1);
      assert tokens[..k + 1][..k] == tokens[..k];
    }
  }

  /** Before its last token the closing text is not complete. */
  lemma ClosingHasNoEnd(env: Env, k: nat)
    requires Ready(env) && k < |env.closeTokens|
    ensures '>' !in Spelled(env, env.closeTokens[..k])
  {
    var all, n := env.closeTokens, |env.closeTokens|;
    var most := all[..n - 1];
    SpelledPrefix(env, most, k);
    assert most[..k] == all[..k];
    assert CLOSE_TEXT == Spelled(env, most) + env.text(Last(env));
    var part := Spelled(env, most);
    assert |part| < |CLOSE_TEXT|;
    assert forall i :: 0 <= i < |part| ==> part[i] == CLOSE_TEXT[i];
  }

  // ------------------------------------------------------------------------- one round

  lemma SpelledNext(env: Env, k: nat)
    requires k < |env.closeTokens|
    ensures var all := env.closeTokens;
      && all[..k + 1] == all[..k] + [all[k]]
      && Spelled(env, all[..k + 1]) == Spelled(env, all[..k]) + env.text(all[k])
  {
    var all := env.closeTokens;
    assert all[..k + 1][..k] == all[..k];
  }

  /** The closing tokens hold no NUL. */
  lemma SpelledIsClean(env: Env, k: nat)
    requires Ready(env) && k <= |env.closeTokens| && env.closeTokens != []
    ensures '\0' !in Spelled(env, env.closeTokens[..k])
  {
    SpelledPrefix(env, env.closeTokens, k);
    var part := Spelled(env, env.closeTokens[..k]);
    assert forall i :: 0 <= i < |part| ==> part[i] == CLOSE_TEXT[i];
    assert '\0' !in CLOSE_TEXT;
  }

  /** Putting in closing token k after the ones before it: the last one is seen to close thinking
      exactly when there is no NUL in the text. */
  lemma CloseOne(env: Env, r: string, k: nat)
    requires Ready(env) && k < |env.closeTokens| && !HasClose(r + Spelled(env, env.closeTokens[..k]))
    ensures var raw := r + Spelled(env, env.closeTokens[..k]) + env.text(env.closeTokens[k]);
      && raw == r + Spelled(env, env.closeTokens[..k + 1])
      && HasClose(raw) == (k + 1 == |env.closeTokens| && '\0' !in r)
      && ('\0' in raw <==> '\0' in r)
  {
    hide HasClose, Spelled;
    SpelledNext(env, k);
    SpelledIsClean(env, k + 1);
    var before := r + Spelled(env, env.closeTokens[..k]);
    var raw := before + env.text(env.closeTokens[k]);
    assert raw == r + Spelled(env, env.closeTokens[..k + 1]);
    if k + 1 == |env.closeTokens| {
      assert env.closeTokens[..k + 1] == env.closeTokens;
      if '\0' in r {
        NulHides(before, env.text(env.closeTokens[k]));
      } else {
        NotSeenBefore(r, Spelled(env, env.closeTokens[..k]));
        CloseAtEnd(r);
      }
    } else {
      ClosingHasNoEnd(env, k + 1);
      var t := env.text(env.closeTokens[k]);
      assert forall c :: c in t ==> c in Spelled(env, env.closeTokens[..k + 1]);
      NoCloseWithout(before, t);
    }
  }

  lemma NotSeenBefore(raw: string, t: string)
    ensures HasClose(raw) ==> HasClose(raw + t)
  {
    CloseIsSeen(raw);
    CloseIsSeen(raw + t);
    hide HasClose;
    var s := raw + t;
    if i :| TraceFormat.OccursAt(raw, CLOSE_TEXT, i) && '\0' !in raw[..i] {
      assert s[i..i + |CLOSE_TEXT|] == raw[i..i + |CLOSE_TEXT|] && s[..i] == raw[..i];
      assert TraceFormat.OccursAt(s, CLOSE_TEXT, i);
    }
  }

  lemma RangeOk(env: Env, g: Gen)
    requires Inv(env, g)
    ensures InRange(env, g)
  {
  }

  /** Which closing token is next, and what has been put in before it. */
  lemma NextClosing(env: Env, g: Gen) returns (k: nat, r: string)
    requires Inv(env, g) && g.inThink && env.closeTokens != [] && |g.out| >= HardStart(env)
    ensures k == Slot(env, |g.out| - HardStart(env)) && g.forced == (if k == 0 then -1 else k)
    ensures g.raw == r + Spelled(env, env.closeTokens[..k])
    ensures g.out[HardStart(env)..] == Cycle(env, |g.out| - HardStart(env))
  {
    hide HasClose, Spelled, InfoOk, Slot;
    if |g.out| == HardStart(env) {
      k, r := 0, g.raw;
      FirstSlots(env, 0);
      NothingSpelled(env);
      assert g.raw + "" == g.raw;
    } else {
      k := Slot(env, |g.out| - HardStart(env));
      r :| g.raw == r + Spelled(env, env.closeTokens[..k]);
    }
  }

  lemma NothingSpelled(env: Env)
    ensures Spelled(env, env.closeTokens[..0]) == ""
  {
  }

  lemma NextSlot(env: Env, d: nat)
    requires env.closeTokens != []
    ensures Slot(env, d + 1) == if Slot(env, d) + 1 == |env.closeTokens| then 0 else Slot(env, d) + 1
  {
    var n := |env.closeTokens|;
    var q := d / n;
    assert d == q * n + d % n;
    if d % n + 1 == n {
      assert d + 1 == (q + 1) * n;
      MultipleMod(q + 1, 0, n);
    } else {
      MultipleMod(q, d % n + 1, n);
    }
  }

  lemma MultipleMod(q: nat, r: nat, n: nat)
    requires r < n
    ensures (q * n + r) % n == r
  {
    var m := q * n + r;
    var e := m / n - q;
    assert m == m / n * n + m % n;
    assert e * n == r - m % n;
    SmallMultiple(e, n);
  }

  lemma SmallMultiple(e: int, n: nat)
    ensures 0 - n < e * n < n ==> e == 0
  {
    if e > 0 { assert e * n >= n; }
    if e < 0 { assert e * n <= 0 - n; }
  }

  /** What a round in the reserve does. */
  lemma ReserveTakes(env: Env, g: Gen, k: nat)
    requires Ready(env) && env.closeTokens != [] && g.inThink && k < |env.closeTokens|
    requires HardStart(env) <= |g.out| && g.forced == (if k == 0 then -1 else k) && InRange(env, g)
    requires Round(env, g).Going? && InfoOk(env, g)
    requires k > 0 || |g.out| > HardStart(env) ==> g.close.kind != NoClose
    ensures var h, raw := Round(env, g).g, g.raw + env.text(env.closeTokens[k]);
      && h.out == g.out + [env.closeTokens[k]] && |h.out| <= env.limit && h.raw == raw
      && (h.inThink <==> !HasClose(raw)) && h.forced == (if k + 1 >= |env.closeTokens| then -1 else k + 1)
      && h.close.kind != NoClose && InfoOk(env, h)
  {
    hide HasClose, Spelled;
    assert env.closeTokens[k] in env.closeTokens;
  }

  /** In the reserve, thinking takes the next closing token, and ends with the last one exactly when
      there is no NUL in the text. */
  lemma RoundReserve(env: Env, g: Gen)
    requires Ready(env) && Inv(env, g) && g.inThink && env.closeTokens != [] && |g.out| >= HardStart(env)
    requires InRange(env, g) && Round(env, g).Going?
    ensures var h, k := Round(env, g).g, Slot(env, |g.out| - HardStart(env));
      && Inv(env, h) && h.out == g.out + [env.closeTokens[k]]
      && (h.inThink <==> k + 1 < |env.closeTokens| || '\0' in g.raw)
      && ('\0' in h.raw <==> '\0' in g.raw)
  {
    hide HasClose, Spelled, Cycle, Slot, Round, Closing, InfoOk, HardStart, Ready;
    var k, r := NextClosing(env, g);
    CloseOne(env, r, k);
    SpelledIsClean(env, k);
    assert '\0' in g.raw <==> '\0' in r;
    NotedInReserve(env, g);
    FirstSlots(env, 0);
    ReserveTakes(env, g, k);
    var h := Round(env, g).g;
    if h.inThink {
      ManyMeansNul(env, g);
      StaysClosing(env, g, h, k, r);
    }
  }

  lemma NotedInReserve(env: Env, g: Gen)
    requires Inv(env, g) && g.inThink && env.closeTokens != []
    ensures |g.out| > HardStart(env) ==> g.close.kind != NoClose
  {
    hide HasClose, ClosingAt;
  }

  /** Where all closing tokens have been put in, or only the last is missing, thinking goes on only
      with a NUL. */
  lemma ManyMeansNul(env: Env, g: Gen)
    requires Inv(env, g) && g.inThink && env.closeTokens != [] && |g.out| >= HardStart(env)
    ensures var d := |g.out| - HardStart(env);
      d + 1 >= |env.closeTokens| ==> Slot(env, d) + 1 == |env.closeTokens| || '\0' in g.raw
  {
    hide HasClose, Spelled, Cycle, InfoOk, Slot;
    var d: nat := |g.out| - HardStart(env);
    FirstSlots(env, d);
  }

  lemma StaysClosing(env: Env, g: Gen, h: Gen, k: nat, r: string)
    requires env.closeTokens != [] && |g.out| >= HardStart(env) && h.inThink && h.close.kind != NoClose
    requires k == Slot(env, |g.out| - HardStart(env))
    requires g.out[HardStart(env)..] == Cycle(env, |g.out| - HardStart(env))
    requires h.out == g.out + [env.closeTokens[k]] && h.raw == r + Spelled(env, env.closeTokens[..k + 1])
    requires h.forced == if k + 1 >= |env.closeTokens| then -1 else k + 1
    requires |g.out| - HardStart(env) + 1 >= |env.closeTokens| ==> '\0' in h.raw
    ensures Closing(env, h)
  {
    hide Spelled, Slot;
    var at := HardStart(env);
    var d := |g.out| - at;
    NextSlot(env, d);
    assert h.out[at..] == g.out[at..] + [env.closeTokens[k]];
    var next := Slot(env, d + 1);
    if next == 0 {
      NothingSpelled(env);
      assert h.raw == h.raw + Spelled(env, env.closeTokens[..next]);
    }
  }

  lemma RoundFree(env: Env, g: Gen)
    requires Ready(env) && Inv(env, g) && g.forced == -1 && Round(env, g).Going?
    requires !g.inThink || env.closeTokens == [] || |g.out| < HardStart(env)
    ensures Inv(env, Round(env, g).g)
  {
    hide HasClose, Spelled, ClosingAt;
  }

  lemma RoundKeepsInv(env: Env, g: Gen)
    requires Ready(env) && Inv(env, g)
    ensures InRange(env, g)
    ensures Round(env, g).Going? ==> Inv(env, Round(env, g).g) && |Round(env, g).g.out| == |g.out| + 1
  {
    hide HasClose, Spelled, Inv;
    RangeOk(env, g);
    if Round(env, g).Going? {
      if g.inThink && env.closeTokens != [] && |g.out| >= HardStart(env) {
        RoundReserve(env, g);
      } else {
        FreeOfClosing(env, g);
        RoundFree(env, g);
      }
    }
  }

  lemma FreeOfClosing(env: Env, g: Gen)
    requires Inv(env, g) && !(g.inThink && env.closeTokens != [] && |g.out| >= HardStart(env))
    ensures g.forced == -1
  {
    hide HasClose, ClosingAt;
  }

  // -------------------------------------------------------------------------- whole runs

  /** Where a case is after so many rounds. */
  ghost function After(env: Env, n: nat): (p: Progress)
    requires Ready(env)
    ensures Inv(env, p.g) || !p.Going?
  {
    if n == 0 then StartInv(env); Going(Start(env))
    else
      match After(env, n - 1)
      case Ended(o, g) => Ended(o, g)
      case Going(g) => RoundKeepsInv(env, g); Round(env, g)
  }

  lemma StartInv(env: Env)
    ensures Inv(env, Start(env))
  {
  }

  /** A token a round, and never more than the limit, whatever the sampler does. */
  lemma {:induction false} AfterCounts(env: Env, n: nat)
    requires Ready(env)
    ensures var p := After(env, n); |p.g.out| <= env.limit && (p.Going? ==> |p.g.out| == n)
  {
    hide Inv, Round;
    if n == 0 {
    } else {
      AfterCounts(env, n - 1);
      var p := After(env, n - 1);
      if p.Going? {
        RoundKeepsInv(env, p.g);
        RoundCounts(env, p.g);
      }
    }
  }

  lemma RoundCounts(env: Env, g: Gen)
    requires Ready(env) && Inv(env, g)
    ensures InRange(env, g) && |Round(env, g).g.out| <= env.limit
    ensures Round(env, g).Ended? ==> Round(env, g).g.out == g.out && Round(env, g).g.inThink == g.inThink
  {
    hide HasClose, Spelled;
  }

  lemma WasGoing(env: Env, n: nat)
    requires Ready(env) && After(env, n + 1).Going?
    ensures var p := After(env, n);
      p.Going? && Inv(env, p.g) && InRange(env, p.g) && After(env, n + 1) == Round(env, p.g)
  {
    hide Round, Inv;
    if After(env, n).Going? { RoundKeepsInv(env, After(env, n).g); }
  }

  lemma {:induction false} WasGoingBefore(env: Env, m: nat, n: nat)
    requires Ready(env) && m <= n && After(env, n).Going?
    ensures After(env, m).Going?
    decreases n
  {
    hide Round, Inv, After;
    if m < n {
      WasGoing(env, n - 1);
      WasGoingBefore(env, m, n - 1);
    }
  }

  /** A case that still thinks where the reserve begins: as long as it thinks it gets the closing tokens
      over and over, and it thinks until they have all been put in once, and with a NUL in its text for
      good. */
  lemma {:induction false} ReserveRun(env: Env, d: nat)
    requires Ready(env) && env.closeTokens != [] && After(env, HardStart(env) + d).Going?
    requires var p := After(env, HardStart(env)); p.Going? && p.g.inThink
    ensures var g, h := After(env, HardStart(env)).g, After(env, HardStart(env) + d).g;
      && (h.inThink <==> d < |env.closeTokens| || '\0' in g.raw)
      && (h.inThink || d <= |env.closeTokens| ==> h.out == g.out + Cycle(env, d))
      && (h.inThink ==> ('\0' in h.raw <==> '\0' in g.raw))
    decreases d
  {
    hide HasClose, Spelled, Round, InfoOk, After, Inv, Ready, Slot;
    var at := HardStart(env);
    var g := After(env, at).g;
    if d == 0 {
      assert g.out + [] == g.out;
    } else {
      WasGoing(env, at + d - 1);
      AfterCounts(env, at + d - 1);
      ReserveRun(env, d - 1);
      var f := After(env, at + d - 1).g;
      if f.inThink {
        RoundReserve(env, f);
        FirstSlots(env, d - 1);
        assert After(env, at + d).g.out == g.out + (Cycle(env, d - 1) + [env.closeTokens[Slot(env, d - 1)]]);
      } else {
        ThinkingIsOver(env, f);
      }
    }
  }

  lemma FirstSlots(env: Env, d: nat)
    requires env.closeTokens != []
    ensures d < |env.closeTokens| ==> Slot(env, d) == d
    ensures d == |env.closeTokens| ==> Slot(env, d) == 0
  {
  }

  lemma ThinkingIsOver(env: Env, g: Gen)
    requires InRange(env, g) && !g.inThink && Round(env, g).Going?
    ensures !Round(env, g).g.inThink
  {
    hide HasClose;
  }

  lemma {:induction false} CycleStarts(env: Env, k: nat)
    requires k <= |env.closeTokens| && env.closeTokens != []
    ensures Cycle(env, k) == env.closeTokens[..k]
  {
    if k > 0 {
      CycleStarts(env, k - 1);
      FirstSlots(env, k - 1);
    }
  }

  /** A case that still thinks when the reserve begins gets exactly the closing tokens next, and has
      then stopped thinking exactly when there was no NUL in its text. */
  lemma ClosedInTime(env: Env, k: nat)
    requires Ready(env) && k <= |env.closeTokens|
    requires var p := After(env, HardStart(env)); p.Going? && p.g.inThink
    requires After(env, HardStart(env) + k).Going?
    ensures var g, h := After(env, HardStart(env)).g, After(env, HardStart(env) + k).g;
      && h.out == g.out + env.closeTokens[..k]
      && (k < |env.closeTokens| ==> h.inThink)
      && (h.inThink ==> h.forced == if k == 0 || k == |env.closeTokens| then -1 else k)
      && (0 < k == |env.closeTokens| ==> (h.inThink <==> '\0' in g.raw))
  {
    hide HasClose, Spelled, Round, Inv, After, Ready, Cycle, Slot;
    var h := After(env, HardStart(env) + k).g;
    AfterCounts(env, HardStart(env) + k);
    if env.closeTokens != [] {
      ReserveRun(env, k);
      CycleStarts(env, k);
      FirstSlots(env, k);
      if h.inThink { var j, r := NextClosing(env, h); }
    } else {
      NeverForced(env, h);
    }
  }

  lemma NeverForced(env: Env, g: Gen)
    requires Inv(env, g) && env.closeTokens == []
    ensures g.forced == -1
  {
    hide HasClose, InfoOk;
  }

  /** What the limit leaves behind the start of the reserve. */
  function Reserve(env: Env): nat {
    if env.hard < 0 then 0 else if env.hard < env.limit then env.hard else env.limit
  }

  /** Once the closing tokens have had their turn a case thinks exactly when it did where the reserve
      began, with a NUL in its text; otherwise all that is left of the reserve is for the answer. */
  lemma AnswerReserve(env: Env, n: nat)
    requires Ready(env) && env.closeTokens != [] && After(env, n).Going?
    requires env.limit - n <= Reserve(env) - |env.closeTokens|
    ensures After(env, HardStart(env)).Going?
    ensures After(env, n).g.inThink <==>
              After(env, HardStart(env)).g.inThink && '\0' in After(env, HardStart(env)).g.raw
  {
    hide HasClose, Spelled, Inv, After, Ready, Round;
    AfterCounts(env, n);
    var at := HardStart(env);
    WasGoingBefore(env, at, n);
    if After(env, at).g.inThink { ReserveRun(env, n - at); } else { StaysOver(env, at, n); }
  }

  lemma {:induction false} StaysOver(env: Env, m: nat, n: nat)
    requires Ready(env) && m <= n && After(env, n).Going? && !After(env, m).g.inThink
    ensures !After(env, n).g.inThink
    decreases n
  {
    hide Inv, After, Round;
    if m < n {
      WasGoing(env, n - 1);
      StaysOver(env, m, n - 1);
      ThinkingIsOver(env, After(env, n - 1).g);
    }
  }

  /** Where no token holds a NUL, the reserve is for the answer, whatever the sampler does. */
  lemma CleanTokensClose(env: Env, n: nat)
    requires Ready(env) && env.closeTokens != [] && After(env, n).Going?
    requires env.limit - n <= Reserve(env) - |env.closeTokens| && forall t :: '\0' !in env.text(t)
    ensures !After(env, n).g.inThink
  {
    hide HasClose, Spelled, Inv, After, Ready;
    AnswerReserve(env, n);
    TextIsClean(env, HardStart(env));
  }

  lemma {:induction false} TextIsClean(env: Env, n: nat)
    requires Ready(env) && forall t :: '\0' !in env.text(t)
    ensures '\0' !in After(env, n).g.raw
  {
    hide HasClose, Inv, Ready;
    if n > 0 {
      TextIsClean(env, n - 1);
      if After(env, n - 1).Going? { RoundKeepsInv(env, After(env, n - 1).g); }
    }
  }

  /** For one: a single token spells the tag, and the sampler begins with a NUL. */
  function Stuck(): Env {
    Env(3, 2, 0, true, [1], 0, _ => 2, _ => 0, _ => 0, _ => true, _ => false, t => if t == 1 then CLOSE_TEXT else "\0")
  }

  /** The tag is put in twice, the whole reserve, and the case thinks to its end. */
  lemma NulSpendsReserve()
    ensures Ready(Stuck()) && HardStart(Stuck()) == 1 && Reserve(Stuck()) == 2
    ensures After(Stuck(), 3).Going? && After(Stuck(), 3).g.out == [2, 1, 1] && After(Stuck(), 3).g.inThink
  {
    hide HasClose, Inv, Round;
    var env := Stuck();
    assert env.closeTokens[..0] == [] && Spelled(env, []) == "";
    assert Spelled(env, env.closeTokens) == "" + CLOSE_TEXT == CLOSE_TEXT;
    StuckBegins();
    assert After(env, 0) == Going(Start(env));
    assert After(env, 1) == Round(env, Start(env));
    StuckGoesOn(After(env, 1).g);
    assert After(env, 2) == Round(env, After(env, 1).g);
    StuckGoesOn(After(env, 2).g);
    assert After(env, 3) == Round(env, After(env, 2).g);
  }

  lemma StuckBegins()
    ensures var p := Round(Stuck(), Start(Stuck())); p.Going? && p.g.inThink && p.g.out == [2] && p.g.raw == "\0"
  {
    hide HasClose;
    assert !HasClose("\0") by { CloseIsSeen("\0"); }
    assert "" + "\0" == "\0";
  }

  lemma StuckGoesOn(g: Gen)
    requires Inv(Stuck(), g) && g.inThink && '\0' in g.raw && 0 < |g.out| < 3
    ensures InRange(Stuck(), g)
    ensures var p := Round(Stuck(), g); p.Going? && p.g.inThink && p.g.out == g.out + [1] && '\0' in p.g.raw
  {
    hide HasClose, InfoOk, Spelled, ClosingAt;
    NulHides(g.raw, CLOSE_TEXT);
    var env := Stuck();
    RangeOk(env, g);
    if |g.out| > HardStart(env) { StuckForced(g); }
  }

  lemma StuckForced(g: Gen)
    requires Closing(Stuck(), g)
    ensures g.forced == -1
  {
    hide HasClose, Spelled;
  }

  /** A case that is not stopped by its user or a failing decoder ends at the limit, when it does not
      think, or because the end of its text could not be turned into the end of thinking. */
  lemma {:induction false} WhyItEnded(env: Env, n: nat)
    requires Ready(env)
    ensures var p := After(env, n);
      p.Ended? && p.outcome.Finished? ==> |p.g.out| == env.limit || !p.g.inThink || env.eosToClose(p.g.out) == env.eos
  {
    hide Inv, Spelled, HasClose;
    if n > 0 {
      WhyItEnded(env, n - 1);
      var p := After(env, n - 1);
      if p.Going? {
        RoundKeepsInv(env, p.g);
        AfterCounts(env, n - 1);
        EndsOutsideThinking(env, p.g);
      }
    }
  }

  lemma EndsOutsideThinking(env: Env, g: Gen)
    requires InRange(env, g) && |g.out| <= env.limit
    ensures var p := Round(env, g);
      p.Ended? && p.outcome.Finished? ==> |p.g.out| == env.limit || !p.g.inThink || env.eosToClose(p.g.out) == env.eos
  {
    hide HasClose;
  }

  // ---------------------------------------------------------------------------- the loop

  lemma {:induction false} EndedStays(env: Env, n: nat, m: nat)
    requires Ready(env) && n <= m && After(env, n).Ended?
    ensures After(env, m) == After(env, n)
    decreases m
  {
    hide Round, Inv;
    if n < m { EndedStays(env, n, m - 1); }
  }

  /** The controller of one round: it acts only while there is thinking. */
  method PickToken(env: Env, g: Gen) returns (token: nat, forced: int, kind: Kind, rank: nat)
    requires InRange(env, g)
    ensures Chosen(env, g) == Choice(token, forced, kind, rank)
  {
    var remaining := env.limit - |g.out|;
    var picked: int := -1;
    forced, kind, rank := g.forced, NoClose, 0;
    if g.inThink && |env.closeTokens| > 0 {
      if forced >= 0 {
        picked := env.closeTokens[forced];
        forced := forced + 1;
        if forced >= |env.closeTokens| { forced := -1; }
      } else if remaining <= env.hard {
        kind := Hard;
        picked := env.closeTokens[0];
        forced := if |env.closeTokens| > 1 then 1 else -1;
      } else if remaining <= env.soft && |env.closeTokens| == 1 {
        rank := env.closeRank(g.out);
        if rank > 0 {
          kind := Soft;
          picked := env.closeTokens[0];
        }
      }
    }
    if picked < 0 { picked := env.sample(g.out); }
    if picked == env.eos && g.inThink {
      picked := env.eosToClose(g.out);
      if picked != env.eos { kind := Eos; }
    }
    token := picked;
  }

  /** One round, up to the token that it takes or the end of the case. */
  method RunRound(env: Env, g: Gen) returns (p: Progress)
    requires InRange(env, g) && |g.out| < env.limit
    ensures p == Round(env, g)
  {
    hide HasClose, Wanted;
    if env.interrupted(g.out) { return Ended(Interrupted, g); }
    var remaining := env.limit - |g.out|;
    var token, forced, kind, rank := PickToken(env, g);
    if token == env.eos { return Ended(Finished, g); }
    var close := g.close;
    if kind != NoClose && close.kind == NoClose {
      close := CloseInfo(kind, |g.out| + 1, remaining, rank);
    }
    if !env.decodes(g.out + [token]) { return Ended(DecodeFailed, g.(forced := forced, close := close)); }
    var raw := g.raw + env.text(token);
    var inThink := g.inThink;
    if inThink && HasClose(raw) {
      inThink := false;
      if close.kind == NoClose { close := CloseInfo(Natural, |g.out| + 1, remaining, 0); }
    }
    return Going(Gen(g.out + [token], raw, inThink, forced, close));
  }

  method RunCase(env: Env) returns (outcome: Outcome, g: Gen)
    requires Ready(env)
    ensures After(env, env.limit + 1) == Ended(outcome, g)
  {
    hide Inv, Round;
    g := Start(env);
    var i := 0;
    while i < env.limit
      invariant i <= env.limit && i == |g.out|
      invariant After(env, i) == Going(g)
    {
      RoundKeepsInv(env, g);
      InvInRange(env, g);
      var p := RunRound(env, g);
      if p.Ended? {
        EndedStays(env, i + 1, env.limit + 1);
        return p.outcome, p.g;
      }
      RoundTakesOne(env, g);
      g := p.g;
      i := i + 1;
    }
    InvInRange(env, g);
    AtTheLimit(env, g);
    return Finished, g;
  }

  lemma InvInRange(env: Env, g: Gen)
    requires Inv(env, g)
    ensures InRange(env, g)
  {
  }

  lemma RoundTakesOne(env: Env, g: Gen)
    requires InRange(env, g)
    ensures var p := Round(env, g); p.Going? ==> |p.g.out| == |g.out| + 1
  {
  }

  lemma AtTheLimit(env: Env, g: Gen)
    requires InRange(env, g) && |g.out| >= env.limit
    ensures Round(env, g) == Ended(Finished, g)
  {
  }
}
