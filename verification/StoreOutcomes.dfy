/** What storing and looking up come to, spelled out for files as they are written. */
module StoreOutcomes {
  import opened CheckpointFile
  import opened Eviction
  import opened KvStore
  import opened Optional
  import opened PrefixLookup
  import opened Utf8

  // ------------------------------------------------------------------------- the header

  /** A number without its k lowest bytes. */
  function Shifted(v: nat, k: nat): nat {
    if k == 0 then v else Shifted(v / 256, k - 1)
  }

  /** Where everything is in a header, the lowest byte of every number first. */
  lemma HeaderLayout(h: Header)
    ensures var f := HeaderBytes(h);
      && f[..5] == [75, 86, 67, 1, h.quantBits] && f[5..8] == [h.reason, h.extFlags, h.modelId]
      && f[20..24] == [2, 0, 0, 0]
      && (forall i :: 0 <= i < 4 ==>
            && f[8 + i] as nat == Shifted(h.tokens, i) % 256 && f[12 + i] as nat == Shifted(h.hits, i) % 256
            && f[16 + i] as nat == Shifted(h.ctxSize, i) % 256)
      && (forall i :: 0 <= i < 8 ==>
            && f[24 + i] as nat == Shifted(h.createdAt, i) % 256 && f[32 + i] as nat == Shifted(h.lastUsed, i) % 256
            && f[40 + i] as nat == Shifted(h.payloadBytes, i) % 256)
  {
    hide LittleEndian, Shifted, HeaderBytes;
    HeaderParts(h);
    var f := HeaderBytes(h);
    assert f[..5] == f[..8][..5] && f[5..8] == f[..8][5..];
    NumberAt(f, 8, h.tokens, 4);
    NumberAt(f, 12, h.hits, 4);
    NumberAt(f, 16, h.ctxSize, 4);
    NumberAt(f, 24, h.createdAt, 8);
    NumberAt(f, 32, h.lastUsed, 8);
    NumberAt(f, 40, h.payloadBytes, 8);
  }

  lemma NumberAt(f: seq<byte>, at: nat, v: nat, size: nat)
    requires at + size <= |f| && f[at..at + size] == LittleEndian(v, size)
    ensures forall i :: 0 <= i < size ==> f[at + i] as nat == Shifted(v, i) % 256
  {
    forall i | 0 <= i < size ensures f[at + i] as nat == Shifted(v, i) % 256 {
      LowestFirst(v, size, i);
      assert f[at + i] == f[at..at + size][i];
    }
  }

  lemma {:induction false} LowestFirst(v: nat, size: nat, i: nat)
    requires i < size
    ensures LittleEndian(v, size)[i] as nat == Shifted(v, i) % 256
  {
    if i > 0 { LowestFirst(v / 256, size - 1, i - 1); }
  }

  /** A flag that is noted is set, and so is every flag that was; no other is. */
  lemma FlagsJoined(flags: byte, flag: byte, m: bv8)
    ensures (WithFlag(flags, flag) as bv8) & m == ((flags as bv8) & m) | ((flag as bv8) & m)
  {
    BackToBits((flags as bv8) | (flag as bv8));
    Distributes(flags as bv8, flag as bv8, m);
  }

  lemma BackToBits(v: bv8)
    ensures (v as byte) as bv8 == v
  {
  }

  lemma Distributes(a: bv8, b: bv8, m: bv8)
    ensures (a | b) & m == (a & m) | (b & m)
  {
  }

  // --------------------------------------------------------------------------- the names

  /** The hexadecimal digit that a character stands for. */
  predicate Digit(c: char, d: char) {
    exists k :: 0 <= k < 16 && d == "0123456789abcdef"[k] && (c == "0123456789abcdef"[k] || c == "0123456789ABCDEF"[k])
  }

  /** A name stands for a hash exactly if it is that, in digits of either case, with .kv behind. */
  lemma NameIsHash(name: string, sha: string)
    ensures ShaOfName(name) == Some(sha) <==>
              && |sha| == 40 && |name| == 43 && name[40..] == ".kv"
              && forall i :: 0 <= i < 40 ==> Digit(name[i], sha[i])
  {
    hide Digit, IsHex, Lower;
    if |name| == 43 && name[40..] == ".kv" && |sha| == 40 {
      forall i | 0 <= i < 40
        ensures Digit(name[i], sha[i]) <==> IsHex(name[i]) && Lower(name[i]) == sha[i]
      {
        DigitIsHex(name[i], sha[i]);
      }
      if ShaOfName(name).Some? && ShaOfName(name).value == sha {
        assert forall i :: 0 <= i < 40 ==> sha[i] == Lower(name[i]);
      }
      if forall i :: 0 <= i < 40 ==> Digit(name[i], sha[i]) {
        assert ShaOfName(name).value == sha;
      }
    }
  }

  lemma DigitIsHex(c: char, d: char)
    ensures Digit(c, d) <==> IsHex(c) && Lower(c) == d
  {
    var low, up := "0123456789abcdef", "0123456789ABCDEF";
    if IsHex(c) && Lower(c) == d {
      var k: int := if '0' <= c <= '9' then (c - '0') as int else (d - 'a') as int + 10;
      assert 0 <= k < 16 && d == low[k] && (c == low[k] || c == up[k]);
    }
  }

  // --------------------------------------------------------------------------- the sizes

  /** A file of n bytes fits a budget, if there is one, with a hundredth of its size to spare. */
  predicate FitsIn(budget: nat, n: nat) {
    n < 0x1_0000_0000_0000_0000
    && (budget == 0 || (101 * n <= 100 * budget && 101 * n <= 100 * 0xFFFF_FFFF_FFFF_FFFF))
  }

  lemma FitsIsFitsIn(budget: nat, text: nat, payload: nat, trailer: nat)
    ensures Fits(budget, text, payload, trailer) <==> FitsIn(budget, 52 + text + payload + trailer)
  {
  }

  /** How many bytes a request asks for. */
  function Asked(req: Request, trailer: nat): nat {
    52 + |req.text| + |req.payload| + trailer
  }

  /** What comes of storing where no file of the same text is kept. */
  lemma OutcomeIs(cfg: Config, dir: Dir, req: Request, listing: seq<string>, world: World)
    requires |req.text| < 0x1_0000_0000 && Store(cfg, dir, req, listing, world).1 != Outcome.Kept
    ensures var (estimated, taken) := (Asked(req, req.trailerEstimate), Asked(req, |req.trailer|));
      var outcome := Store(cfg, dir, req, listing, world).1;
      && (outcome == Outcome.Stored <==>
            FitsIn(cfg.budget, estimated) && FitsIn(cfg.budget, taken) && world.opens && world.writes && world.renames)
      && (outcome == TooBig <==>
            !FitsIn(cfg.budget, estimated) || (world.opens && world.writes && !FitsIn(cfg.budget, taken)))
  {
    hide Compatible, Cleared, Room, NewFile, Fits, Minus, Paths;
    FitsIsFitsIn(cfg.budget, |req.text|, |req.payload|, req.trailerEstimate);
    FitsIsFitsIn(cfg.budget, |req.text|, |req.payload|, |req.trailer|);
  }

  /** A file is kept instead of storing one exactly if it has the text and the model of the request, its
      quantisation where that matters, and no larger context. */
  lemma KeptWhen(cfg: Config, dir: Dir, req: Request, listing: seq<string>, world: World,
                 h: Header, text: seq<byte>, payload: seq<byte>, trailer: seq<byte>)
    requires |req.text| < 0x1_0000_0000 && Sound(h) && |text| < TWO_TO_32 && |payload| == h.payloadBytes
    requires |text| + |payload| < TWO_TO_64 - TEXT_AT
    requires var path := cfg.sha(req.text) + ".kv";
      path in dir && dir[path] == CheckpointFile.Stored(h, text, payload, trailer)
    ensures Store(cfg, dir, req, listing, world).1 == Outcome.Kept <==>
              && text == req.text && h.modelId == req.h.modelId && h.ctxSize <= req.h.ctxSize
              && (h.quantBits == req.h.quantBits || !cfg.rejectQuant)
  {
    hide ReadEntryFile, Cleared, Room, NewFile, Fits, Minus, Paths, CheckpointFile.Stored, RewriteTrailer;
    StoredReadsBack(h, text, payload, trailer);
  }

  /** Without a file of that name nothing is kept. */
  lemma NothingKept(cfg: Config, dir: Dir, req: Request, listing: seq<string>, world: World)
    requires cfg.sha(req.text) + ".kv" !in dir
    ensures Store(cfg, dir, req, listing, world).1 != Outcome.Kept
  {
    hide Cleared, Room, NewFile, Fits, Minus, Paths, RewriteTrailer;
  }

  /** What a stored file says: the request, never hit, created and used now. */
  lemma StoredSays(cfg: Config, dir: Dir, req: Request, listing: seq<string>, world: World)
    requires Store(cfg, dir, req, listing, world).1 == Outcome.Stored
    requires Sound(req.h.(hits := 0, createdAt := 0, lastUsed := 0, payloadBytes := 0)) && world.now < TWO_TO_64
    ensures var path := cfg.sha(req.text) + ".kv";
      var d := Store(cfg, dir, req, listing, world).0;
      && path in d && ReadEntryFile(d[path]).Some?
      && TextOf(d[path]) == req.text && PayloadOf(d[path]) == req.payload && TrailerOf(d[path]) == req.trailer
      && var h := ReadEntryFile(d[path]).value.0;
         && h.hits == 0 && h.createdAt == h.lastUsed == world.now && h.payloadBytes == |req.payload|
         && h.quantBits == req.h.quantBits && h.reason == req.h.reason && h.extFlags == req.h.extFlags
         && h.modelId == req.h.modelId && h.tokens == req.h.tokens && h.ctxSize == req.h.ctxSize
  {
    hide ReadEntryFile, Cleared, Room, Minus, Paths, CheckpointFile.Stored, Compatible, Required, Store;
    StoreMakes(cfg, dir, req, listing, world);
    StoredIsShort(cfg, dir, req, listing, world);
    StoredReadsBack(req.h.(hits := 0, createdAt := world.now, lastUsed := world.now, payloadBytes := |req.payload|),
                    req.text, req.payload, req.trailer);
  }

  lemma StoredIsShort(cfg: Config, dir: Dir, req: Request, listing: seq<string>, world: World)
    requires Store(cfg, dir, req, listing, world).1 == Outcome.Stored
    ensures |req.text| < TWO_TO_32
  {
    hide Cleared, Room, NewFile, Fits, Minus, Paths, RewriteTrailer, Compatible;
  }

  /** What becomes of the other files: they stay as they are or are deleted, and none is deleted where
      there is no budget. */
  lemma OthersStay(cfg: Config, dir: Dir, req: Request, listing: seq<string>, world: World, n: string)
    requires n != cfg.sha(req.text) + ".kv"
    ensures var d := Store(cfg, dir, req, listing, world).0;
      && (n in d ==> n in dir && d[n] == dir[n])
      && (n in dir && n !in d ==> cfg.budget > 0 && world.unlinks(n))
  {
    hide Index, Total, Evict, Compatible, NewFile, Fits, RewriteTrailer, ReadEntryFile, Scoring, Minus, Written;
    var cleared := Cleared(cfg, dir, req, world);
    var room := Room(cfg, cleared, Estimate(req), IncomingOf(cfg, req), listing, world);
    if cfg.budget > 0 && Estimate(req) <= cfg.budget && n in Paths(room.removed) {
      RemovedUnlink(Index(cleared, listing), Total(Index(cleared, listing)), cfg.budget - Estimate(req),
                    Scoring(world.now, cfg.decay, cfg.sha, IncomingOf(cfg, req)), world.unlinks, n);
    }
  }

  /** Where nothing is stored or kept, the file of that name is gone exactly if it was a checkpoint that
      could be deleted, and else as it was. A text of more than 32 bits leaves everything as it was. */
  lemma OwnFile(cfg: Config, dir: Dir, req: Request, listing: seq<string>, world: World)
    requires Store(cfg, dir, req, listing, world).1 == TooBig || Store(cfg, dir, req, listing, world).1 == Failed
    ensures |req.text| >= 0x1_0000_0000 ==> Store(cfg, dir, req, listing, world) == (dir, Failed)
    ensures var path, d := cfg.sha(req.text) + ".kv", Store(cfg, dir, req, listing, world).0;
      && (path in d ==> path in dir && d[path] == dir[path])
      && (|req.text| < 0x1_0000_0000 && path in dir ==>
            (path !in d <==> ReadEntryFile(dir[path]).Some? && world.unlinks(path)))
  {
    hide Index, Total, Evict, Compatible, NewFile, Fits, RewriteTrailer, ReadEntryFile, Scoring;
    var path, cleared := cfg.sha(req.text) + ".kv", Cleared(cfg, dir, req, world);
    var room := Room(cfg, cleared, Estimate(req), IncomingOf(cfg, req), listing, world);
    if cfg.budget > 0 && Estimate(req) <= cfg.budget && path in Paths(room.removed) {
      var es := Index(cleared, listing);
      var score := Scoring(world.now, cfg.decay, cfg.sha, IncomingOf(cfg, req));
      RemovedUnlink(es, Total(es), cfg.budget - Estimate(req), score, world.unlinks, path);
      RemovedIndexed(es, Total(es), cfg.budget - Estimate(req), score, world.unlinks, path);
    }
  }

  lemma RemovedIndexed(es: seq<Entry>, total: nat, target: nat, score: Scores, unlinks: string -> bool, n: string)
    requires n in Paths(Evict(es, total, target, score, unlinks).removed)
    ensures exists e :: e in es && e.path == n
  {
    hide Evict;
    EvictParts(es, total, target, score, unlinks);
    var removed := Evict(es, total, target, score, unlinks).removed;
    var i :| 0 <= i < |removed| && Paths(removed)[i] == n;
    assert removed[i] in multiset(removed);
    assert removed[i] in multiset(es);
  }

  lemma RemovedUnlink(es: seq<Entry>, total: nat, target: nat, score: Scores, unlinks: string -> bool, n: string)
    requires n in Paths(Evict(es, total, target, score, unlinks).removed)
    ensures unlinks(n)
  {
    hide Evict;
    EvictParts(es, total, target, score, unlinks);
    var removed := Evict(es, total, target, score, unlinks).removed;
    var i :| 0 <= i < |removed| && Paths(removed)[i] == n;
    assert removed[i] in removed;
  }

  /** What has to go for a request goes, from the start of the order, and no more than has to: with one
      file less deleted, what is there and what is asked for would be more than the budget. */
  lemma NoMoreThanNeeded(cfg: Config, dir: Dir, req: Request, listing: seq<string>, world: World)
    requires cfg.budget > 0 && Store(cfg, dir, req, listing, world).1 == Outcome.Stored
    requires AllUnlink(Index(Cleared(cfg, dir, req, world), listing), world.unlinks)
    ensures var cleared := Cleared(cfg, dir, req, world);
      var es, d := Index(cleared, listing), Store(cfg, dir, req, listing, world).0;
      var order := Order(cfg, cleared, req, listing, world.now);
      exists k: nat ::
        && k <= |order|
        && (forall n :: n != cfg.sha(req.text) + ".kv" ==> (n in d <==> n in cleared && n !in Paths(order[..k])))
        && Total(es) + Asked(req, req.trailerEstimate) <= cfg.budget + Total(order[..k])
        && (k > 0 ==> Total(es) + Asked(req, req.trailerEstimate) > cfg.budget + Total(order[..k - 1]))
  {
    hide Index, Total, Evict, Ranked, Cleared, NewFile, Fits, Paths, Required, Scoring, AllUnlink, Minus, Store;
    StoreMakes(cfg, dir, req, listing, world);
    FitsBudget(cfg.budget, |req.text|, |req.payload|, req.trailerEstimate);
    var es := Index(Cleared(cfg, dir, req, world), listing);
    var score := Scoring(world.now, cfg.decay, cfg.sha, IncomingOf(cfg, req));
    StartFits(es, cfg.budget - Estimate(req), score, world.unlinks);
    var k := |Evict(es, Total(es), cfg.budget - Estimate(req), score, world.unlinks).removed|;
    assert Ranked(es, score) == Order(cfg, Cleared(cfg, dir, req, world), req, listing, world.now);
  }

  lemma StartFits(es: seq<Entry>, target: nat, score: Scores, unlinks: string -> bool)
    requires AllUnlink(es, unlinks)
    ensures var removed, order := Evict(es, Total(es), target, score, unlinks).removed, Ranked(es, score);
      && |removed| <= |order| && removed == order[..|removed|] && Total(es) <= target + Total(removed)
      && (removed != [] ==> Total(es) > target + Total(order[..|removed| - 1]))
  {
    hide Total, Evict, Ranked, AllUnlink;
    EvictsAStart(es, target, score, unlinks);
    var removed := Evict(es, Total(es), target, score, unlinks).removed;
    var k := |removed|;
    if k > 0 {
      assert removed == removed[..k - 1] + [removed[k - 1]];
      TotalConcat(removed[..k - 1], [removed[k - 1]]);
      TotalOne(removed[k - 1]);
      assert Ranked(es, score)[..k - 1] == removed[..k - 1];
    }
  }

  /** The order in which files have to go for a request. */
  function Order(cfg: Config, dir: Dir, req: Request, listing: seq<string>, now: nat): seq<Entry> {
    var incoming := Incoming(req.text, req.h.modelId, req.h.quantBits, req.h.ctxSize, cfg.rejectQuant);
    Ranked(Index(dir, listing), Scoring(now, cfg.decay, cfg.sha, Some(incoming)))
  }

  // ------------------------------------------------------------------ what is superseded

  /** An entry of the given text counts as superseded exactly if it is a continued one and not empty,
      the incoming text goes on from it, with the same model, the same quantisation where that matters,
      and no larger context. */
  lemma WaypointGivesWay(e: Entry, text: seq<byte>, i: Incoming, sha: Hash, now: nat, decay: nat -> real)
    requires e.textBytes == |text| && e.sha == sha(text)
    requires forall k :: 0 <= k <= |i.text| && sha(i.text[..k]) == sha(text) ==> i.text[..k] == text
    ensures Scoring(now, decay, sha, Some(i))(e) == Score(e, now, decay,
              && e.h.reason == 2 && text != [] && text < i.text && e.h.modelId == i.modelId
              && (e.h.quantBits == i.quantBits || !i.rejectQuant) && e.h.ctxSize >= i.ctxSize)
    ensures Scoring(now, decay, sha, None)(e) == Score(e, now, decay, false)
  {
    hide Score;
    assert text < i.text ==> i.text[..|text|] == text;
  }

  // -------------------------------------------------------------------------- looking up

  /** A stored file is one that a prompt can continue from exactly if its text starts the prompt, its
      model is the one, its quantisation where that matters, its context no larger, and it has the
      tokens that are asked for, counted as a signed number. */
  lemma ContinuesFrom(dir: Dir, w: Wanted, sha: Hash, h: Header, text: seq<byte>, payload: seq<byte>,
                      trailer: seq<byte>)
    requires HexHash(sha) && NamedByText(dir, sha) && NoCollision(dir, w.prompt, sha)
    requires Sound(h) && |text| < TWO_TO_32 && |payload| == h.payloadBytes
    requires |text| + |payload| < TWO_TO_64 - TEXT_AT
    requires var name := sha(text) + ".kv"; name in dir && dir[name] == CheckpointFile.Stored(h, text, payload, trailer)
    ensures var name := sha(text) + ".kv";
      && EntryOf(dir, name).Some?
      && (Matches(EntryOf(dir, name).value, w, sha) <==>
            && text <= w.prompt && h.modelId == w.modelId && (h.quantBits == w.quantBits || !w.rejectQuant)
            && h.ctxSize <= w.ctxSize
            && (if h.tokens < 0x8000_0000 then h.tokens else h.tokens - 0x1_0000_0000) >= w.minTokens)
  {
    hide ReadEntryFile, CheckpointFile.Stored, HexHash, NamedByText, NoCollision, ShaOfName;
    StoredReadsBack(h, text, payload, trailer);
    NameStandsFor(sha, text);
    MatchIsPrefix(dir, sha(text) + ".kv", w, sha);
  }

  /** The best match is the longest, of those as long the one with the most tokens, and of those with as
      many the first. */
  lemma BestIsLongest(es: seq<Entry>, w: Wanted, sha: Hash, r: int, j: nat)
    requires IsBest(es, w, sha, r) && j < |es| && Matches(es[j], w, sha)
    ensures 0 <= r < |es| && Matches(es[r], w, sha)
    ensures || es[j].textBytes < es[r].textBytes
            || (es[j].textBytes == es[r].textBytes
                && (es[j].h.tokens < es[r].h.tokens || (es[j].h.tokens == es[r].h.tokens && r <= j)))
  {
    hide Matches;
  }

  /** What loading from a stored file comes to: nothing unless it has the model and its text, under the
      hash of the entry, starts the prompt, and its payload restores; a count of tokens other than that
      of the header is a corrupt file; otherwise the restored tokens and those of the rest. */
  lemma LoadIs(h: Header, text: seq<byte>, payload: seq<byte>, trailer: seq<byte>, e: Entry, w: Wanted, sha: Hash,
               en: Engine)
    requires Sound(h) && h.tokens < 0x8000_0000 && |text| < TWO_TO_32
    ensures var l := LoadText(CheckpointFile.Stored(h, text, payload, trailer), e, w, sha, en);
      var restored := en.restore(payload + trailer, h.payloadBytes);
      if h.modelId == w.modelId && text <= w.prompt && sha(text) == e.sha && restored.Some? then
        if |restored.value| == h.tokens
        then l == Loaded(h.tokens, restored.value + en.tokenize(w.prompt[|text|..])) else l == Corrupt
      else l == NotLoaded
  {
    hide LittleEndian, Number, HeaderBytes, Marked, Fields;
    var f := CheckpointFile.Stored(h, text, payload, trailer);
    HeaderIsRead(h, LittleEndian(|text|, 4) + text + payload + trailer);
    assert f == HeaderBytes(h) + (LittleEndian(|text|, 4) + text + payload + trailer);
    Powers();
    NumberBack(|text|, 4);
    assert f[48..52] == LittleEndian(|text|, 4);
    assert f[52..52 + |text|] == text && f[52 + |text|..] == payload + trailer;
    assert text <= w.prompt <==> |text| <= |w.prompt| && text == w.prompt[..|text|];
  }
}
