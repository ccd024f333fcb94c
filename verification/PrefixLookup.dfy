/** Finding the checkpoint that a prompt can continue from, and continuing from it. */
module PrefixLookup {
  import opened CheckpointFile
  import opened Eviction
  import opened KvStore
  import opened Optional
  import opened Utf8

  /** What a checkpoint is looked for with. */
  datatype Wanted = Wanted(
    prompt: seq<byte>, minTokens: int, modelId: byte, quantBits: byte, ctxSize: nat, rejectQuant: bool)

  /** A 32-bit count taken as a signed number. */
  function AsInt32(v: nat): int {
    if v >= 0x8000_0000 then v - 0x1_0000_0000 else v
  }

  predicate Eligible(e: Entry, w: Wanted) {
    && e.textBytes <= |w.prompt| && AsInt32(e.h.tokens) >= w.minTokens && e.h.modelId == w.modelId
    && e.h.ctxSize <= w.ctxSize && (w.rejectQuant ==> e.h.quantBits == w.quantBits)
  }

  /** An entry whose name says that its text starts the prompt. */
  predicate Matches(e: Entry, w: Wanted, sha: Hash) {
    Eligible(e, w) && sha(w.prompt[..e.textBytes]) == e.sha
  }

  predicate Better(a: Entry, b: Entry) {
    a.textBytes > b.textBytes || (a.textBytes == b.textBytes && a.h.tokens > b.h.tokens)
  }

  /** The best match of an index: the first of those than which none is better. */
  ghost predicate IsBest(es: seq<Entry>, w: Wanted, sha: Hash, r: int) {
    if r < 0 then forall j :: 0 <= j < |es| ==> !Matches(es[j], w, sha)
    else
      && r < |es| && Matches(es[r], w, sha)
      && (forall j :: 0 <= j < |es| && Matches(es[j], w, sha) ==> !Better(es[j], es[r]))
      && (forall j :: 0 <= j < r && Matches(es[j], w, sha) ==> Better(es[r], es[j]))
  }

  lemma BestIsUnique(es: seq<Entry>, w: Wanted, sha: Hash, r: int, s: int)
    requires IsBest(es, w, sha, r) && IsBest(es, w, sha, s)
    ensures r == s || (r < 0 && s < 0)
  {
  }

  /** Scanning an index, hashing only what would be better than what is there. */
  method FindBest(es: seq<Entry>, w: Wanted, sha: Hash) returns (best: int)
    ensures IsBest(es, w, sha, best)
  {
    best := -1;
    for i := 0 to |es|
      invariant best < i && IsBest(es[..i], w, sha, best)
    {
      ghost var before := best;
      assert es[..i + 1] == es[..i] + [es[i]];
      var e := es[i];
      if e.textBytes > |w.prompt| { continue; }
      if AsInt32(e.h.tokens) < w.minTokens { continue; }
      if e.h.modelId != w.modelId { continue; }
      if w.ctxSize < e.h.ctxSize { continue; }
      if w.rejectQuant && e.h.quantBits != w.quantBits { continue; }
      if best >= 0 {
        var b := es[best];
        if e.textBytes < b.textBytes { continue; }
        if e.textBytes == b.textBytes && e.h.tokens <= b.h.tokens { continue; }
      }
      if sha(w.prompt[..e.textBytes]) == e.sha { best := i; }
    }
    assert es[..|es|] == es;
  }

  // ------------------------------------------------------ the longest prefix that is stored

  /** Every file is named after its text. */
  ghost predicate NamedByText(dir: Dir, sha: Hash) {
    forall n :: n in dir && EntryOf(dir, n).Some? ==> EntryOf(dir, n).value.sha == sha(TextOf(dir[n]))
  }

  /** No two of the texts in question have the same hash. */
  ghost predicate NoCollision(dir: Dir, prompt: seq<byte>, sha: Hash) {
    forall n, k :: n in dir && EntryOf(dir, n).Some? && 0 <= k <= |prompt| && sha(prompt[..k]) == sha(TextOf(dir[n]))
      ==> TextOf(dir[n]) == prompt[..k]
  }

  /** The eligible files whose text starts the prompt. */
  ghost predicate StoredPrefix(dir: Dir, name: string, w: Wanted) {
    name in dir && EntryOf(dir, name).Some? && Eligible(EntryOf(dir, name).value, w) && TextOf(dir[name]) <= w.prompt
  }

  lemma MatchIsPrefix(dir: Dir, name: string, w: Wanted, sha: Hash)
    requires NamedByText(dir, sha) && NoCollision(dir, w.prompt, sha) && name in dir && EntryOf(dir, name).Some?
    ensures Matches(EntryOf(dir, name).value, w, sha) <==> StoredPrefix(dir, name, w)
  {
    hide ReadEntryFile;
    var e, text := EntryOf(dir, name).value, TextOf(dir[name]);
    assert |text| == e.textBytes;
    if Matches(e, w, sha) { assert text == w.prompt[..e.textBytes]; }
    if text <= w.prompt { assert text == w.prompt[..|text|]; }
  }

  lemma {:induction false} IndexHas(dir: Dir, listing: seq<string>, name: string)
    requires name in listing && EntryOf(dir, name).Some?
    ensures EntryOf(dir, name).value in Index(dir, listing)
  {
    hide EntryOf;
    if name != listing[0] { IndexHas(dir, listing[1..], name); }
  }

  /** Where the hash tells texts apart, the best match is the longest text stored that starts the
      prompt, and there is one whenever some text stored does. */
  lemma FindsLongest(dir: Dir, listing: seq<string>, w: Wanted, sha: Hash, r: int)
    requires NamedByText(dir, sha) && NoCollision(dir, w.prompt, sha) && Lists(dir, listing)
    requires IsBest(Index(dir, listing), w, sha, r)
    ensures r >= 0 ==> StoredPrefix(dir, Index(dir, listing)[r].path, w)
    ensures forall n :: StoredPrefix(dir, n, w) ==> r >= 0 && |TextOf(dir[n])| <= Index(dir, listing)[r].textBytes
  {
    hide ReadEntryFile;
    var es := Index(dir, listing);
    if r >= 0 {
      assert es[r] in es;
      MatchIsPrefix(dir, es[r].path, w, sha);
    }
    forall n | StoredPrefix(dir, n, w)
      ensures r >= 0 && |TextOf(dir[n])| <= es[r].textBytes
    {
      MatchIsPrefix(dir, n, w, sha);
      IndexHas(dir, listing, n);
      var e := EntryOf(dir, n).value;
      var j :| 0 <= j < |es| && es[j] == e;
      TextLength(dir, n);
    }
  }

  lemma TextLength(dir: Dir, n: string)
    requires n in dir && EntryOf(dir, n).Some?
    ensures |TextOf(dir[n])| == EntryOf(dir, n).value.textBytes
  {
    hide ReadEntryFile;
  }

  // --------------------------------------------------------------------------- loading

  /** The model: how tokens are spelled, how text is tokenised, and what a payload restores. */
  datatype Engine = Engine(
    spell: nat -> seq<byte>,
    tokenize: seq<byte> -> seq<nat>,
    restore: (seq<byte>, nat) -> Option<seq<nat>>)

  function Render(en: Engine, tokens: seq<nat>): seq<byte> {
    if tokens == [] then [] else en.spell(tokens[0]) + Render(en, tokens[1..])
  }

  ghost predicate Lossless(en: Engine) {
    forall s :: Render(en, en.tokenize(s)) == s
  }

  lemma {:induction false} RenderConcat(en: Engine, a: seq<nat>, b: seq<nat>)
    ensures Render(en, a + b) == Render(en, a) + Render(en, b)
  {
    if a == [] {
      assert a + b == b;
    } else {
      assert (a + b)[1..] == a[1..] + b;
      RenderConcat(en, a[1..], b);
    }
  }

  datatype Loaded = Loaded(tokens: nat, effective: seq<nat>) | NotLoaded | Corrupt

  /** Loading from a file: its text is checked against the prompt byte by byte, its payload restores
      the exact tokens, and only what follows the text is tokenised. */
  function LoadText(f: seq<byte>, e: Entry, w: Wanted, sha: Hash, en: Engine): Loaded {
    var r := ReadHeader(f);
    if r.None? then NotLoaded
    else
      var (h, n) := r.value;
      if h.modelId != w.modelId || n > |w.prompt| || |f| < TEXT_AT + n then NotLoaded
      else
        var text := f[TEXT_AT..TEXT_AT + n];
        if sha(text) != e.sha || text != w.prompt[..n] then NotLoaded
        else
          var tokens := en.restore(f[TEXT_AT + n..], h.payloadBytes);
          if tokens.None? then NotLoaded
          else if |tokens.value| != AsInt32(h.tokens) then Corrupt
          else Loaded(|tokens.value|, tokens.value + en.tokenize(w.prompt[n..]))
  }

  /** The tokens that a load works with spell the whole prompt, whether or not hashes collide, when
      the restored ones spell the text that they are stored under. */
  lemma LoadedSpellsPrompt(f: seq<byte>, e: Entry, w: Wanted, sha: Hash, en: Engine)
    requires Lossless(en) && LoadText(f, e, w, sha, en).Loaded?
    requires var (h, n) := ReadHeader(f).value; var tokens := en.restore(f[TEXT_AT + n..], h.payloadBytes);
      tokens.Some? && Render(en, tokens.value) == f[TEXT_AT..TEXT_AT + n]
    ensures var l := LoadText(f, e, w, sha, en);
      Render(en, l.effective) == w.prompt && l.tokens <= |l.effective|
  {
    hide Render, ReadHeader;
    var (h, n) := ReadHeader(f).value;
    var tokens := en.restore(f[TEXT_AT + n..], h.payloadBytes).value;
    RenderConcat(en, tokens, en.tokenize(w.prompt[n..]));
    assert w.prompt == w.prompt[..n] + w.prompt[n..];
  }

  // ----------------------------------------------------------- what is stored is found

  ghost predicate HexHash(sha: Hash) {
    forall s :: |sha(s)| == 40 && forall i :: 0 <= i < 40 ==> IsHex(sha(s)[i]) && Lower(sha(s)[i]) == sha(s)[i]
  }

  lemma NameStandsFor(sha: Hash, text: seq<byte>)
    requires HexHash(sha)
    ensures ShaOfName(sha(text) + ".kv") == Some(sha(text))
  {
    var name := sha(text) + ".kv";
    assert |sha(text)| == 40 && name[40..] == ".kv";
    assert forall i :: 0 <= i < 40 ==> name[i] == sha(text)[i];
    assert ShaOfName(name).Some?;
    assert ShaOfName(name).value == sha(text);
  }

  /** After a checkpoint has been stored, a prompt that its text starts continues from it, or from one
      that covers at least as much. */
  lemma StoredIsFound(cfg: Config, dir: Dir, req: Request, listing: seq<string>, world: World,
                      after: seq<string>, w: Wanted, r: int)
    requires HexHash(cfg.sha) && Store(cfg, dir, req, listing, world).1 == Outcome.Stored
    requires var h := req.h.(hits := 0, createdAt := world.now, lastUsed := world.now, payloadBytes := |req.payload|);
      Sound(h) && |req.text| + |req.payload| < TWO_TO_64 - TEXT_AT
    requires Lists(Store(cfg, dir, req, listing, world).0, after)
    requires req.text <= w.prompt && req.h.modelId == w.modelId && req.h.ctxSize <= w.ctxSize
    requires AsInt32(req.h.tokens) >= w.minTokens && (w.rejectQuant ==> req.h.quantBits == w.quantBits)
    requires IsBest(Index(Store(cfg, dir, req, listing, world).0, after), w, cfg.sha, r)
    ensures r >= 0 && Index(Store(cfg, dir, req, listing, world).0, after)[r].textBytes >= |req.text|
  {
    hide Index, Evict, Room, Compatible, Cleared, ReadEntryFile, Fits, HexHash, CheckpointFile.Stored, Sound;
    var d := Store(cfg, dir, req, listing, world).0;
    var path := PathFor(cfg, req.text);
    var h := req.h.(hits := 0, createdAt := world.now, lastUsed := world.now, payloadBytes := |req.payload|);
    assert d[path] == NewFile(req, world);
    NameStandsFor(cfg.sha, req.text);
    StoredReadsBack(h, req.text, req.payload, req.trailer);
    var e := EntryOf(d, path).value;
    assert path in after;
    IndexHas(d, after, path);
    assert w.prompt[..|req.text|] == req.text;
    assert Matches(e, w, cfg.sha);
    var es := Index(d, after);
    var j :| 0 <= j < |es| && es[j] == e;
  }

  // -------------------------------------------------------------- what keeps the names

  /** A request whose header can be written and read back. */
  predicate SoundRequest(req: Request) {
    Sound(req.h.(hits := 0, createdAt := 0, lastUsed := 0, payloadBytes := 0))
  }

  lemma FewerKeepNames(dir: Dir, names: seq<string>, sha: Hash)
    requires NamedByText(dir, sha)
    ensures NamedByText(Minus(dir, names), sha)
  {
    hide ReadEntryFile;
    var d := Minus(dir, names);
    forall n | n in d && EntryOf(d, n).Some? ensures EntryOf(d, n).value.sha == sha(TextOf(d[n])) {
      assert EntryOf(dir, n) == EntryOf(d, n);
    }
  }

  /** One file changed, which is not indexed or named after its text. */
  lemma OneKeepsNames(dir: Dir, path: string, file: seq<byte>, sha: Hash)
    requires NamedByText(dir, sha)
    requires ReadEntryFile(file).Some? && ShaOfName(path).Some? ==> ShaOfName(path).value == sha(TextOf(file))
    ensures NamedByText(dir[path := file], sha)
  {
    hide ReadEntryFile, ShaOfName;
    var d := dir[path := file];
    forall n | n in d && EntryOf(d, n).Some? ensures EntryOf(d, n).value.sha == sha(TextOf(d[n])) {
      if n != path { assert EntryOf(dir, n) == EntryOf(d, n); }
    }
  }

  /** Every outcome of a store keeps files named after their text. */
  lemma StoreKeepsNames(cfg: Config, dir: Dir, req: Request, listing: seq<string>, world: World)
    requires HexHash(cfg.sha) && NamedByText(dir, cfg.sha) && SoundRequest(req) && world.now < TWO_TO_64
    ensures NamedByText(Store(cfg, dir, req, listing, world).0, cfg.sha)
  {
    hide ReadEntryFile, Compatible, Room, Fits, NewFile, RewriteTrailer, Minus, NamedByText, HexHash,
      SoundRequest, Paths;
    var path := PathFor(cfg, req.text);
    if |req.text| <= UINT32_MAX {
      if Compatible(cfg, dir, req) {
        if req.trailerEstimate != 0 && world.opens { RewriteKeepsNames(cfg, dir, req, world); }
      } else {
        var cleared := Cleared(cfg, dir, req, world);
        FewerKeepNames(dir, [path], cfg.sha);
        var room := Room(cfg, cleared, Estimate(req), IncomingOf(cfg, req), listing, world);
        FewerKeepNames(cleared, Paths(room.removed), cfg.sha);
        if Fits(cfg.budget, |req.text|, |req.payload|, |req.trailer|) {
          NewKeepsNames(cfg, Minus(cleared, Paths(room.removed)), req, world);
        }
      }
    }
  }

  lemma RewriteKeepsNames(cfg: Config, dir: Dir, req: Request, world: World)
    requires HexHash(cfg.sha) && NamedByText(dir, cfg.sha) && world.now < TWO_TO_64 && Compatible(cfg, dir, req)
    ensures var path := PathFor(cfg, req.text);
      var file := RewriteTrailer(dir[path], Written(req, world), world.writes, req.flag, world.now);
      NamedByText(dir[path := file], cfg.sha)
  {
    hide ReadEntryFile, RewriteTrailer, NamedByText, HexHash, Written, ShaOfName;
    var path := PathFor(cfg, req.text);
    var was, written := dir[path], Written(req, world);
    NameStandsFor(cfg.sha, req.text);
    if PayloadEnd(was) <= INT64_MAX {
      RewriteKeeps(was, written, world.writes, req.flag, world.now);
    } else {
      NotRewritten(was, written, world.writes, req.flag, world.now);
    }
    OneKeepsNames(dir, path, RewriteTrailer(was, written, world.writes, req.flag, world.now), cfg.sha);
  }

  lemma NewKeepsNames(cfg: Config, dir: Dir, req: Request, world: World)
    requires HexHash(cfg.sha) && NamedByText(dir, cfg.sha) && SoundRequest(req) && world.now < TWO_TO_64
    requires |req.text| <= UINT32_MAX && Fits(cfg.budget, |req.text|, |req.payload|, |req.trailer|)
    ensures NamedByText(dir[PathFor(cfg, req.text) := NewFile(req, world)], cfg.sha)
  {
    hide ReadEntryFile, NamedByText, HexHash, ShaOfName, CheckpointFile.Stored, Required;
    NameStandsFor(cfg.sha, req.text);
    StoredReadsBack(req.h.(hits := 0, createdAt := world.now, lastUsed := world.now, payloadBytes := |req.payload|),
                    req.text, req.payload, req.trailer);
    OneKeepsNames(dir, PathFor(cfg, req.text), NewFile(req, world), cfg.sha);
  }

  lemma TouchKeepsNames(dir: Dir, name: string, hits: nat, now: nat, sha: Hash)
    requires NamedByText(dir, sha) && name in dir && hits < TWO_TO_32 && now < TWO_TO_64
    ensures NamedByText(dir[name := Touch(dir[name], hits, now)], sha)
  {
    hide ReadHeader, Touch, ShaOfName;
    var f := dir[name];
    var g := Touch(f, hits, now);
    if ReadHeader(f).None? {
      TouchNothing(f, hits, now);
    } else {
      TouchReads(f, hits, now);
      if ReadEntryFile(g).Some? {
        var n := ReadHeader(f).value.1;
        assert TextOf(g) == g[FIXED_HEADER..][4..4 + n] == f[FIXED_HEADER..][4..4 + n] == TextOf(f);
        if ShaOfName(name).Some? { assert EntryOf(dir, name).Some?; }
      }
    }
    hide NamedByText, ReadEntryFile;
    OneKeepsNames(dir, name, g, sha);
  }

  lemma TouchNothing(f: seq<byte>, hits: nat, now: nat)
    requires ReadHeader(f).None?
    ensures Touch(f, hits, now) == f
  {
    hide ReadHeader;
  }

  /** What the program does to a directory: it stores, notes that a file was used, and deletes one whose
      payload turns out to be corrupt. */
  datatype Change =
    | Stores(req: Request, listing: seq<string>, world: World)
    | Touches(name: string, hits: nat, now: nat)
    | Deletes(name: string)

  predicate ChangeOk(c: Change) {
    match c
    case Stores(req, _, world) => SoundRequest(req) && world.now < TWO_TO_64
    case Touches(_, hits, now) => hits < TWO_TO_32 && now < TWO_TO_64
    case Deletes(_) => true
  }

  function Changed(cfg: Config, dir: Dir, c: Change): Dir {
    match c
    case Stores(req, listing, world) => Store(cfg, dir, req, listing, world).0
    case Touches(name, hits, now) => if name in dir then dir[name := Touch(dir[name], hits, now)] else dir
    case Deletes(name) => Minus(dir, [name])
  }

  function AfterChanges(cfg: Config, dir: Dir, cs: seq<Change>): Dir
    decreases |cs|
  {
    if cs == [] then dir else AfterChanges(cfg, Changed(cfg, dir, cs[0]), cs[1..])
  }

  lemma {:induction false} ChangesKeepNames(cfg: Config, dir: Dir, cs: seq<Change>)
    requires HexHash(cfg.sha) && NamedByText(dir, cfg.sha) && forall c :: c in cs ==> ChangeOk(c)
    ensures NamedByText(AfterChanges(cfg, dir, cs), cfg.sha)
    decreases |cs|
  {
    hide NamedByText, HexHash, Store, Touch, Minus, SoundRequest;
    if cs != [] {
      assert ChangeOk(cs[0]);
      match cs[0] {
        case Stores(req, listing, world) => StoreKeepsNames(cfg, dir, req, listing, world);
        case Touches(name, hits, now) => if name in dir { TouchKeepsNames(dir, name, hits, now, cfg.sha); }
        case Deletes(name) => FewerKeepNames(dir, [name], cfg.sha);
      }
      ChangesKeepNames(cfg, Changed(cfg, dir, cs[0]), cs[1..]);
    }
  }

  lemma NothingIsNamed(sha: Hash)
    ensures NamedByText(map[], sha)
  {
  }

  /** So in every directory that comes from an empty one, the best match is the longest text stored that
      starts the prompt, as far as the hash tells texts apart. */
  lemma FindsLongestEver(cfg: Config, cs: seq<Change>, listing: seq<string>, w: Wanted, r: int)
    requires HexHash(cfg.sha) && forall c :: c in cs ==> ChangeOk(c)
    requires var dir := AfterChanges(cfg, map[], cs);
      NoCollision(dir, w.prompt, cfg.sha) && Lists(dir, listing) && IsBest(Index(dir, listing), w, cfg.sha, r)
    ensures var dir := AfterChanges(cfg, map[], cs);
      && (r >= 0 ==> StoredPrefix(dir, Index(dir, listing)[r].path, w))
      && forall n :: StoredPrefix(dir, n, w) ==> r >= 0 && |TextOf(dir[n])| <= Index(dir, listing)[r].textBytes
  {
    hide ReadEntryFile, NamedByText, HexHash, AfterChanges, ChangeOk, Matches;
    NothingIsNamed(cfg.sha);
    ChangesKeepNames(cfg, map[], cs);
    FindsLongest(AfterChanges(cfg, map[], cs), listing, w, cfg.sha, r);
  }
}
