/** The directory of checkpoints: its index, its eviction, and storing into it. The file system is a
    map from names to contents; what it lists and what it lets be deleted are parameters. */
module KvStore {
  import opened CheckpointFile
  import opened Eviction
  import opened Optional
  import opened Utf8

  type Dir = map<string, seq<byte>>

  const UINT64_MAX: nat := 0xFFFF_FFFF_FFFF_FFFF
  const UINT32_MAX: nat := 0xFFFF_FFFF

  // ---------------------------------------------------------------------------- index

  predicate IsHex(c: char) {
    '0' <= c <= '9' || 'a' <= c <= 'f' || 'A' <= c <= 'F'
  }

  function Lower(c: char): char {
    if 'A' <= c <= 'F' then c - 'A' + 'a' else c
  }

  /** The hash that a file name stands for. */
  function ShaOfName(name: string): Option<string> {
    if |name| != 43 || name[40..] != ".kv" then None
    else if forall i :: 0 <= i < 40 ==> IsHex(name[i])
    then Some(seq(40, i requires 0 <= i < 40 => if i < |name| then Lower(name[i]) else '0'))
    else None
  }

  function EntryOf(dir: Dir, name: string): (e: Option<Entry>)
    ensures e.Some? ==> name in dir && e.value.path == name && e.value.fileSize == |dir[name]|
  {
    if name !in dir || ShaOfName(name).None? then None
    else
      var r := ReadEntryFile(dir[name]);
      if r.None? then None
      else Some(Entry(ShaOfName(name).value, name, r.value.0, r.value.1, |dir[name]|))
  }

  /** The indexed files of a listing, in its order. */
  function Index(dir: Dir, listing: seq<string>): (es: seq<Entry>)
    ensures forall e :: e in es ==> e.path in listing && EntryOf(dir, e.path) == Some(e)
  {
    if listing == [] then []
    else
      var e := EntryOf(dir, listing[0]);
      (if e.Some? then [e.value] else []) + Index(dir, listing[1..])
  }

  function NoDuplicates(s: seq<string>): bool {
    forall i, j :: 0 <= i < j < |s| ==> s[i] != s[j]
  }

  /** A listing names every file once. */
  ghost predicate Lists(dir: Dir, listing: seq<string>) {
    NoDuplicates(listing) && forall n :: n in listing <==> n in dir
  }

  /** What a file counts for. */
  function SizeOf(dir: Dir, name: string): nat {
    var e := EntryOf(dir, name);
    if e.Some? then e.value.fileSize else 0
  }

  function SizeOfAll(dir: Dir, names: seq<string>): nat {
    if names == [] then 0 else SizeOf(dir, names[0]) + SizeOfAll(dir, names[1..])
  }

  lemma {:induction false} IndexTotal(dir: Dir, listing: seq<string>)
    ensures Total(Index(dir, listing)) == SizeOfAll(dir, listing)
  {
    if listing != [] {
      hide EntryOf;
      IndexTotal(dir, listing[1..]);
      var e := EntryOf(dir, listing[0]);
      if e.Some? { assert ([e.value] + Index(dir, listing[1..]))[1..] == Index(dir, listing[1..]); }
      else { assert [] + Index(dir, listing[1..]) == Index(dir, listing[1..]); }
    }
  }

  lemma {:induction false} SizeConcat(dir: Dir, a: seq<string>, b: seq<string>)
    ensures SizeOfAll(dir, a + b) == SizeOfAll(dir, a) + SizeOfAll(dir, b)
  {
    if a == [] {
      assert a + b == b;
    } else {
      assert (a + b)[1..] == a[1..] + b;
      SizeConcat(dir, a[1..], b);
    }
  }

  /** Files that are all among others count for no more than these. */
  lemma {:induction false} SizeOfPart(dir: Dir, part: seq<string>, whole: seq<string>)
    requires NoDuplicates(part) && forall n :: n in part ==> n in whole
    ensures SizeOfAll(dir, part) <= SizeOfAll(dir, whole)
    decreases |part|
  {
    hide SizeOf;
    if part != [] {
      var n := part[0];
      assert n in whole;
      var k :| 0 <= k < |whole| && whole[k] == n;
      var others := whole[..k] + whole[k + 1..];
      assert whole == whole[..k] + ([n] + whole[k + 1..]);
      assert ([n] + whole[k + 1..])[1..] == whole[k + 1..];
      SizeConcat(dir, whole[..k], [n] + whole[k + 1..]);
      SizeConcat(dir, whole[..k], whole[k + 1..]);
      forall m | m in part[1..] ensures m in others {
        var j :| 0 <= j < |part| - 1 && part[1..][j] == m;
        assert part[j + 1] == m && part[0] != part[j + 1];
        assert m in part && m in whole;
        var i :| 0 <= i < |whole| && whole[i] == m;
        assert i != k;
        assert if i < k then others[i] == m else others[i - 1] == m;
      }
      SizeOfPart(dir, part[1..], others);
    }
  }

  function Paths(es: seq<Entry>): (p: seq<string>)
    ensures |p| == |es| && forall i :: 0 <= i < |es| ==> p[i] == es[i].path
  {
    if es == [] then [] else [es[0].path] + Paths(es[1..])
  }

  lemma {:induction false} PathsTotal(dir: Dir, es: seq<Entry>)
    requires forall e :: e in es ==> EntryOf(dir, e.path) == Some(e)
    ensures SizeOfAll(dir, Paths(es)) == Total(es)
  {
    if es != [] {
      assert es[0] in es;
      PathsTotal(dir, es[1..]);
      assert Paths(es)[1..] == Paths(es[1..]);
    }
  }

  ghost predicate DistinctPaths(es: seq<Entry>) {
    forall i, j :: 0 <= i < j < |es| ==> es[i].path != es[j].path
  }

  lemma {:induction false} IndexDistinct(dir: Dir, listing: seq<string>)
    requires NoDuplicates(listing)
    ensures DistinctPaths(Index(dir, listing))
  {
    if listing != [] {
      IndexDistinct(dir, listing[1..]);
      var es := Index(dir, listing[1..]);
      forall k | 0 <= k < |es| ensures es[k].path != listing[0] {
        assert es[k] in es;
        assert es[k].path in listing[1..];
      }
    }
  }

  // ------------------------------------------------------------------------- eviction

  /** A checkpoint about to be stored. */
  datatype Incoming = Incoming(text: seq<byte>, modelId: byte, quantBits: byte, ctxSize: nat, rejectQuant: bool)

  type Hash = seq<byte> -> string

  /** A routine waypoint on the way to the incoming checkpoint, which serves wherever it did. */
  predicate Supersedes(e: Entry, incoming: Option<Incoming>, sha: Hash) {
    incoming.Some? &&
    var i := incoming.value;
    && e.h.reason == REASON_CONTINUED && 0 < e.textBytes < |i.text| && e.h.modelId == i.modelId
    && (i.rejectQuant ==> e.h.quantBits == i.quantBits) && i.ctxSize <= e.h.ctxSize
    && sha(i.text[..e.textBytes]) == e.sha
  }

  function Scoring(now: nat, decay: nat -> real, sha: Hash, incoming: Option<Incoming>): Scores {
    (e: Entry) => Score(e, now, decay, Supersedes(e, incoming, sha))
  }

  function Minus(dir: Dir, names: seq<string>): (d: Dir)
    ensures forall n :: n in d <==> n in dir && n !in names
    ensures forall n :: n in d ==> d[n] == dir[n]
  {
    map n | n in dir && n !in names :: dir[n]
  }

  /** Whatever is listed after an eviction counts for no more than its index says is left, when all
      that was chosen could be deleted. */
  lemma EvictedDirFits(dir: Dir, listing: seq<string>, target: nat, score: Scores,
                       unlinks: string -> bool, after: seq<string>)
    requires NoDuplicates(listing) && AllUnlink(Index(dir, listing), unlinks) && NoDuplicates(after)
    requires var r := Evict(Index(dir, listing), Total(Index(dir, listing)), target, score, unlinks);
      forall n :: n in after ==> n in listing && n !in Paths(r.removed)
    ensures SizeOfAll(dir, after) <= target
  {
    hide SizeOf, SizeOfAll, EntryOf, Evict, Total, Index, Paths;
    var es := Index(dir, listing);
    var r := Evict(es, Total(es), target, score, unlinks);
    EvictsAStart(es, target, score, unlinks);
    EvictParts(es, Total(es), target, score, unlinks);
    RemovedAreIndexed(es, r);
    PathsTotal(dir, r.removed);
    IndexTotal(dir, listing);
    IndexDistinct(dir, listing);
    RemovedDistinct(es, r);
    PathsListed(dir, listing, r.removed);
    SizeOfTwo(dir, after, Paths(r.removed), listing);
  }

  lemma PathsListed(dir: Dir, listing: seq<string>, removed: seq<Entry>)
    requires forall e :: e in removed ==> e in Index(dir, listing)
    ensures forall n :: n in Paths(removed) ==> n in listing
  {
    forall n | n in Paths(removed) ensures n in listing {
      var i :| 0 <= i < |removed| && Paths(removed)[i] == n;
      assert removed[i] in removed;
    }
  }

  lemma SizeOfTwo(dir: Dir, a: seq<string>, b: seq<string>, whole: seq<string>)
    requires NoDuplicates(a) && NoDuplicates(b) && forall n :: n in a ==> n in whole && n !in b
    requires forall n :: n in b ==> n in whole
    ensures SizeOfAll(dir, a) + SizeOfAll(dir, b) <= SizeOfAll(dir, whole)
  {
    hide SizeOfAll;
    var all := a + b;
    forall i, j | 0 <= i < j < |all| ensures all[i] != all[j] {
      if i < |a| <= j { assert a[i] in a && all[j] == b[j - |a|] && b[j - |a|] in b; }
    }
    SizeOfPart(dir, all, whole);
    SizeConcat(dir, a, b);
  }

  lemma RemovedAreIndexed(es: seq<Entry>, r: Evicted)
    requires r.failed.None? && multiset(es) == multiset(r.left) + multiset(r.removed) + multiset{}
    ensures forall e :: e in r.removed ==> e in es
  {
    forall e | e in r.removed ensures e in es {
      assert e in multiset(r.removed);
      assert e in multiset(es);
    }
  }

  lemma RemovedDistinct(es: seq<Entry>, r: Evicted)
    requires DistinctPaths(es)
    requires r.failed.None? && multiset(es) == multiset(r.left) + multiset(r.removed) + multiset{}
    ensures NoDuplicates(Paths(r.removed))
  {
    var p := Paths(r.removed);
    forall i, j | 0 <= i < j < |p| ensures p[i] != p[j] {
      if r.removed[i] == r.removed[j] {
        Twice(r.removed, i, j);
        Once(es, r.removed[i]);
      } else {
        assert r.removed[i] in multiset(r.removed) && r.removed[j] in multiset(r.removed);
        assert r.removed[i] in multiset(es) && r.removed[j] in multiset(es);
        assert r.removed[i] in es && r.removed[j] in es;
      }
    }
  }

  lemma Twice(s: seq<Entry>, i: nat, j: nat)
    requires i < j < |s| && s[i] == s[j]
    ensures multiset(s)[s[i]] >= 2
  {
    assert s == s[..i] + [s[i]] + s[i + 1..];
    assert s[i + 1..][j - i - 1] == s[j];
    assert s[j] in multiset(s[i + 1..]);
  }

  lemma {:induction false} Once(es: seq<Entry>, e: Entry)
    requires DistinctPaths(es)
    ensures multiset(es)[e] <= 1
    decreases |es|
  {
    if es != [] {
      var rest := es[1..];
      assert es == [es[0]] + rest;
      Once(rest, e);
      forall k | 0 <= k < |rest| ensures rest[k] != es[0] {
        assert es[k + 1].path != es[0].path;
      }
    }
  }

  // -------------------------------------------------------------------------- storing

  /** The size of a file, unless it does not fit 64 bits. */
  function FileSize(text: nat, payload: nat, trailer: nat): Option<nat> {
    if UINT64_MAX < TEXT_AT + text + payload + trailer then None else Some(TEXT_AT + text + payload + trailer)
  }

  /** The size with a hundredth for safety. */
  function Required(file: nat): Option<nat> {
    var slack := file / 100 + if file % 100 != 0 then 1 else 0;
    if UINT64_MAX - file < slack then None else Some(file + slack)
  }

  /** Whether a file fits the budget; a budget of zero is no limit. */
  predicate Fits(budget: nat, text: nat, payload: nat, trailer: nat) {
    var size := FileSize(text, payload, trailer);
    size.Some? && (budget == 0 || (var needed := Required(size.value); needed.Some? && needed.value <= budget))
  }

  lemma FitsBudget(budget: nat, text: nat, payload: nat, trailer: nat)
    requires Fits(budget, text, payload, trailer) && budget > 0
    ensures TEXT_AT + text + payload + trailer <= budget
  {
  }

  /** How a store is set up. */
  datatype Config = Config(budget: nat, rejectQuant: bool, sha: Hash, decay: nat -> real)

  /** What is to be stored: h says all but its times. */
  datatype Request = Request(
    h: Header, text: seq<byte>, payload: seq<byte>, trailerEstimate: nat, trailer: seq<byte>, flag: byte)

  /** What the file system does: which files can be deleted, whether the file that is written can be
      opened, whether writing it succeeds or how many bytes it leaves when it fails, and renaming. */
  datatype World = World(now: nat, unlinks: string -> bool, opens: bool, writes: bool, partial: nat, renames: bool)

  datatype Outcome = Kept | TooBig | Failed | Stored

  function PathFor(cfg: Config, text: seq<byte>): string {
    cfg.sha(text) + ".kv"
  }

  /** A file that already holds this text for this model. */
  predicate Compatible(cfg: Config, dir: Dir, req: Request) {
    var path := PathFor(cfg, req.text);
    path in dir && ReadEntryFile(dir[path]).Some? &&
    var h := ReadEntryFile(dir[path]).value.0;
    && h.modelId == req.h.modelId && (cfg.rejectQuant ==> h.quantBits == req.h.quantBits)
    && h.ctxSize <= req.h.ctxSize && |req.text| <= UINT32_MAX && TextOf(dir[path]) == req.text
  }

  /** The directory once an incompatible file of the same name has been deleted. */
  function Cleared(cfg: Config, dir: Dir, req: Request, world: World): Dir {
    var path := PathFor(cfg, req.text);
    if path in dir && ReadEntryFile(dir[path]).Some? && world.unlinks(path) then Minus(dir, [path]) else dir
  }

  function IncomingOf(cfg: Config, req: Request): Option<Incoming> {
    Some(Incoming(req.text, req.h.modelId, req.h.quantBits, req.h.ctxSize, cfg.rejectQuant))
  }

  /** The outcome of making room for so many bytes. */
  function Room(cfg: Config, dir: Dir, extra: nat, incoming: Option<Incoming>,
                listing: seq<string>, world: World): Evicted {
    if cfg.budget == 0 || extra > cfg.budget then Evicted([], [], None)
    else
      var es := Index(dir, listing);
      Evict(es, Total(es), cfg.budget - extra, Scoring(world.now, cfg.decay, cfg.sha, incoming), world.unlinks)
  }

  /** What a new file is estimated to take. */
  function Estimate(req: Request): nat {
    TEXT_AT + |req.text| + |req.payload| + req.trailerEstimate
  }

  /** What is written of a trailer: all of it, or a start where writing fails. */
  function Written(req: Request, world: World): (w: seq<byte>)
    ensures w <= req.trailer && (world.writes ==> w == req.trailer)
  {
    if world.writes || world.partial >= |req.trailer| then req.trailer else req.trailer[..world.partial]
  }

  function NewFile(req: Request, world: World): seq<byte> {
    var h := req.h.(hits := 0, createdAt := world.now, lastUsed := world.now, payloadBytes := |req.payload|);
    CheckpointFile.Stored(h, req.text, req.payload, req.trailer)
  }

  /** Storing a checkpoint; the listing is that of the directory once it was cleared. */
  function Store(cfg: Config, dir: Dir, req: Request, listing: seq<string>, world: World): (Dir, Outcome) {
    var path := PathFor(cfg, req.text);
    if |req.text| > UINT32_MAX then (dir, Failed)
    else if Compatible(cfg, dir, req) then
      (if req.trailerEstimate == 0 || !world.opens then dir
       else dir[path := RewriteTrailer(dir[path], Written(req, world), world.writes, req.flag, world.now)], Kept)
    else
      var cleared := Cleared(cfg, dir, req, world);
      if !Fits(cfg.budget, |req.text|, |req.payload|, req.trailerEstimate) then (cleared, TooBig)
      else
        var room := Room(cfg, cleared, Estimate(req), IncomingOf(cfg, req), listing, world);
        var freed := Minus(cleared, Paths(room.removed));
        if !world.opens || !world.writes then (freed, Failed)
        else if !Fits(cfg.budget, |req.text|, |req.payload|, |req.trailer|) then (freed, TooBig)
        else if !world.renames then (freed, Failed)
        else (freed[path := NewFile(req, world)], Stored)
  }

  lemma NewFileSize(req: Request, world: World)
    ensures |NewFile(req, world)| == TEXT_AT + |req.text| + |req.payload| + |req.trailer|
  {
  }

  lemma SizeElsewhere(d1: Dir, d2: Dir, names: seq<string>)
    requires forall n :: n in names ==> n in d1 && n in d2 && d1[n] == d2[n]
    ensures SizeOfAll(d1, names) == SizeOfAll(d2, names)
  {
    if names != [] {
      assert names[0] in names;
      SizeElsewhere(d1, d2, names[1..]);
    }
  }

  function Others(names: seq<string>, name: string): (r: seq<string>)
    ensures forall n :: n in r <==> n in names && n != name
  {
    if names == [] then []
    else if names[0] == name then Others(names[1..], name)
    else [names[0]] + Others(names[1..], name)
  }

  lemma {:induction false} SizeWithout(dir: Dir, names: seq<string>, name: string)
    requires NoDuplicates(names)
    ensures SizeOfAll(dir, names) <= SizeOf(dir, name) + SizeOfAll(dir, Others(names, name))
    ensures name in names ==> SizeOfAll(dir, names) == SizeOf(dir, name) + SizeOfAll(dir, Others(names, name))
  {
    hide SizeOf;
    if names != [] {
      SizeWithout(dir, names[1..], name);
      var rest := Others(names[1..], name);
      assert ([names[0]] + rest)[1..] == rest;
      if names[0] == name { OthersAll(names[1..], name); }
    }
  }

  lemma {:induction false} OthersDistinct(names: seq<string>, name: string)
    requires NoDuplicates(names)
    ensures NoDuplicates(Others(names, name))
  {
    if names != [] {
      var rest := names[1..];
      assert forall i, j :: 0 <= i < j < |rest| ==> rest[i] == names[i + 1] && rest[j] == names[j + 1];
      OthersDistinct(rest, name);
      assert forall k :: 0 <= k < |rest| ==> rest[k] == names[k + 1];
      assert names[0] !in rest;
    }
  }

  lemma {:induction false} OthersAll(names: seq<string>, name: string)
    requires name !in names
    ensures Others(names, name) == names
  {
    if names != [] { OthersAll(names[1..], name); }
  }

  /** A directory in which only one file is new. */
  lemma OneNewFile(freed: Dir, path: string, file: seq<byte>, after: seq<string>)
    requires NoDuplicates(after) && forall n :: n in after ==> n in freed[path := file]
    ensures SizeOfAll(freed[path := file], after) <= |file| + SizeOfAll(freed, Others(after, path))
  {
    hide SizeOfAll, Others;
    var dir := freed[path := file];
    SizeWithout(dir, after, path);
    SizeElsewhere(freed, dir, Others(after, path));
  }

  /** The directory that storing a new file leaves. */
  lemma StoreMakes(cfg: Config, dir: Dir, req: Request, listing: seq<string>, world: World)
    requires Store(cfg, dir, req, listing, world).1 == Stored
    ensures var cleared := Cleared(cfg, dir, req, world);
      var room := Room(cfg, cleared, Estimate(req), IncomingOf(cfg, req), listing, world);
      && Fits(cfg.budget, |req.text|, |req.payload|, req.trailerEstimate)
      && Fits(cfg.budget, |req.text|, |req.payload|, |req.trailer|)
      && Store(cfg, dir, req, listing, world).0
         == Minus(cleared, Paths(room.removed))[PathFor(cfg, req.text) := NewFile(req, world)]
  {
    hide Index, Total, Evict, Room, Compatible, ReadEntryFile, Minus, NewFile, Fits, Cleared;
  }

  /** Storing a new file keeps the indexed total within the budget, up to what its trailer took more
      than was estimated, when the files chosen for it could be deleted. Where the estimate leaves no
      room for the smallest file, the total is within the budget whatever the trailer took. */
  lemma StoreKeepsBudget(cfg: Config, dir: Dir, req: Request, listing: seq<string>, world: World, after: seq<string>)
    requires cfg.budget > 0 && Store(cfg, dir, req, listing, world).1 == Stored
    requires Lists(Cleared(cfg, dir, req, world), listing)
    requires AllUnlink(Index(Cleared(cfg, dir, req, world), listing), world.unlinks)
    requires Lists(Store(cfg, dir, req, listing, world).0, after)
    ensures Estimate(req) <= cfg.budget
    ensures var total := Total(Index(Store(cfg, dir, req, listing, world).0, after));
      && total + req.trailerEstimate <= cfg.budget + |req.trailer|
      && (cfg.budget - Estimate(req) < TEXT_AT ==> total <= cfg.budget)
  {
    hide Index, Total, Evict, Cleared, Store, NewFile, AllUnlink, Scoring, Fits, Lists, Minus, Paths;
    StoreMakes(cfg, dir, req, listing, world);
    FitsBudget(cfg.budget, |req.text|, |req.payload|, req.trailerEstimate);
    FitsBudget(cfg.budget, |req.text|, |req.payload|, |req.trailer|);
    NewFileSize(req, world);
    NewFileFits(Cleared(cfg, dir, req, world), listing, cfg.budget - Estimate(req),
                Scoring(world.now, cfg.decay, cfg.sha, IncomingOf(cfg, req)), world.unlinks,
                PathFor(cfg, req.text), NewFile(req, world), after);
  }

  /** An indexed file has a header. */
  lemma {:induction false} NoneOrMore(dir: Dir, names: seq<string>)
    ensures SizeOfAll(dir, names) == 0 || SizeOfAll(dir, names) >= TEXT_AT
  {
    if names != [] { NoneOrMore(dir, names[1..]); }
  }

  lemma NewFileFits(cleared: Dir, listing: seq<string>, target: nat, score: Scores, unlinks: string -> bool,
                    path: string, file: seq<byte>, after: seq<string>)
    requires Lists(cleared, listing) && AllUnlink(Index(cleared, listing), unlinks)
    requires var r := Evict(Index(cleared, listing), Total(Index(cleared, listing)), target, score, unlinks);
      Lists(Minus(cleared, Paths(r.removed))[path := file], after)
    ensures var r := Evict(Index(cleared, listing), Total(Index(cleared, listing)), target, score, unlinks);
      Total(Index(Minus(cleared, Paths(r.removed))[path := file], after))
        <= |file| + if target < TEXT_AT then 0 else target
  {
    hide Index, Total, Evict, SizeOfAll, Others, AllUnlink, Paths;
    var es := Index(cleared, listing);
    var r := Evict(es, Total(es), target, score, unlinks);
    var freed := Minus(cleared, Paths(r.removed));
    OneNewFile(freed, path, file, after);
    var others := Others(after, path);
    OthersDistinct(after, path);
    SizeElsewhere(freed, cleared, others);
    EvictedDirFits(cleared, listing, target, score, unlinks, others);
    NoneOrMore(cleared, others);
    IndexTotal(freed[path := file], after);
  }

  // ------------------------------------------------------------------- beyond the budget

  /** A run that stores a new file, with every file chosen for it deleted. */
  ghost predicate StoresNew(cfg: Config, dir: Dir, req: Request, listing: seq<string>, world: World,
                            after: seq<string>)
  {
    && world.now < TWO_TO_64
    && Store(cfg, dir, req, listing, world).1 == Stored
    && Lists(Cleared(cfg, dir, req, world), listing)
    && AllUnlink(Index(Cleared(cfg, dir, req, world), listing), world.unlinks)
    && Lists(Store(cfg, dir, req, listing, world).0, after)
  }

  /** No such run leaves an indexed total above the budget. */
  ghost predicate AlwaysWithinBudget(cfg: Config, req: Request) {
    forall dir, listing, world, after :: StoresNew(cfg, dir, req, listing, world, after) ==>
      Total(Index(Store(cfg, dir, req, listing, world).0, after)) <= cfg.budget
  }

  /** A request that some run stores, under a name that is indexed. */
  predicate Storable(cfg: Config, req: Request) {
    && cfg.budget > 0 && |req.text| <= UINT32_MAX && ShaOfName(PathFor(cfg, req.text)).Some?
    && Sound(req.h.(hits := 0, createdAt := 0, lastUsed := 0, payloadBytes := |req.payload|))
    && Fits(cfg.budget, |req.text|, |req.payload|, req.trailerEstimate)
    && Fits(cfg.budget, |req.text|, |req.payload|, |req.trailer|)
  }

  /** Every run is within the budget exactly when the trailer takes no more than was estimated, or the
      estimate leaves no room for another file. */
  lemma BudgetIsKept(cfg: Config, req: Request)
    requires Storable(cfg, req)
    ensures AlwaysWithinBudget(cfg, req) <==>
              |req.trailer| <= req.trailerEstimate || cfg.budget - Estimate(req) < TEXT_AT
  {
    hide Store, Index, Total, Lists, Cleared, AllUnlink;
    if |req.trailer| <= req.trailerEstimate || cfg.budget - Estimate(req) < TEXT_AT {
      forall dir, listing, world, after | StoresNew(cfg, dir, req, listing, world, after)
        ensures Total(Index(Store(cfg, dir, req, listing, world).0, after)) <= cfg.budget
      {
        StoreKeepsBudget(cfg, dir, req, listing, world, after);
      }
    } else {
      BudgetIsExceeded(cfg, req);
    }
  }

  /** The smallest entry, with as much behind it as makes the size. */
  function Filler(size: nat): (f: seq<byte>)
    requires size >= TEXT_AT
    ensures |f| == size
  {
    CheckpointFile.Stored(Header(1, 0, 0, 0, 1, 0, 0, 0, 0, 0), [], [], seq(size - TEXT_AT, _ => 0))
  }

  /** The name of another file. */
  function OtherName(path: string): (name: string)
    ensures name != path
  {
    var c := if path != [] && path[0] == '0' then '1' else '0';
    seq(40, _ => c) + ".kv"
  }

  lemma FillerIsIndexed(dir: Dir, path: string, size: nat)
    requires size >= TEXT_AT && OtherName(path) in dir && dir[OtherName(path)] == Filler(size)
    ensures EntryOf(dir, OtherName(path)).Some? && SizeOf(dir, OtherName(path)) == size
  {
    hide ReadEntryFile, LittleEndian, HeaderBytes;
    StoredReadsBack(Header(1, 0, 0, 0, 1, 0, 0, 0, 0, 0), [], [], seq(size - TEXT_AT, _ => 0));
    OtherIsIndexed(path);
  }

  lemma OtherIsIndexed(path: string)
    ensures ShaOfName(OtherName(path)).Some?
  {
    var name := OtherName(path);
    assert name[40..] == ".kv";
  }

  /** The new file counts for its size. */
  lemma NewIsIndexed(cfg: Config, req: Request, now: nat, dir: Dir, file: seq<byte>)
    requires Storable(cfg, req) && now < TWO_TO_64 && PathFor(cfg, req.text) in dir
    requires dir[PathFor(cfg, req.text)] == file == NewFile(req, World(now, _ => true, true, true, 0, true))
    ensures SizeOf(dir, PathFor(cfg, req.text)) == |file|
  {
    hide ReadEntryFile, LittleEndian, HeaderBytes, Required;
    StoredReadsBack(req.h.(hits := 0, createdAt := now, lastUsed := now, payloadBytes := |req.payload|),
                    req.text, req.payload, req.trailer);
  }

  /** One file that fits leaves nothing to delete. */
  lemma NothingEvicted(dir: Dir, name: string, target: nat, score: Scores, unlinks: string -> bool)
    requires EntryOf(dir, name).Some? && SizeOf(dir, name) <= target
    ensures Evict(Index(dir, [name]), Total(Index(dir, [name])), target, score, unlinks).removed == []
  {
    hide EntryOf, Victim;
    IndexTotal(dir, [name]);
    OneFile(dir, name);
  }

  lemma OneFile(dir: Dir, name: string)
    ensures SizeOfAll(dir, [name]) == SizeOf(dir, name)
  {
    hide SizeOf;
    assert [name][1..] == [];
  }

  lemma TwoFiles(dir: Dir, a: string, b: string)
    ensures SizeOfAll(dir, [a, b]) == SizeOf(dir, a) + SizeOf(dir, b)
  {
    hide SizeOf;
    assert [a, b][1..] == [b];
    OneFile(dir, b);
  }

  /** Storing where nothing has to be deleted and everything goes well. */
  lemma StoreAdds(cfg: Config, dir: Dir, req: Request, listing: seq<string>, world: World)
    requires Storable(cfg, req) && PathFor(cfg, req.text) !in dir && world.opens && world.writes && world.renames
    requires Room(cfg, dir, Estimate(req), IncomingOf(cfg, req), listing, world).removed == []
    ensures Cleared(cfg, dir, req, world) == dir
    ensures Store(cfg, dir, req, listing, world) == (dir[PathFor(cfg, req.text) := NewFile(req, world)], Stored)
  {
    hide Room, Fits, NewFile, ReadEntryFile;
    assert Paths([]) == [];
    assert Minus(dir, []) == dir;
  }

  /** A directory with one file, which fills what the estimate leaves, is over the budget afterwards. */
  lemma BudgetIsExceeded(cfg: Config, req: Request)
    requires Storable(cfg, req) && |req.trailer| > req.trailerEstimate && cfg.budget - Estimate(req) >= TEXT_AT
    ensures var path := PathFor(cfg, req.text);
      var other := OtherName(path);
      var dir := map[other := Filler(cfg.budget - Estimate(req))];
      var world := World(0, _ => true, true, true, 0, true);
      && StoresNew(cfg, dir, req, [other], world, [other, path])
      && Total(Index(Store(cfg, dir, req, [other], world).0, [other, path]))
         == cfg.budget + |req.trailer| - req.trailerEstimate
  {
    hide Index, Total, Evict, Fits, NewFile, Filler, OtherName, EntryOf, SizeOf, Store, Cleared, ShaOfName, Sound;
    var path := PathFor(cfg, req.text);
    var other := OtherName(path);
    var size := cfg.budget - Estimate(req);
    var dir := map[other := Filler(size)];
    var world := World(0, _ => true, true, true, 0, true);
    FillerIsIndexed(dir, path, size);
    NothingEvicted(dir, other, size, Scoring(0, cfg.decay, cfg.sha, IncomingOf(cfg, req)), world.unlinks);
    StoreAdds(cfg, dir, req, [other], world);
    var after := dir[path := NewFile(req, world)];
    NewFileSize(req, world);
    NewIsIndexed(cfg, req, 0, after, NewFile(req, world));
    IndexTotal(after, [other, path]);
    TwoFiles(after, other, path);
    FillerIsIndexed(after, path, size);
  }

  // ------------------------------------------------------------- a trailer written again

  /** What is listed counts for the same in any order. */
  lemma SizeInAnyOrder(dir: Dir, a: seq<string>, b: seq<string>)
    requires Lists(dir, a) && Lists(dir, b)
    ensures SizeOfAll(dir, a) == SizeOfAll(dir, b)
  {
    SizeOfPart(dir, a, b);
    SizeOfPart(dir, b, a);
  }

  lemma OneChanged(dir: Dir, path: string, file: seq<byte>, before: seq<string>, after: seq<string>)
    requires path in dir && Lists(dir, before) && Lists(dir[path := file], after)
    ensures SizeOfAll(dir[path := file], after) + SizeOf(dir, path)
            == SizeOfAll(dir, before) + SizeOf(dir[path := file], path)
  {
    hide SizeOf, SizeOfAll, Others;
    var changed := dir[path := file];
    assert Lists(dir, after);
    SizeInAnyOrder(dir, before, after);
    SizeWithout(dir, after, path);
    SizeWithout(changed, after, path);
    SizeElsewhere(changed, dir, Others(after, path));
  }

  /** Whether storing into a compatible file writes its trailer again. */
  predicate Rewrites(was: seq<byte>, req: Request, world: World)
    requires ReadEntryFile(was).Some?
  {
    req.trailerEstimate != 0 && world.opens && PayloadEnd(was) <= INT64_MAX
  }

  /** Nothing is evicted for a trailer that is written again: the indexed total changes by exactly what
      is written less the old trailer, whatever the budget. A failing write loses the old trailer too; a
      file that cannot be opened stays as it is. */
  lemma TrailerGrowth(cfg: Config, dir: Dir, req: Request, listing: seq<string>, world: World,
                      before: seq<string>, after: seq<string>)
    requires Store(cfg, dir, req, listing, world).1 == Kept && ShaOfName(PathFor(cfg, req.text)).Some?
    requires world.now < TWO_TO_64
    requires Lists(dir, before) && Lists(Store(cfg, dir, req, listing, world).0, after)
    ensures Compatible(cfg, dir, req)
    ensures var was := dir[PathFor(cfg, req.text)];
      var now := Total(Index(Store(cfg, dir, req, listing, world).0, after));
      if Rewrites(was, req, world) then now == Total(Index(dir, before)) - |TrailerOf(was)| + |Written(req, world)|
      else now == Total(Index(dir, before))
    ensures var path := PathFor(cfg, req.text);
      var (was, made) := (dir[path], Store(cfg, dir, req, listing, world).0);
      && path in made && ReadEntryFile(made[path]).Some?
      && TrailerOf(made[path]) == (if Rewrites(was, req, world) then Written(req, world) else TrailerOf(was))
      && TextOf(made[path]) == TextOf(was) && PayloadOf(made[path]) == PayloadOf(was)
  {
    hide ReadEntryFile, Index, Total, SizeOfAll, Lists, RewriteTrailer, Room;
    var path := PathFor(cfg, req.text);
    KeptIs(cfg, dir, req, listing, world);
    var was, made := dir[path], Store(cfg, dir, req, listing, world).0;
    IndexTotal(dir, before);
    IndexTotal(made, after);
    if req.trailerEstimate == 0 || !world.opens {
      SizeInAnyOrder(dir, before, after);
    } else {
      var written := Written(req, world);
      var file := RewriteTrailer(was, written, world.writes, req.flag, world.now);
      OneChanged(dir, path, file, before, after);
      if PayloadEnd(was) <= INT64_MAX {
        RewriteKeeps(was, written, world.writes, req.flag, world.now);
      } else {
        NotRewritten(was, written, world.writes, req.flag, world.now);
      }
    }
  }

  lemma KeptIs(cfg: Config, dir: Dir, req: Request, listing: seq<string>, world: World)
    requires Store(cfg, dir, req, listing, world).1 == Kept
    ensures Compatible(cfg, dir, req)
    ensures var path := PathFor(cfg, req.text);
      Store(cfg, dir, req, listing, world).0 ==
      if req.trailerEstimate == 0 || !world.opens then dir
      else dir[path := RewriteTrailer(dir[path], Written(req, world), world.writes, req.flag, world.now)]
  {
    hide Compatible, Cleared, Room, Fits, NewFile, RewriteTrailer, ReadEntryFile;
  }

  lemma NotRewritten(f: seq<byte>, written: seq<byte>, ok: bool, flag: byte, now: nat)
    requires ReadEntryFile(f).Some? && PayloadEnd(f) > INT64_MAX
    ensures RewriteTrailer(f, written, ok, flag, now) == f
  {
    hide ReadHeader;
  }
}
