/** The store itself: an index that is rebuilt from the directory, and the loops over it. */
module CheckpointStore {
  import opened CheckpointFile
  import opened Eviction
  import opened KvStore
  import opened Optional
  import opened PrefixLookup

  lemma IndexNext(dir: Dir, listing: seq<string>, i: nat)
    requires i < |listing|
    ensures var e := EntryOf(dir, listing[i]);
      Index(dir, listing[i..]) == (if e.Some? then [e.value] else []) + Index(dir, listing[i + 1..])
  {
    hide EntryOf;
    assert listing[i..][1..] == listing[i + 1..];
  }

  lemma VictimNext(es: seq<Entry>, i: nat, score: Scores)
    requires 0 < i < |es|
    ensures var v := Victim(es[..i], score);
      Victim(es[..i + 1], score) == if Before(es[i], es[v], score) then i else v
  {
    assert es[..i + 1][..i] == es[..i];
  }

  lemma PathsConcat(a: seq<Entry>, b: seq<Entry>)
    ensures Paths(a + b) == Paths(a) + Paths(b)
  {
    if a == [] {
      assert a + b == b;
    } else {
      assert (a + b)[1..] == a[1..] + b;
      PathsConcat(a[1..], b);
    }
  }

  lemma PathsNext(removed: seq<Entry>, e: Entry)
    ensures Paths(removed + [e]) == Paths(removed) + [e.path]
  {
    PathsConcat(removed, [e]);
  }

  lemma MinusMore(dir: Dir, removed: seq<Entry>, gone: seq<Entry>)
    ensures Minus(dir, Paths(removed + gone)) == Minus(Minus(dir, Paths(removed)), Paths(gone))
  {
    PathsConcat(removed, gone);
  }

  lemma NothingRemoved(dir: Dir)
    ensures Minus(dir, Paths([])) == dir
  {
  }

  /** The outcome of an eviction that has deleted some and has rest still to do. */
  function Continued(removed: seq<Entry>, failed: Option<Entry>, rest: Evicted): Evicted {
    Evicted(rest.left, removed + rest.removed, if failed.Some? then failed else rest.failed)
  }

  class Store {
    const cfg: Config
    /** The directory. */
    var dir: Dir
    /** The index. */
    var entry: seq<Entry>

    constructor (cfg: Config, dir: Dir)
      ensures this.cfg == cfg && this.dir == dir && entry == []
    {
      this.cfg, this.dir, entry := cfg, dir, [];
    }

    method Refresh(listing: seq<string>)
      modifies this`entry
      ensures entry == Index(dir, listing)
    {
      hide EntryOf, Index;
      entry := [];
      var i := 0;
      assert listing[0..] == listing;
      while i < |listing|
        invariant 0 <= i <= |listing| && entry + Index(dir, listing[i..]) == Index(dir, listing)
      {
        IndexNext(dir, listing, i);
        var e := EntryOf(dir, listing[i]);
        if e.Some? { entry := entry + [e.value]; }
        i := i + 1;
      }
      EmptyIndex(dir);
      assert listing[i..] == [];
    }

    method ChooseVictim(score: Scores) returns (victim: nat)
      requires entry != []
      ensures victim == Victim(entry, score)
    {
      hide Victim;
      victim := 0;
      OnlyVictim(entry, score);
      for i := 1 to |entry|
        invariant victim < i && victim == Victim(entry[..i], score)
      {
        VictimNext(entry, i, score);
        if score(entry[i]) < score(entry[victim])
           || (score(entry[i]) == score(entry[victim]) && entry[i].h.lastUsed < entry[victim].h.lastUsed)
        {
          victim := i;
        }
      }
      assert entry[..|entry|] == entry;
    }

    method SumSizes() returns (total: nat)
      ensures total == Total(entry)
    {
      hide Total;
      total := 0;
      EmptyTotal();
      assert entry[..0] == [];
      for i := 0 to |entry|
        invariant total == Total(entry[..i])
      {
        assert entry[..i + 1] == entry[..i] + [entry[i]];
        TotalConcat(entry[..i], [entry[i]]);
        TotalOne(entry[i]);
        total := total + entry[i].fileSize;
      }
      assert entry[..|entry|] == entry;
    }

    /** Deletes one file and drops the entry that has to go first. */
    method EvictEntry(total: nat, target: nat, score: Scores, unlinks: string -> bool)
      returns (left: nat, ghost gone: seq<Entry>, ghost failed: Option<Entry>)
      requires total > target && entry != []
      modifies this`dir, this`entry
      ensures |entry| < old(|entry|) && dir == Minus(old(dir), Paths(gone))
      ensures failed.Some? ==> left == 0
      ensures Evict(old(entry), total, target, score, unlinks)
           == Continued(gone, failed, Evict(entry, left, target, score, unlinks))
    {
      hide Evict, Victim;
      var victim := ChooseVictim(score);
      EvictOne(entry, total, target, score, unlinks);
      var e := entry[victim];
      gone, failed := [], None;
      if unlinks(e.path) {
        gone := [e];
        PathsNext([], e);
        dir := Minus(dir, [e.path]);
        left := if total >= e.fileSize then total - e.fileSize else 0;
      } else {
        failed := Some(e);
        left := 0;
        EvictNone(Without(entry, victim), 0, target, score, unlinks);
      }
      entry := Without(entry, victim);
    }

    /** Makes room for so many bytes; tells which files it deleted. */
    method MakeRoom(extra: nat, incoming: Option<Incoming>, listing: seq<string>, world: World)
      returns (ghost removed: seq<Entry>)
      modifies this`dir, this`entry
      ensures removed == Room(cfg, old(dir), extra, incoming, listing, world).removed
      ensures dir == Minus(old(dir), Paths(removed))
      ensures if cfg.budget == 0 || extra > cfg.budget then entry == old(entry) && dir == old(dir)
              else entry == Room(cfg, old(dir), extra, incoming, listing, world).left
    {
      hide Evict, Index, Total, Score, Minus, Paths;
      removed := [];
      NothingRemoved(dir);
      if cfg.budget == 0 || extra > cfg.budget { return; }
      Refresh(listing);
      var total: nat := SumSizes();
      var target := cfg.budget - extra;
      var score := Scoring(world.now, cfg.decay, cfg.sha, incoming);
      ghost var whole := Evict(entry, total, target, score, world.unlinks);
      ghost var failed: Option<Entry> := None;
      while total > target && |entry| > 0
        invariant whole == Continued(removed, failed, Evict(entry, total, target, score, world.unlinks))
        invariant failed.Some? ==> total == 0
        invariant dir == Minus(old(dir), Paths(removed))
        decreases |entry|
      {
        ghost var gone;
        total, gone, failed := EvictEntry(total, target, score, world.unlinks);
        MinusMore(old(dir), removed, gone);
        removed := removed + gone;
      }
      EvictNone(entry, total, target, score, world.unlinks);
    }

    method FindTextPrefix(w: Wanted, listing: seq<string>) returns (best: int)
      modifies this`entry
      ensures entry == Index(dir, listing) && IsBest(entry, w, cfg.sha, best)
    {
      Refresh(listing);
      best := FindBest(entry, w, cfg.sha);
    }

    /** Storing a checkpoint. */
    method StoreCheckpoint(req: Request, listing: seq<string>, world: World) returns (outcome: Outcome)
      modifies this`dir, this`entry
      ensures (dir, outcome) == KvStore.Store(cfg, old(dir), req, listing, world)
    {
      hide Room, ReadEntryFile, Index, NewFile, Minus, Written;
      var path := PathFor(cfg, req.text);
      if |req.text| > UINT32_MAX { return Failed; }
      if Compatible(cfg, dir, req) {
        if req.trailerEstimate != 0 && world.opens {
          dir := dir[path := RewriteTrailer(dir[path], Written(req, world), world.writes, req.flag, world.now)];
        }
        return Kept;
      }
      if path in dir && ReadEntryFile(dir[path]).Some? && world.unlinks(path) {
        dir := Minus(dir, [path]);
      }
      if !Fits(cfg.budget, |req.text|, |req.payload|, req.trailerEstimate) { return TooBig; }
      var extra := TEXT_AT + |req.text| + |req.payload| + req.trailerEstimate;
      ghost var removed := MakeRoom(extra, IncomingOf(cfg, req), listing, world);
      if !world.opens || !world.writes { return Failed; }
      if !Fits(cfg.budget, |req.text|, |req.payload|, |req.trailer|) { return TooBig; }
      if !world.renames { return Failed; }
      dir := dir[path := NewFile(req, world)];
      return Outcome.Stored;
    }
  }

  lemma EmptyIndex(dir: Dir)
    ensures Index(dir, []) == []
  {
  }

  lemma OnlyVictim(es: seq<Entry>, score: Scores)
    requires es != []
    ensures Victim(es[..1], score) == 0
  {
  }

  lemma EvictNone(es: seq<Entry>, total: nat, target: nat, score: Scores, unlinks: string -> bool)
    requires total <= target || es == []
    ensures Evict(es, total, target, score, unlinks) == Evicted(es, [], None)
  {
  }

  lemma EvictOne(es: seq<Entry>, total: nat, target: nat, score: Scores, unlinks: string -> bool)
    requires total > target && es != []
    ensures var v := Victim(es, score);
      var e, left := es[v], if total >= es[v].fileSize then total - es[v].fileSize else 0;
      var rest := Evict(Without(es, v), left, target, score, unlinks);
      Evict(es, total, target, score, unlinks)
      == if unlinks(e.path) then rest.(removed := [e] + rest.removed) else Evicted(Without(es, v), [], Some(e))
  {
    hide Victim, Without;
  }
}
