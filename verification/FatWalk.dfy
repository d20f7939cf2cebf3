/** The walk along a chain in the FAT, through the one-sector cache of
    drivers/filesys.c, and the same walk without a cache. */
module FatWalk {
  import opened Words
  import opened Drive

  /** readSector hands 24 bits of the sector number to the drive. */
  function DeviceLba(lba: int): nat { lba % 0x100_0000 }

  // ---------------------------------------------------------------- without a cache

  /** The entry of a cluster, as the `int` it is stored in. `>> 7` and `& 0x7F` round
      towards minus infinity, negative cluster numbers included. */
  function PlainNext(disk: Disk, fatBase: dword, cluster: int32): int32 {
    Signed(LittleDword(disk(DeviceLba(fatBase + cluster / 128)), cluster % 128 * 4))
  }

  /** The start cluster and its successors, up to the first end mark or `room` entries. */
  function PlainWalk(disk: Disk, fatBase: dword, cluster: int32, room: nat): (w: seq<int32>)
    requires room > 0
    ensures 0 < |w| <= room && w[0] == cluster
    decreases room
  {
    if cluster == END_OF_CHAIN || room == 1 then [cluster]
    else [cluster] + PlainWalk(disk, fatBase, PlainNext(disk, fatBase, cluster), room - 1)
  }

  // --------------------------------------------------------------------- with the cache

  /** FATSecIdx and the bytes of FATBuffer. */
  datatype Cache = Cache(idx: int, bytes: Sector)

  /** Both globals before anything is loaded. */
  function Cold(): Cache { Cache(-1, seq(512, _ => 0)) }

  /** load_FATSect: a failed read leaves the cache as it was. */
  datatype Fetched = Fetched(ok: bool, cache: Cache, trace: seq<nat>)

  function Load(disk: Disk, bad: nat -> bool, fatBase: dword, cache: Cache, offset: int, trace: seq<nat>): Fetched {
    var lba := DeviceLba(fatBase + offset);
    Fetched(!bad(|trace|), if bad(|trace|) then cache else Cache(offset, disk(lba)), trace + [lba])
  }

  function Fetch(disk: Disk, bad: nat -> bool, fatBase: dword, cache: Cache, offset: int, trace: seq<nat>): Fetched {
    if offset == cache.idx then Fetched(true, cache, trace) else Load(disk, bad, fatBase, cache, offset, trace)
  }

  function EntryOf(cache: Cache, cluster: int32): int32 {
    Signed(LittleDword(cache.bytes, cluster % 128 * 4))
  }

  /** What traverseFAT does: its result, the entries it has filled in, and the cache. */
  datatype Walk = Walk(ok: bool, clusters: seq<int32>, cache: Cache, trace: seq<nat>)

  function CachedWalk(disk: Disk, bad: nat -> bool, fatBase: dword, cache: Cache, cluster: int32, room: nat,
                      trace: seq<nat>): (w: Walk)
    requires room > 0
    ensures 0 < |w.clusters| <= room && w.clusters[0] == cluster
    decreases room
  {
    if cluster == END_OF_CHAIN || room == 1 then Walk(true, [cluster], cache, trace)
    else
      var f := Fetch(disk, bad, fatBase, cache, cluster / 128, trace);
      if !f.ok then Walk(false, [cluster], f.cache, f.trace)
      else
        var w := CachedWalk(disk, bad, fatBase, f.cache, EntryOf(f.cache, cluster), room - 1, f.trace);
        w.(clusters := [cluster] + w.clusters)
  }

  // ----------------------------------------------------------------------- they agree

  /** The buffer is the disk sector FATSecIdx names. */
  ghost predicate Coherent(disk: Disk, fatBase: dword, cache: Cache) {
    cache.bytes == disk(DeviceLba(fatBase + cache.idx))
  }

  /** The only other state there is: nothing has been loaded yet. */
  ghost predicate Good(disk: Disk, fatBase: dword, cache: Cache) {
    Coherent(disk, fatBase, cache) || cache == Cold()
  }

  /** The FAT sector of the cluster is not the number an empty cache carries. */
  predicate Askable(cluster: int32) { cluster / 128 != -1 }

  /** A read that succeeds fills the cache with what its number names. */
  lemma FetchIsCoherent(disk: Disk, bad: nat -> bool, fatBase: dword, cache: Cache, cluster: int32, trace: seq<nat>)
    requires Good(disk, fatBase, cache) && (Coherent(disk, fatBase, cache) || Askable(cluster))
    ensures var f := Fetch(disk, bad, fatBase, cache, cluster / 128, trace);
            if f.ok
            then Coherent(disk, fatBase, f.cache) && EntryOf(f.cache, cluster) == PlainNext(disk, fatBase, cluster)
            else f.cache == cache
  {
  }

  /** From a good cache the walk is the plain walk, or, after a failed read, the
      beginning of it; and the cache is good again. A coherent cache stays coherent. */
  lemma {:induction false} WalkIsPlain(disk: Disk, bad: nat -> bool, fatBase: dword, cache: Cache, cluster: int32,
                                       room: nat, trace: seq<nat>)
    requires room > 0
    requires Good(disk, fatBase, cache) && (Coherent(disk, fatBase, cache) || Askable(cluster))
    ensures var w := CachedWalk(disk, bad, fatBase, cache, cluster, room, trace);
            var plain := PlainWalk(disk, fatBase, cluster, room);
            && Good(disk, fatBase, w.cache)
            && (Coherent(disk, fatBase, cache) ==> Coherent(disk, fatBase, w.cache))
            && (if w.ok then w.clusters == plain else w.clusters < plain)
    decreases room
  {
    if cluster != END_OF_CHAIN && room > 1 {
      var f := Fetch(disk, bad, fatBase, cache, cluster / 128, trace);
      FetchIsCoherent(disk, bad, fatBase, cache, cluster, trace);
      if f.ok {
        WalkIsPlain(disk, bad, fatBase, f.cache, EntryOf(f.cache, cluster), room - 1, f.trace);
      }
    }
  }

  /** The walk fails exactly when a read it made failed. */
  lemma {:induction false} WalkFailsIffReadFails(disk: Disk, bad: nat -> bool, fatBase: dword, cache: Cache,
                                                 cluster: int32, room: nat, trace: seq<nat>)
    requires room > 0
    ensures var w := CachedWalk(disk, bad, fatBase, cache, cluster, room, trace);
            |trace| <= |w.trace| && (w.ok <==> forall i :: |trace| <= i < |w.trace| ==> !bad(i))
    decreases room
  {
    if cluster != END_OF_CHAIN && room > 1 {
      var f := Fetch(disk, bad, fatBase, cache, cluster / 128, trace);
      if f.ok {
        WalkFailsIffReadFails(disk, bad, fatBase, f.cache, EntryOf(f.cache, cluster), room - 1, f.trace);
      } else {
        assert bad(|trace|);
      }
    }
  }

  /** One of the reads has succeeded. */
  ghost predicate SomeRead(bad: nat -> bool, from: nat, to: nat) { exists i :: from <= i < to && !bad(i) }

  /** One read that succeeds is enough: from then on the cache is coherent. */
  lemma {:induction false} WalkLoads(disk: Disk, bad: nat -> bool, fatBase: dword, cache: Cache, cluster: int32,
                                     room: nat, trace: seq<nat>)
    requires room > 0
    ensures var w := CachedWalk(disk, bad, fatBase, cache, cluster, room, trace);
            |trace| <= |w.trace|
            && (SomeRead(bad, |trace|, |w.trace|) || Coherent(disk, fatBase, cache)
                ==> Coherent(disk, fatBase, w.cache))
    decreases room
  {
    if cluster != END_OF_CHAIN && room > 1 {
      var f := Fetch(disk, bad, fatBase, cache, cluster / 128, trace);
      if f.ok {
        WalkLoads(disk, bad, fatBase, f.cache, EntryOf(f.cache, cluster), room - 1, f.trace);
      }
    }
  }

  /** The state after any number of calls of traverseFAT, from the start of the kernel. */
  function Session(disk: Disk, bad: nat -> bool, fatBase: dword, starts: seq<int32>): Walk {
    if starts == [] then Walk(true, [], Cold(), [])
    else
      var before := Session(disk, bad, fatBase, starts[..|starts| - 1]);
      CachedWalk(disk, bad, fatBase, before.cache, starts[|starts| - 1], 8, before.trace)
  }

  /** Some read of the session has succeeded. */
  ghost predicate HasLoaded(disk: Disk, bad: nat -> bool, fatBase: dword, starts: seq<int32>) {
    SomeRead(bad, 0, |Session(disk, bad, fatBase, starts).trace|)
  }

  lemma {:induction false} LoadedIsCoherent(disk: Disk, bad: nat -> bool, fatBase: dword, starts: seq<int32>)
    ensures var cache := Session(disk, bad, fatBase, starts).cache;
            HasLoaded(disk, bad, fatBase, starts) ==> Coherent(disk, fatBase, cache)
    decreases |starts|
  {
    if starts != [] {
      var before, last := starts[..|starts| - 1], starts[|starts| - 1];
      var b := Session(disk, bad, fatBase, before);
      LoadedIsCoherent(disk, bad, fatBase, before);
      WalkLoads(disk, bad, fatBase, b.cache, last, 8, b.trace);
    }
  }

  /** Start clusters for which the session goes well: any at all once a read has succeeded,
      and before that those whose FAT sector is not the number of the empty cache. */
  ghost predicate Sound(disk: Disk, bad: nat -> bool, fatBase: dword, starts: seq<int32>) {
    starts != [] ==>
      var before, last := starts[..|starts| - 1], starts[|starts| - 1];
      Sound(disk, bad, fatBase, before) && (HasLoaded(disk, bad, fatBase, before) || Askable(last))
  }

  /** In every such session, failed reads and all, each call yields what the walk without
      a cache yields, or the beginning of it if a read failed. */
  lemma {:induction false} EveryCallIsPlain(disk: Disk, bad: nat -> bool, fatBase: dword, starts: seq<int32>)
    requires Sound(disk, bad, fatBase, starts)
    ensures var w := Session(disk, bad, fatBase, starts);
            && Good(disk, fatBase, w.cache)
            && (starts != [] ==>
                  var plain := PlainWalk(disk, fatBase, starts[|starts| - 1], 8);
                  if w.ok then w.clusters == plain else w.clusters < plain)
    decreases |starts|
  {
    if starts != [] {
      var before, last := starts[..|starts| - 1], starts[|starts| - 1];
      EveryCallIsPlain(disk, bad, fatBase, before);
      LoadedIsCoherent(disk, bad, fatBase, before);
      var b := Session(disk, bad, fatBase, before);
      WalkIsPlain(disk, bad, fatBase, b.cache, last, 8, b.trace);
    }
  }

  // ------------------------------------------------ the number of an empty cache

  function Never(): nat -> bool { (n: nat) => false }

  /** A walk that starts with nothing loaded at a cluster whose FAT sector has the number of
      the empty cache takes the zeros of the empty cache for that sector. */
  lemma SentinelIsTaken(disk: Disk, fatBase: dword, cluster: int32, trace: seq<nat>)
    requires !Askable(cluster)
    ensures CachedWalk(disk, Never(), fatBase, Cold(), cluster, 8, trace).clusters
            == [cluster] + PlainWalk(disk, fatBase, 0, 7)
  {
    assert Fetch(disk, Never(), fatBase, Cold(), cluster / 128, trace) == Fetched(true, Cold(), trace);
    assert LittleDword(Cold().bytes, cluster % 128 * 4) == 0;
    WalkIsPlain(disk, Never(), fatBase, Cold(), 0, 7, trace);
    WalkFailsIffReadFails(disk, Never(), fatBase, Cold(), 0, 7, trace);
  }

  lemma SameWalkIff(disk: Disk, fatBase: dword, a: int32, b: int32, cluster: int32)
    ensures [cluster] + PlainWalk(disk, fatBase, a, 7) == [cluster] + PlainWalk(disk, fatBase, b, 7) <==> a == b
  {
    var u, w := PlainWalk(disk, fatBase, a, 7), PlainWalk(disk, fatBase, b, 7);
    assert ([cluster] + u)[1] == a && ([cluster] + w)[1] == b;
  }

  /** With nothing loaded yet and no failed read, on every disk: the walk is right exactly when
      the start cluster's FAT sector is not numbered -1, the mark of the empty cache, or the
      entry that is taken from the empty cache happens to be 0 on the disk, too. */
  lemma ColdWalkIsPlainIff(disk: Disk, fatBase: dword, cluster: int32, trace: seq<nat>)
    ensures CachedWalk(disk, Never(), fatBase, Cold(), cluster, 8, trace).clusters
              == PlainWalk(disk, fatBase, cluster, 8)
            <==> Askable(cluster) || PlainNext(disk, fatBase, cluster) == 0
  {
    if Askable(cluster) {
      WalkIsPlain(disk, Never(), fatBase, Cold(), cluster, 8, trace);
      WalkFailsIffReadFails(disk, Never(), fatBase, Cold(), cluster, 8, trace);
    } else {
      SentinelIsTaken(disk, fatBase, cluster, trace);
      SameWalkIff(disk, fatBase, 0, PlainNext(disk, fatBase, cluster), cluster);
    }
  }
}
