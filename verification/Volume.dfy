/** The state drivers/filesys.c keeps about the mounted volume, as a value, and what
    each of its operations makes of that state. */
module Volume {
  import opened Words
  import opened Drive
  import opened Header
  import opened FatWalk
  import opened ClusterAddress
  import opened ShortName
  import opened Directory

  type ClusterBuffer = s: seq<byte> | |s| == 2048 witness seq(2048, _ => 0)

  type Clusters = s: seq<int32> | |s| == 8 witness seq(8, _ => 0)

  const LONGEST_NAME := 104

  /** fileSys; FATSecIdx and FATBuffer; ClusterSecIdx and ClusterBuffer; the clusters of
      currentDir and dirClusterIndex; the characters printed; the sectors asked for. */
  datatype Volume = Volume(header: Header, cache: Cache, clusterIdx: int, buffer: ClusterBuffer,
                           dir: Clusters, dirIdx: int, printed: seq<byte>, trace: seq<nat>)

  /** A result and the state afterwards. */
  datatype Outcome = Outcome(ok: bool, volume: Volume)

  /** The cluster buffer has room for a cluster. */
  predicate FitsBuffer(h: Header) { h.sectorsPerCluster <= 4 }

  /** The first sector of a cluster, as it reaches the drive. */
  function DeviceSector(h: Header, index: int32): nat {
    DeviceLba(ClusterLba(h.clusterLocation, index, h.sectorsPerCluster))
  }

  /** load_Cluster. */
  function WithCluster(disk: Disk, bad: nat -> bool, v: Volume, index: int32): (o: Outcome)
    requires FitsBuffer(v.header)
    ensures o.volume.header == v.header
  {
    var r := ReadRun(disk, bad, DeviceSector(v.header, index), v.header.sectorsPerCluster, v.buffer, 0, v.trace);
    Outcome(r.ok, v.(clusterIdx := if r.ok then index else v.clusterIdx, buffer := r.buffer, trace := r.trace))
  }

  /** openDirectory, on a directory with this first cluster. */
  function Opened(disk: Disk, bad: nat -> bool, v: Volume, first: int32): Outcome
    requires FitsBuffer(v.header)
  {
    var o := WithCluster(disk, bad, v, first);
    if o.ok then Outcome(true, o.volume.(dirIdx := 0)) else o
  }

  /** traverseFAT, from this volume. */
  function Traversal(disk: Disk, bad: nat -> bool, v: Volume, start: int32): (w: Walk)
    ensures 0 < |w.clusters| <= 8 && w.clusters[0] == start
  {
    CachedWalk(disk, bad, v.header.fatLocation, v.cache, start, 8, v.trace)
  }

  function AfterWalk(v: Volume, w: Walk): Volume { v.(cache := w.cache, trace := w.trace) }

  /** An array of eight clusters with the beginning written over. */
  function Filled(before: Clusters, start: seq<int32>): (all: Clusters)
    requires |start| <= 8
    ensures forall k :: 0 <= k < 8 ==> all[k] == if k < |start| then start[k] else before[k]
  {
    start + before[|start|..]
  }

  /** The header, from the partition's first sector. */
  function WithHeader(disk: Disk, bad: nat -> bool, v: Volume): Outcome {
    var o := Outcome(!bad(|v.trace|), v.(trace := v.trace + [1]));
    if o.ok then Outcome(true, o.volume.(header := Decode(disk(1)))) else o
  }

  /** loadFileSystem, on a drive that identifies itself. */
  function Mount(disk: Disk, bad: nat -> bool, v: Volume): Outcome
    requires FitsBuffer(Decode(disk(1)))
  {
    var o := WithHeader(disk, bad, v);
    if o.ok then WalkRoot(disk, bad, o.volume) else o
  }

  function WalkRoot(disk: Disk, bad: nat -> bool, v: Volume): Outcome
    requires FitsBuffer(v.header)
  {
    var w := Traversal(disk, bad, v, Signed(v.header.rootDirStartCluster));
    var walked := AfterWalk(v, w).(dir := Filled(v.dir, w.clusters));
    if w.ok then Opened(disk, bad, walked, walked.dir[0]) else Outcome(false, walked)
  }

  /** The state in which the records of the current directory are scanned. */
  function Ready(disk: Disk, bad: nat -> bool, v: Volume): (o: Outcome)
    requires FitsBuffer(v.header)
    ensures o.volume.header == v.header && o.volume.dir == v.dir && o.volume.dirIdx == v.dirIdx
  {
    if v.dirIdx == 0 then Outcome(true, v) else WithCluster(disk, bad, v, v.dir[0])
  }

  /** The sizes the scans compute with. */
  predicate Scannable(h: Header) { 1 <= h.sectorsPerCluster <= 4 && h.bytesPerSector == SECTOR }

  /** All cluster sizes that fit the buffer are among them. */
  lemma SmallClustersAreScannable(h: Header)
    requires h.bytesPerSector == 512 && h.sectorsPerCluster in {1, 2, 3, 4}
    ensures Scannable(h) && FitsBuffer(h)
  {
  }

  function DirectoryRecords(v: Volume): (recs: seq<Record>)
    requires Scannable(v.header)
    ensures |recs| == 16 * v.header.sectorsPerCluster
  {
    Records(v.buffer[..SECTOR * v.header.sectorsPerCluster])
  }

  /** A scan stays inside the buffered cluster: there is a zero record, or no cluster
      follows, and no long-name record points outside the name buffer. */
  ghost predicate StaysInside(v: Volume)
    requires Scannable(v.header)
  {
    var recs := DirectoryRecords(v);
    && InBounds(recs, Initial())
    && ((exists k :: 0 <= k < |recs| && IsEnd(recs[k])) || (-1 <= v.dirIdx < 7 && v.dir[v.dirIdx + 1] == END_OF_CHAIN))
  }

  datatype Search = Search(lookup: Lookup, volume: Volume)

  /** findFile up to the match. */
  function SearchFor(disk: Disk, bad: nat -> bool, v: Volume, name: CString): Search
    requires Scannable(v.header)
    requires |name| <= LONGEST_NAME && Ready(disk, bad, v).ok
             ==> InBounds(DirectoryRecords(Ready(disk, bad, v).volume), Initial())
  {
    if |name| > LONGEST_NAME then Search(Missing, v)
    else
      var o := Ready(disk, bad, v);
      if !o.ok then Search(Missing, o.volume)
      else Search(Find(DirectoryRecords(o.volume), Initial(), SearchKey(name)), o.volume)
  }

  /** Start cluster 0 stands for the root. */
  function StartCluster(h: Header, r: Record): int32 {
    if ClusterOf(r) == 0 then Signed(h.rootDirStartCluster) else ClusterOf(r)
  }

  /** listFiles. */
  function Listed(disk: Disk, bad: nat -> bool, v: Volume): Volume
    requires Scannable(v.header)
    requires Ready(disk, bad, v).ok ==> InBounds(DirectoryRecords(Ready(disk, bad, v).volume), Initial())
  {
    var o := Ready(disk, bad, v);
    if !o.ok then o.volume
    else o.volume.(printed := o.volume.printed + Listing(DirectoryRecords(o.volume), Initial()))
  }

  /** How many of the buffered bytes printFile prints. */
  function Chunk(size: int32): (n: nat)
    ensures n <= 2048
  {
    if size > 2048 then 2048 else if size > 0 then size else 0
  }

  /** printFile: a failed read prints what the buffer holds then. */
  function PrintChain(disk: Disk, bad: nat -> bool, v: Volume, clusters: seq<int32>, size: int32): Volume
    requires FitsBuffer(v.header)
    decreases |clusters|
  {
    if clusters == [] || clusters[0] == END_OF_CHAIN then v
    else PrintChain(disk, bad, PrintCluster(disk, bad, v, clusters[0], size), clusters[1..], Signed(size - 2048))
  }

  function PrintCluster(disk: Disk, bad: nat -> bool, v: Volume, index: int32, size: int32): (r: Volume)
    requires FitsBuffer(v.header)
    ensures r.header == v.header
  {
    var o := WithCluster(disk, bad, v, index).volume;
    o.(printed := o.printed + o.buffer[..Chunk(size)])
  }

  // ----------------------------------------------------------------------- directories

  /** On a well-formed directory findFile finds the first file that bears the name looked
      for, and misses exactly when no file bears it, the name is too long, or the cluster
      cannot be read; listFiles prints the files' names. */
  lemma DirectoryOperations(disk: Disk, bad: nat -> bool, v: Volume, items: seq<Item>)
    requires Scannable(v.header)
    requires Ready(disk, bad, v).ok ==> IsDirectoryOf(DirectoryRecords(Ready(disk, bad, v).volume), items)
    ensures Ready(disk, bad, v).ok ==> InBounds(DirectoryRecords(Ready(disk, bad, v).volume), Initial())
    ensures forall name: CString ::
              var n := FirstNamed(items, SearchKey(name));
              SearchFor(disk, bad, v, name).lookup
                == if |name| > LONGEST_NAME || !Ready(disk, bad, v).ok || n == -1 then Missing
                   else Found(items[n].short)
    ensures Ready(disk, bad, v).ok ==> Listed(disk, bad, v).printed == Ready(disk, bad, v).volume.printed + Names(items)
    ensures !Ready(disk, bad, v).ok ==> Listed(disk, bad, v).printed == v.printed
  {
    var o := Ready(disk, bad, v);
    if o.ok {
      var recs := DirectoryRecords(o.volume);
      ScanSeesItems(recs, items, Initial(), []);
      forall name: CString
        ensures var n := FirstNamed(items, SearchKey(name));
                Find(recs, Initial(), SearchKey(name)) == if n == -1 then Missing else Found(items[n].short)
      {
        ScanSeesItems(recs, items, Initial(), SearchKey(name));
      }
    }
  }

  /** The first item that bears a name, up to item `n`, is what is found. */
  ghost predicate FindsFirst(f: Lookup, items: seq<Item>, n: nat, key: CString)
    requires n < |items|
  {
    exists k :: 0 <= k <= n && HasName(items[k], key) && f == Found(items[k].short)
                && forall j :: 0 <= j < k ==> !HasName(items[j], key)
  }

  lemma NamedIsFound(disk: Disk, bad: nat -> bool, v: Volume, items: seq<Item>, n: nat, name: CString)
    requires Scannable(v.header) && Ready(disk, bad, v).ok
    requires IsDirectoryOf(DirectoryRecords(Ready(disk, bad, v).volume), items)
    requires n < |items| && HasName(items[n], SearchKey(name)) && |name| <= 104
    ensures InBounds(DirectoryRecords(Ready(disk, bad, v).volume), Initial())
    ensures FindsFirst(SearchFor(disk, bad, v, name).lookup, items, n, SearchKey(name))
  {
    DirectoryOperations(disk, bad, v, items);
    var k := FirstNamed(items, SearchKey(name));
    assert 0 <= k <= n;
  }

  /** Every name the listing shows, of at most 104 bytes, that its own file answers to: findFile
      finds the first file that bears the name looked for. */
  lemma ListedFileIsFound(disk: Disk, bad: nat -> bool, v: Volume, items: seq<Item>, n: nat)
    requires Scannable(v.header) && Ready(disk, bad, v).ok
    requires IsDirectoryOf(DirectoryRecords(Ready(disk, bad, v).volume), items) && n < |items| && items[n].File?
    requires var name := ListedAs(items[n]);
             |name| <= 104 && (KindOf(name).Refused? || ShortNameOf(items[n].short) == SearchKey(name))
    ensures InBounds(DirectoryRecords(Ready(disk, bad, v).volume), Initial())
    ensures var name := ListedAs(items[n]);
            FindsFirst(SearchFor(disk, bad, v, name).lookup, items, n, SearchKey(name))
  {
    AnswersToListedNameIff(items[n]);
    NamedIsFound(disk, bad, v, items, n, ListedAs(items[n]));
  }

  /** Every long name there is, of 1 to 104 bytes, written in long-name records: findFile finds the
      first file that bears it, unless getShortName makes another name of it. */
  lemma LongNameIsFound(disk: Disk, bad: nat -> bool, v: Volume, items: seq<Item>, n: nat, name: CString,
                        checksum: byte, short: Record)
    requires Scannable(v.header) && Ready(disk, bad, v).ok && 1 <= |name| <= 104 && KindOf(name).Refused?
    requires IsDirectoryOf(DirectoryRecords(Ready(disk, bad, v).volume), items)
    requires n < |items| && items[n] == File(EncodeLong(name, checksum), short)
    ensures InBounds(DirectoryRecords(Ready(disk, bad, v).volume), Initial())
    ensures FindsFirst(SearchFor(disk, bad, v, name).lookup, items, n, name)
  {
    assert WellFormed(items[n]);
    LongNameRoundTrip(name, checksum, short);
    NamedIsFound(disk, bad, v, items, n, name);
  }

  /** A name of more than 104 bytes is turned away before anything is read. */
  lemma LongerNamesAreMissed(disk: Disk, bad: nat -> bool, v: Volume, name: CString)
    requires Scannable(v.header) && |name| > 104
    ensures SearchFor(disk, bad, v, name) == Search(Missing, v)
  {
  }

  // ------------------------------------------------------------------------- printing

  function ClusterContents(disk: Disk, h: Header, index: int32): (s: seq<byte>)
    ensures |s| == SECTOR * h.sectorsPerCluster
  {
    Sectors(disk, DeviceSector(h, index), h.sectorsPerCluster)
  }

  /** The clusters of a file up to the end mark, one behind the other. */
  function FileBytes(disk: Disk, h: Header, clusters: seq<int32>): seq<byte> {
    if clusters == [] || clusters[0] == END_OF_CHAIN then []
    else ClusterContents(disk, h, clusters[0]) + FileBytes(disk, h, clusters[1..])
  }

  /** The part of a file that its size covers. */
  function Prefix(s: seq<byte>, size: int): seq<byte> {
    if size <= 0 then [] else if size >= |s| then s else s[..size]
  }

  lemma PrefixOfParts(printed: seq<byte>, a: seq<byte>, b: seq<byte>, size: int)
    ensures printed + Prefix(a, size) + Prefix(b, size - |a|) == printed + Prefix(a + b, size)
  {
  }

  /** Without failures the buffer begins with the cluster; the rest is as it was. */
  lemma LoadsContents(disk: Disk, bad: nat -> bool, v: Volume, index: int32)
    requires FitsBuffer(v.header) && forall i :: i >= |v.trace| ==> !bad(i)
    ensures var o, n := WithCluster(disk, bad, v, index), v.header.sectorsPerCluster;
            && o.ok && |o.volume.trace| >= |v.trace|
            && o.volume.buffer == ClusterContents(disk, v.header, index) + v.buffer[SECTOR * n..]
            && o.volume.buffer[..SECTOR * n] == ClusterContents(disk, v.header, index)
  {
    var n := v.header.sectorsPerCluster;
    AllSucceed(bad, |v.trace|, n);
    ReadRunIs(disk, bad, DeviceSector(v.header, index), n, v.buffer, 0, v.trace);
  }

  lemma PrintsContents(disk: Disk, bad: nat -> bool, v: Volume, index: int32, size: int32)
    requires v.header.sectorsPerCluster == 4 && forall i :: i >= |v.trace| ==> !bad(i)
    ensures var next := PrintCluster(disk, bad, v, index, size);
            && |next.trace| >= |v.trace|
            && next.printed == v.printed + Prefix(ClusterContents(disk, v.header, index), size)
  {
    LoadsContents(disk, bad, v, index);
    var o := WithCluster(disk, bad, v, index).volume;
    assert o.buffer == ClusterContents(disk, v.header, index);
    assert o.buffer[..Chunk(size)] == Prefix(o.buffer, size);
  }

  /** A cluster that cannot be read at all is not left out: what the buffer holds is printed
      once more. */
  lemma FailedReadPrintsBuffer(disk: Disk, bad: nat -> bool, v: Volume, index: int32, size: int32)
    requires 1 <= v.header.sectorsPerCluster <= 4 && bad(|v.trace|)
    ensures var next := PrintCluster(disk, bad, v, index, size);
            && next.buffer == v.buffer && next.clusterIdx == v.clusterIdx
            && next.printed == v.printed
                               + v.buffer[..if size <= 0 then 0 else if size <= 2048 then size else 2048]
  {
  }

  /** Whatever reads fail, as many bytes are printed as the size asks for in 2048-byte steps. */
  lemma {:induction false} PrintsAsMany(disk: Disk, bad: nat -> bool, v: Volume, clusters: seq<int32>, size: int32)
    requires FitsBuffer(v.header) && END_OF_CHAIN !in clusters && size - 2048 * |clusters| >= -0x8000_0000
    ensures |PrintChain(disk, bad, v, clusters, size).printed|
            == |v.printed| + if size <= 0 then 0 else if size <= 2048 * |clusters| then size else 2048 * |clusters|
    decreases |clusters|
  {
    if clusters != [] {
      assert clusters[0] in clusters && clusters[0] != END_OF_CHAIN;
      SignedIsIdentity(size - 2048);
      PrintsAsMany(disk, bad, PrintCluster(disk, bad, v, clusters[0], size), clusters[1..], size - 2048);
    }
  }

  /** The buffer is named after the cluster in it, unless a read failed. */
  lemma BufferIsNamed(disk: Disk, bad: nat -> bool, v: Volume, index: int32)
    requires FitsBuffer(v.header)
    ensures var o := WithCluster(disk, bad, v, index);
            && (o.ok ==> o.volume.clusterIdx == index
                         && o.volume.buffer[..SECTOR * v.header.sectorsPerCluster]
                            == ClusterContents(disk, v.header, index))
            && (!o.ok ==> o.volume.clusterIdx == v.clusterIdx)
            && |o.volume.trace| >= |v.trace|
            && (o.ok <==> forall i :: |v.trace| <= i < |o.volume.trace| ==> !bad(i))
  {
    var n := v.header.sectorsPerCluster;
    ReadRunIs(disk, bad, DeviceSector(v.header, index), n, v.buffer, 0, v.trace);
    var k := Successes(bad, |v.trace|, n);
    if k < n {
      assert bad(|v.trace| + k);
    }
  }

  /** Opening a directory fails exactly when a read it made failed. Then the directory counts as
      opened or not as before, but the sectors read before the failure are in the buffer, in front
      of what was there: the next search or listing scans this mixture if one was open. */
  lemma FailedOpenMixesBuffer(disk: Disk, bad: nat -> bool, v: Volume, first: int32)
    requires FitsBuffer(v.header)
    ensures var o, n := Opened(disk, bad, v, first), Successes(bad, |v.trace|, v.header.sectorsPerCluster);
            && (o.ok <==> n == v.header.sectorsPerCluster) && o.volume.dir == v.dir
            && o.volume.dirIdx == (if o.ok then 0 else v.dirIdx)
            && o.volume.buffer == Sectors(disk, DeviceSector(v.header, first), n) + v.buffer[512 * n..]
  {
    ReadRunIs(disk, bad, DeviceSector(v.header, first), v.header.sectorsPerCluster, v.buffer, 0, v.trace);
  }

  /** With clusters of 2048 bytes and no failed read, printFile prints exactly the bytes of
      the file's clusters that its size covers, for every size above the 32-bit minimum
      by what the loop takes off. */
  lemma {:induction false} PrintsFile(disk: Disk, bad: nat -> bool, v: Volume, clusters: seq<int32>, size: int32)
    requires v.header.sectorsPerCluster == 4 && forall i :: i >= |v.trace| ==> !bad(i)
    requires size - 2048 * |clusters| >= -0x8000_0000
    ensures PrintChain(disk, bad, v, clusters, size).printed
            == v.printed + Prefix(FileBytes(disk, v.header, clusters), size)
    decreases |clusters|
  {
    if clusters != [] && clusters[0] != END_OF_CHAIN {
      var next := PrintCluster(disk, bad, v, clusters[0], size);
      PrintsContents(disk, bad, v, clusters[0], size);
      SignedIsIdentity(size - 2048);
      var here, rest := ClusterContents(disk, v.header, clusters[0]), FileBytes(disk, v.header, clusters[1..]);
      PrintsFile(disk, bad, next, clusters[1..], size - 2048);
      PrefixOfParts(v.printed, here, rest, size);
    }
  }

  /** The sectors load_Cluster reads for a file's clusters, up to the end mark. */
  function KernelReads(h: Header, clusters: seq<int32>): seq<nat> {
    if clusters == [] || clusters[0] == END_OF_CHAIN then []
    else Range(DeviceSector(h, clusters[0]), h.sectorsPerCluster) + KernelReads(h, clusters[1..])
  }

  lemma ClusterReads(disk: Disk, bad: nat -> bool, v: Volume, index: int32)
    requires FitsBuffer(v.header) && forall i :: i >= |v.trace| ==> !bad(i)
    ensures WithCluster(disk, bad, v, index).volume.trace
            == v.trace + Range(DeviceSector(v.header, index), v.header.sectorsPerCluster)
  {
    var n := v.header.sectorsPerCluster;
    AllSucceed(bad, |v.trace|, n);
    ReadRunIs(disk, bad, DeviceSector(v.header, index), n, v.buffer, 0, v.trace);
  }

  /** Without failures, printFile reads exactly the sectors of the file's clusters, in order. */
  lemma {:induction false} PrintReads(disk: Disk, bad: nat -> bool, v: Volume, clusters: seq<int32>, size: int32)
    requires FitsBuffer(v.header) && forall i :: i >= |v.trace| ==> !bad(i)
    ensures PrintChain(disk, bad, v, clusters, size).trace == v.trace + KernelReads(v.header, clusters)
    decreases |clusters|
  {
    if clusters == [] || clusters[0] == END_OF_CHAIN {
      assert v.trace + [] == v.trace;
    } else {
      var next := PrintCluster(disk, bad, v, clusters[0], size);
      ClusterReads(disk, bad, v, clusters[0]);
      PrintReads(disk, bad, next, clusters[1..], Signed(size - 2048));
      Associate(v.trace, Range(DeviceSector(v.header, clusters[0]), v.header.sectorsPerCluster),
                KernelReads(v.header, clusters[1..]));
    }
  }

  // ------------------------------------------------- from a file's name to its contents

  lemma {:induction false} WalkIsFullOrEnds(disk: Disk, fatBase: dword, cluster: int32, room: nat)
    requires room > 0
    ensures var w := PlainWalk(disk, fatBase, cluster, room); |w| == room || w[|w| - 1] == END_OF_CHAIN
    decreases room
  {
    if cluster != END_OF_CHAIN && room > 1 {
      WalkIsFullOrEnds(disk, fatBase, PlainNext(disk, fatBase, cluster), room - 1);
    }
  }

  lemma {:induction false} NothingBehindTheEnd(disk: Disk, h: Header, walk: seq<int32>, stale: seq<int32>)
    requires walk != [] && walk[|walk| - 1] == END_OF_CHAIN
    ensures FileBytes(disk, h, walk + stale) == FileBytes(disk, h, walk)
    ensures KernelReads(h, walk + stale) == KernelReads(h, walk)
    decreases |walk|
  {
    if walk[0] != END_OF_CHAIN {
      assert (walk + stale)[1..] == walk[1..] + stale;
      NothingBehindTheEnd(disk, h, walk[1..], stale);
    }
  }

  /** Entries left over behind a walk's end mark do not matter. */
  lemma FilledBytes(disk: Disk, h: Header, before: Clusters, start: int32)
    ensures var walk := PlainWalk(disk, h.fatLocation, start, 8);
            && FileBytes(disk, h, Filled(before, walk)) == FileBytes(disk, h, walk)
            && KernelReads(h, Filled(before, walk)) == KernelReads(h, walk)
  {
    var walk := PlainWalk(disk, h.fatLocation, start, 8);
    WalkIsFullOrEnds(disk, h.fatLocation, start, 8);
    if |walk| == 8 {
      assert Filled(before, walk) == walk;
    } else {
      NothingBehindTheEnd(disk, h, walk, before[|walk|..]);
    }
  }

  lemma ReadyKeeps(disk: Disk, bad: nat -> bool, v: Volume)
    requires FitsBuffer(v.header)
    ensures var r := Ready(disk, bad, v).volume;
            |r.trace| >= |v.trace| && r.cache == v.cache && r.printed == v.printed && r.header == v.header
  {
    ReadRunIs(disk, bad, DeviceSector(v.header, v.dir[0]), v.header.sectorsPerCluster, v.buffer, 0, v.trace);
  }

  /** The whole way: findFile fills in the clusters of the file it finds, printFile prints
      them. What appears is the file, its chain followed on the disk without a cache, as far
      as eight clusters and the recorded size go. */
  lemma FoundFileIsPrinted(disk: Disk, bad: nat -> bool, v: Volume, name: CString, before: Clusters, r: Record)
    requires Scannable(v.header) && v.header.sectorsPerCluster == 4 && forall i :: i >= |v.trace| ==> !bad(i)
    requires Good(disk, v.header.fatLocation, v.cache)
    requires Coherent(disk, v.header.fatLocation, v.cache) || Askable(StartCluster(v.header, r))
    requires |name| <= LONGEST_NAME && Ready(disk, bad, v).ok
             ==> InBounds(DirectoryRecords(Ready(disk, bad, v).volume), Initial())
    requires SearchFor(disk, bad, v, name).lookup == Found(r) && SizeOf(r) >= -0x8000_0000 + 0x4000
    ensures var start, found := StartCluster(v.header, r), SearchFor(disk, bad, v, name).volume;
            var w := Traversal(disk, bad, found, start);
            && w.ok
            && PrintChain(disk, bad, AfterWalk(found, w).(dirIdx := -1), Filled(before, w.clusters), SizeOf(r)).printed
               == v.printed + Prefix(FileBytes(disk, v.header, PlainWalk(disk, v.header.fatLocation, start, 8)),
                                     SizeOf(r))
  {
    var start, found := StartCluster(v.header, r), SearchFor(disk, bad, v, name).volume;
    ReadyKeeps(disk, bad, v);
    var w := Traversal(disk, bad, found, start);
    WalkIsPlain(disk, bad, v.header.fatLocation, found.cache, start, 8, found.trace);
    WalkFailsIffReadFails(disk, bad, v.header.fatLocation, found.cache, start, 8, found.trace);
    FilledBytes(disk, v.header, before, start);
    PrintsFile(disk, bad, AfterWalk(found, w).(dirIdx := -1), Filled(before, w.clusters), SizeOf(r));
  }

  /** Mounting with nothing loaded yet leaves a coherent cache: the walk from the root has
      read a FAT sector. */
  lemma MountLoadsCache(disk: Disk, bad: nat -> bool, v: Volume)
    requires FitsBuffer(Decode(disk(1))) && v.cache == Cold() && Mount(disk, bad, v).ok
    requires var root := Signed(Decode(disk(1)).rootDirStartCluster); root != END_OF_CHAIN && Askable(root)
    ensures var o := Mount(disk, bad, v).volume;
            && o.header == Decode(disk(1)) && o.printed == v.printed && |o.trace| >= |v.trace|
            && Coherent(disk, o.header.fatLocation, o.cache)
  {
    var read := WithHeader(disk, bad, v).volume;
    var h := read.header;
    var root := Signed(h.rootDirStartCluster);
    var f := Fetch(disk, bad, h.fatLocation, read.cache, root / 128, read.trace);
    FetchIsCoherent(disk, bad, h.fatLocation, read.cache, root, read.trace);
    WalkLoads(disk, bad, h.fatLocation, f.cache, EntryOf(f.cache, root), 7, f.trace);
    WalkFailsIffReadFails(disk, bad, h.fatLocation, read.cache, root, 8, read.trace);
    var w := Traversal(disk, bad, read, root);
    var walked := AfterWalk(read, w).(dir := Filled(read.dir, w.clusters));
    ReadRunIs(disk, bad, DeviceSector(h, walked.dir[0]), h.sectorsPerCluster, walked.buffer, 0, walked.trace);
  }

  lemma {:induction false} WalkKeepsTrace(disk: Disk, bad: nat -> bool, fatBase: dword, cache: Cache, cluster: int32,
                                          room: nat, trace: seq<nat>)
    requires room > 0
    ensures trace <= CachedWalk(disk, bad, fatBase, cache, cluster, room, trace).trace
    decreases room
  {
    if cluster != END_OF_CHAIN && room > 1 {
      var f := Fetch(disk, bad, fatBase, cache, cluster / 128, trace);
      if f.ok {
        WalkKeepsTrace(disk, bad, fatBase, f.cache, EntryOf(f.cache, cluster), room - 1, f.trace);
      }
    }
  }

  /** The first sector mounting asks for is the partition's first, number 1. If it cannot be read
      nothing else changes. */
  lemma MountReadsSectorOne(disk: Disk, bad: nat -> bool, v: Volume)
    requires FitsBuffer(Decode(disk(1)))
    ensures v.trace + [1] <= Mount(disk, bad, v).volume.trace
    ensures bad(|v.trace|) ==> Mount(disk, bad, v) == Outcome(false, v.(trace := v.trace + [1]))
  {
    var o := WithHeader(disk, bad, v);
    if o.ok {
      var h := o.volume.header;
      var root := Signed(h.rootDirStartCluster);
      var w := Traversal(disk, bad, o.volume, root);
      WalkKeepsTrace(disk, bad, h.fatLocation, o.volume.cache, root, 8, o.volume.trace);
      var walked := AfterWalk(o.volume, w).(dir := Filled(o.volume.dir, w.clusters));
      ReadRunIs(disk, bad, DeviceSector(h, walked.dir[0]), h.sectorsPerCluster, walked.buffer, 0, walked.trace);
    }
  }

  /** Mounting fails exactly when a read it made failed. */
  lemma MountFailsIffReadFails(disk: Disk, bad: nat -> bool, v: Volume)
    requires FitsBuffer(Decode(disk(1)))
    ensures var o := Mount(disk, bad, v);
            |o.volume.trace| >= |v.trace| && (o.ok <==> forall i :: |v.trace| <= i < |o.volume.trace| ==> !bad(i))
  {
    var o := WithHeader(disk, bad, v);
    if !o.ok {
      assert bad(|v.trace|);
    } else {
      var root := Signed(o.volume.header.rootDirStartCluster);
      var w := Traversal(disk, bad, o.volume, root);
      WalkFailsIffReadFails(disk, bad, o.volume.header.fatLocation, o.volume.cache, root, 8, o.volume.trace);
      var walked := AfterWalk(o.volume, w).(dir := Filled(o.volume.dir, w.clusters));
      if w.ok {
        BufferIsNamed(disk, bad, walked, walked.dir[0]);
      }
    }
  }

  /** Mount, find, print, on any disk with a root the walk can start from: what appears of a
      file found in the root is its chain on the disk, as far as eight clusters and the
      recorded size go, whatever its start cluster. */
  lemma MountedFileIsPrinted(disk: Disk, bad: nat -> bool, v: Volume, name: CString, before: Clusters, r: Record)
    requires Scannable(Decode(disk(1))) && Decode(disk(1)).sectorsPerCluster == 4
    requires v.cache == Cold() && Mount(disk, bad, v).ok && forall i :: i >= |v.trace| ==> !bad(i)
    requires var root := Signed(Decode(disk(1)).rootDirStartCluster); root != END_OF_CHAIN && Askable(root)
    requires var o := Mount(disk, bad, v).volume;
             && o.header == Decode(disk(1))
             && (|name| <= LONGEST_NAME && Ready(disk, bad, o).ok
                 ==> InBounds(DirectoryRecords(Ready(disk, bad, o).volume), Initial()))
             && SearchFor(disk, bad, o, name).lookup == Found(r) && SizeOf(r) >= -0x8000_0000 + 0x4000
    ensures var o := Mount(disk, bad, v).volume;
            var start, found := StartCluster(o.header, r), SearchFor(disk, bad, o, name).volume;
            var w := Traversal(disk, bad, found, start);
            && w.ok
            && PrintChain(disk, bad, AfterWalk(found, w).(dirIdx := -1), Filled(before, w.clusters), SizeOf(r)).printed
               == v.printed + Prefix(FileBytes(disk, o.header, PlainWalk(disk, o.header.fatLocation, start, 8)),
                                     SizeOf(r))
  {
    MountLoadsCache(disk, bad, v);
    FoundFileIsPrinted(disk, bad, Mount(disk, bad, v).volume, name, before, r);
  }

  // ----------------------------------------------------- which directory is looked at

  lemma {:induction false} PrintKeepsDirectory(disk: Disk, bad: nat -> bool, v: Volume, clusters: seq<int32>,
                                               size: int32)
    requires FitsBuffer(v.header)
    ensures var p := PrintChain(disk, bad, v, clusters, size);
            p.dir == v.dir && p.dirIdx == v.dirIdx && p.header == v.header && |p.trace| >= |v.trace|
    decreases |clusters|
  {
    if clusters != [] && clusters[0] != END_OF_CHAIN {
      var n := v.header.sectorsPerCluster;
      ReadRunIs(disk, bad, DeviceSector(v.header, clusters[0]), n, v.buffer, 0, v.trace);
      PrintKeepsDirectory(disk, bad, PrintCluster(disk, bad, v, clusters[0], size), clusters[1..], Signed(size - 2048));
    }
  }

  /** openDirectory leaves the clusters of currentDir alone. The directory opened is the one
      searched as long as its cluster is in the buffer; once a file has been printed, the
      searches are back at the first cluster of currentDir. */
  lemma PrintForgetsDirectory(disk: Disk, bad: nat -> bool, v: Volume, first: int32, clusters: seq<int32>, size: int32)
    requires Scannable(v.header) && forall i :: i >= |v.trace| ==> !bad(i)
    ensures var now := Opened(disk, bad, v, first).volume;
            var later := PrintChain(disk, bad, now.(dirIdx := -1), clusters, size);
            && later.header == now.header == v.header
            && DirectoryRecords(Ready(disk, bad, now).volume) == Records(ClusterContents(disk, v.header, first))
            && DirectoryRecords(Ready(disk, bad, later).volume) == Records(ClusterContents(disk, v.header, v.dir[0]))
  {
    var now := Opened(disk, bad, v, first).volume;
    LoadsContents(disk, bad, v, first);
    PrintKeepsDirectory(disk, bad, now.(dirIdx := -1), clusters, size);
    LoadsContents(disk, bad, PrintChain(disk, bad, now.(dirIdx := -1), clusters, size), v.dir[0]);
  }

  lemma FirstByteOfCluster(disk: Disk, h: Header, index: int32)
    requires Scannable(h)
    ensures Records(ClusterContents(disk, h, index))[0][0] == disk(DeviceSector(h, index))[0]
  {
    assert ClusterContents(disk, h, index)[0] == disk(DeviceSector(h, index))[0];
  }
}
