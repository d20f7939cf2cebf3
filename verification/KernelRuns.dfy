/** The kernel from its start on: loadFileSystem, and then any number of the commands of
    kernel/kernel.c that use the volume. What every run keeps, and what a run amounts to. */
module KernelRuns {
  import opened Words
  import opened Drive
  import opened Header
  import opened FatWalk
  import opened ShortName
  import opened Directory
  import opened Volume

  // ------------------------------------------------------------------------- the commands

  /** `cd`, `cat` and `ls`. `stale` is what the file structure on cat's stack held before. */
  datatype Command = Cd(name: CString) | Cat(name: CString, stale: Clusters) | Ls

  /** fileSys before anything has been read. */
  function NoHeader(): Header {
    Header(seq(8, _ => 0), 0, 0, 0, 0, 0, 0, 0, 0, 0, 0, 0, 0, 0, 0, 0, 0, 0, 0, 0, 0, 0, 0, 0, 0, 0,
           seq(11, _ => 0), seq(8, _ => 0), 0, 0, 0, 0)
  }

  /** All globals are zero when the kernel starts, but for the marks that nothing is loaded. */
  function PowerOn(): Volume {
    Volume(NoHeader(), Cold(), -1, seq(2048, _ => 0), seq(8, _ => 0), -1, [], [])
  }

  function Root(h: Header): int32 { Signed(h.rootDirStartCluster) }

  /** The command's scan of the directory stays inside the buffered cluster. */
  ghost predicate Allowed(disk: Disk, bad: nat -> bool, v: Volume, c: Command) {
    && Scannable(v.header)
    && (Ready(disk, bad, v).ok && (c.Ls? || |c.name| <= LONGEST_NAME) ==> StaysInside(Ready(disk, bad, v).volume))
  }

  /** changeDirCMD, once findFile has come to this record. */
  function Enter(disk: Disk, bad: nat -> bool, v: Volume, r: Record): Volume
    requires FitsBuffer(v.header)
  {
    var start := StartCluster(v.header, r);
    var walked := AfterWalk(v, Traversal(disk, bad, v, start));
    if IsDirectory(r) then Opened(disk, bad, walked, start).volume else walked
  }

  /** printFileCMD, likewise. */
  function PrintFound(disk: Disk, bad: nat -> bool, v: Volume, r: Record, stale: Clusters): Volume
    requires FitsBuffer(v.header)
  {
    var w := Traversal(disk, bad, v, StartCluster(v.header, r));
    var walked := AfterWalk(v, w);
    if IsDirectory(r) then walked
    else PrintChain(disk, bad, walked.(dirIdx := -1), Filled(stale, w.clusters), SizeOf(r))
  }

  function Execute(disk: Disk, bad: nat -> bool, v: Volume, c: Command): Volume
    requires Allowed(disk, bad, v, c)
  {
    if c.Ls? then Listed(disk, bad, v)
    else
      var s := SearchFor(disk, bad, v, c.name);
      if s.lookup.Missing? then s.volume
      else if c.Cd? then Enter(disk, bad, s.volume, s.lookup.rec)
      else PrintFound(disk, bad, s.volume, s.lookup.rec, c.stale)
  }

  /** The file system is mounted, and every command's scan stays inside its cluster. */
  ghost predicate AllowedRun(disk: Disk, bad: nat -> bool, cmds: seq<Command>)
    decreases |cmds|, 0
  {
    if cmds == [] then FitsBuffer(Decode(disk(1))) && Mount(disk, bad, PowerOn()).ok
    else
      && AllowedRun(disk, bad, cmds[..|cmds| - 1])
      && Allowed(disk, bad, After(disk, bad, cmds[..|cmds| - 1]), cmds[|cmds| - 1])
  }

  /** The volume after mounting it and these commands. */
  ghost function After(disk: Disk, bad: nat -> bool, cmds: seq<Command>): Volume
    requires AllowedRun(disk, bad, cmds)
    decreases |cmds|, 1
  {
    if cmds == [] then Mount(disk, bad, PowerOn()).volume
    else Execute(disk, bad, After(disk, bad, cmds[..|cmds| - 1]), cmds[|cmds| - 1])
  }

  // -------------------------------------------------------------------- what every run keeps

  /** Behind the sectors of a cluster the cluster buffer is as it was when the kernel started. */
  ghost predicate ZeroTail(v: Volume)
    requires FitsBuffer(v.header)
  {
    forall k :: SECTOR * v.header.sectorsPerCluster <= k < 2048 ==> v.buffer[k] == 0
  }

  /** The header is that of the disk, currentDir the root, and no directory but the one in the
      buffer counts as opened. */
  ghost predicate Settled(disk: Disk, v: Volume) {
    && v.header == Decode(disk(1)) && FitsBuffer(v.header) && ZeroTail(v)
    && v.dir[0] == Root(v.header) && (v.dirIdx == 0 || v.dirIdx == -1)
  }

  /** Nothing of that depends on the FAT cache, the trace, or what has been printed. */
  lemma SettledBesides(disk: Disk, v: Volume, cache: Cache, trace: seq<nat>, printed: seq<byte>)
    requires Settled(disk, v)
    ensures Settled(disk, v.(cache := cache, trace := trace, printed := printed))
  {
  }

  /** No read of a cluster reaches the tail, failed or not. */
  lemma ReadsKeepTail(disk: Disk, bad: nat -> bool, v: Volume, index: int32)
    requires FitsBuffer(v.header) && ZeroTail(v)
    ensures var o := WithCluster(disk, bad, v, index).volume;
            && ZeroTail(o) && o.header == v.header && o.dir == v.dir && o.dirIdx == v.dirIdx && o.cache == v.cache
            && o.printed == v.printed && |o.trace| >= |v.trace|
  {
    ReadRunIs(disk, bad, DeviceSector(v.header, index), v.header.sectorsPerCluster, v.buffer, 0, v.trace);
  }

  lemma {:induction false} PrintKeepsTail(disk: Disk, bad: nat -> bool, v: Volume, clusters: seq<int32>, size: int32)
    requires FitsBuffer(v.header) && ZeroTail(v)
    ensures var p := PrintChain(disk, bad, v, clusters, size);
            && p.header == v.header && p.dir == v.dir && p.dirIdx == v.dirIdx && p.cache == v.cache
            && ZeroTail(p) && |p.trace| >= |v.trace|
    decreases |clusters|
  {
    if clusters != [] && clusters[0] != END_OF_CHAIN {
      ReadsKeepTail(disk, bad, v, clusters[0]);
      PrintKeepsTail(disk, bad, PrintCluster(disk, bad, v, clusters[0], size), clusters[1..], Signed(size - 2048));
    }
  }

  /** Mounting from the zeroed buffer. */
  lemma MountSettles(disk: Disk, bad: nat -> bool)
    requires FitsBuffer(Decode(disk(1))) && Mount(disk, bad, PowerOn()).ok
    ensures Settled(disk, Mount(disk, bad, PowerOn()).volume) && Mount(disk, bad, PowerOn()).volume.printed == []
  {
    var read := WithHeader(disk, bad, PowerOn()).volume;
    var w := Traversal(disk, bad, read, Root(read.header));
    var walked := AfterWalk(read, w).(dir := Filled(read.dir, w.clusters));
    ReadsKeepTail(disk, bad, walked, walked.dir[0]);
  }

  lemma ReadySettles(disk: Disk, bad: nat -> bool, v: Volume)
    requires Settled(disk, v)
    ensures var o := Ready(disk, bad, v).volume; Settled(disk, o) && o.cache == v.cache && o.printed == v.printed
  {
    ReadsKeepTail(disk, bad, v, v.dir[0]);
  }

  lemma EnterSettles(disk: Disk, bad: nat -> bool, v: Volume, r: Record)
    requires Settled(disk, v)
    ensures var w := Traversal(disk, bad, v, StartCluster(v.header, r));
            Settled(disk, Enter(disk, bad, v, r)) && Enter(disk, bad, v, r).cache == w.cache
  {
    var start := StartCluster(v.header, r);
    var w := Traversal(disk, bad, v, start);
    ReadsKeepTail(disk, bad, AfterWalk(v, w), start);
  }

  lemma PrintSettles(disk: Disk, bad: nat -> bool, v: Volume, r: Record, stale: Clusters)
    requires Settled(disk, v)
    ensures var w := Traversal(disk, bad, v, StartCluster(v.header, r));
            Settled(disk, PrintFound(disk, bad, v, r, stale)) && PrintFound(disk, bad, v, r, stale).cache == w.cache
  {
    var w := Traversal(disk, bad, v, StartCluster(v.header, r));
    PrintKeepsTail(disk, bad, AfterWalk(v, w).(dirIdx := -1), Filled(stale, w.clusters), SizeOf(r));
  }

  /** A coherent FAT cache stays coherent. */
  ghost predicate Warm(disk: Disk, v: Volume) { Coherent(disk, v.header.fatLocation, v.cache) }

  lemma WalkStaysWarm(disk: Disk, bad: nat -> bool, v: Volume, start: int32)
    requires Warm(disk, v)
    ensures Coherent(disk, v.header.fatLocation, Traversal(disk, bad, v, start).cache)
  {
    WalkIsPlain(disk, bad, v.header.fatLocation, v.cache, start, 8, v.trace);
  }

  lemma SearchSettles(disk: Disk, bad: nat -> bool, v: Volume, c: Command)
    requires Settled(disk, v) && !c.Ls? && Allowed(disk, bad, v, c)
    ensures var s := SearchFor(disk, bad, v, c.name).volume;
            Settled(disk, s) && s.cache == v.cache && s.printed == v.printed
  {
    ReadySettles(disk, bad, v);
  }

  lemma ExecuteSettles(disk: Disk, bad: nat -> bool, v: Volume, c: Command)
    requires Settled(disk, v) && Allowed(disk, bad, v, c)
    ensures Settled(disk, Execute(disk, bad, v, c))
    ensures Warm(disk, v) ==> Warm(disk, Execute(disk, bad, v, c))
  {
    if c.Ls? {
      ReadySettles(disk, bad, v);
    } else {
      SearchSettles(disk, bad, v, c);
      var s := SearchFor(disk, bad, v, c.name);
      if s.lookup.Found? {
        if Warm(disk, v) {
          WalkStaysWarm(disk, bad, s.volume, StartCluster(s.volume.header, s.lookup.rec));
        }
        if c.Cd? {
          EnterSettles(disk, bad, s.volume, s.lookup.rec);
        } else {
          PrintSettles(disk, bad, s.volume, s.lookup.rec, c.stale);
        }
      }
    }
  }

  /** In every run, failed reads and all: the header is that of the disk, currentDir is still the
      root, and nothing has come behind the sectors of a cluster in the buffer. */
  lemma {:induction false} RunSettles(disk: Disk, bad: nat -> bool, cmds: seq<Command>)
    requires AllowedRun(disk, bad, cmds)
    ensures Settled(disk, After(disk, bad, cmds))
    decreases |cmds|
  {
    if cmds == [] {
      MountSettles(disk, bad);
    } else {
      RunSettles(disk, bad, cmds[..|cmds| - 1]);
      ExecuteSettles(disk, bad, After(disk, bad, cmds[..|cmds| - 1]), cmds[|cmds| - 1]);
    }
  }

  /** The walk from the root asks for a FAT sector with a number of its own. */
  predicate RootAskable(h: Header) { Root(h) != END_OF_CHAIN && Askable(Root(h)) }

  /** In every run from such a root the FAT cache is coherent after every command. */
  lemma {:induction false} RunStaysWarm(disk: Disk, bad: nat -> bool, cmds: seq<Command>)
    requires AllowedRun(disk, bad, cmds) && RootAskable(Decode(disk(1)))
    ensures Warm(disk, After(disk, bad, cmds))
    decreases |cmds|
  {
    if cmds == [] {
      MountLoadsCache(disk, bad, PowerOn());
    } else {
      var before := cmds[..|cmds| - 1];
      RunStaysWarm(disk, bad, before);
      RunSettles(disk, bad, before);
      ExecuteSettles(disk, bad, After(disk, bad, before), cmds[|cmds| - 1]);
    }
  }

  // ----------------------------------------------------------- disks a kernel can be on

  /** Without failures every file system that fits the buffer is mounted. */
  lemma MountsWithoutFailures(disk: Disk)
    requires FitsBuffer(Decode(disk(1)))
    ensures AllowedRun(disk, Never(), [])
  {
    var read := WithHeader(disk, Never(), PowerOn()).volume;
    var w := Traversal(disk, Never(), read, Root(read.header));
    WalkFailsIffReadFails(disk, Never(), read.header.fatLocation, read.cache, Root(read.header), 8, read.trace);
    var walked := AfterWalk(read, w).(dir := Filled(read.dir, w.clusters));
    LoadsContents(disk, Never(), walked, walked.dir[0]);
  }

  /** A disk with this boot sector and ones everywhere else. */
  function BootAndOnes(boot: Sector): Disk { (n: nat) => if n == 1 then boot else seq(512, _ => 1) }

  /** A disk with this boot sector, one sector marked, and everything else marked otherwise. */
  function BootAndMark(boot: Sector, lba: nat): Disk {
    (n: nat) =>
      if n == 1 then boot
      else if n == lba then seq(512, _ => if boot[0] == 1 then 3 else 1)
      else seq(512, _ => if boot[0] == 2 then 3 else 2)
  }

  // ------------------------------------------------------------- the walk at mount

  /** The clusters loadFileSystem finds for the root. */
  function RootWalk(disk: Disk): seq<int32> {
    Traversal(disk, Never(), WithHeader(disk, Never(), PowerOn()).volume, Root(Decode(disk(1)))).clusters
  }

  /** They are those of the root's chain on the disk. */
  ghost predicate RootIsFound(disk: Disk) {
    var h := Decode(disk(1));
    RootWalk(disk) == PlainWalk(disk, h.fatLocation, Root(h), 8)
  }

  /** On every disk that begins with this boot sector. */
  ghost predicate RootIsAlwaysFound(boot: Sector) { forall disk: Disk | disk(1) == boot :: RootIsFound(disk) }

  /** The sector the empty cache is taken for is the boot sector itself, and has a 0 there. */
  predicate BootHoldsZero(boot: Sector, base: dword, root: int32) {
    DeviceLba(base - 1) == 1 && LittleDword(boot, root % 128 * 4) == 0
  }

  lemma RootIsFoundIff(disk: Disk, h: Header, root: int32)
    requires h == Decode(disk(1)) && root == Root(h)
    ensures RootIsFound(disk) <==> Askable(root) || PlainNext(disk, h.fatLocation, root) == 0
  {
    ColdWalkIsPlainIff(disk, h.fatLocation, root, WithHeader(disk, Never(), PowerOn()).volume.trace);
  }

  lemma OnesAreNotZero(sector: Sector, at: nat)
    requires at + 4 <= SECTOR && forall k :: 0 <= k < SECTOR ==> sector[k] == 1
    ensures Signed(LittleDword(sector, at)) != 0
  {
    assert LittleDword(sector, at) == 0x0101_0101;
  }

  lemma SignedZero(x: dword)
    ensures Signed(x) == 0 <==> x == 0
  {
  }

  /** The entry of a cluster in FAT sector -1, on the disk of ones. */
  lemma EntryOnOnes(boot: Sector, base: dword, root: int32)
    requires !Askable(root)
    ensures PlainNext(BootAndOnes(boot), base, root) == 0 <==> BootHoldsZero(boot, base, root)
  {
    if DeviceLba(base - 1) == 1 {
      SignedZero(LittleDword(boot, root % 128 * 4));
    } else {
      OnesAreNotZero(BootAndOnes(boot)(DeviceLba(base - 1)), root % 128 * 4);
    }
  }

  lemma MissedOnOnes(boot: Sector, disk: Disk, h: Header, root: int32)
    requires disk == BootAndOnes(boot) && h == Decode(disk(1)) && root == Root(h)
    requires !Askable(root) && !BootHoldsZero(boot, h.fatLocation, root)
    ensures !RootIsFound(disk)
  {
    RootIsFoundIff(disk, h, root);
    EntryOnOnes(boot, h.fatLocation, root);
  }

  /** A disk with this boot sector on which the root's chain is not found. */
  lemma RootIsMissed(boot: Sector) returns (disk: Disk)
    requires var h := Decode(boot); !Askable(Root(h)) && !BootHoldsZero(boot, h.fatLocation, Root(h))
    ensures disk(1) == boot && !RootIsFound(disk)
  {
    disk := BootAndOnes(boot);
    MissedOnOnes(boot, disk, Decode(boot), Root(Decode(boot)));
  }

  /** In the exception the entry is on the boot sector, whatever else is on the disk. */
  lemma EntryOnBoot(disk: Disk, base: dword, root: int32)
    requires !Askable(root) && BootHoldsZero(disk(1), base, root)
    ensures PlainNext(disk, base, root) == 0
  {
  }

  lemma FoundWithBoot(boot: Sector, disk: Disk, h: Header, root: int32)
    requires disk(1) == boot && h == Decode(boot) && root == Root(h)
    requires Askable(root) || BootHoldsZero(boot, h.fatLocation, root)
    ensures RootIsFound(disk)
  {
    RootIsFoundIff(disk, h, root);
    if !Askable(root) {
      EntryOnBoot(disk, h.fatLocation, root);
    }
  }

  /** loadFileSystem finds the root's chain on every disk with this boot sector if and only if
      the FAT sector of the root's first cluster is not numbered -1, or is the boot sector itself
      and holds a 0 there. */
  lemma RootIsAlwaysFoundIff(boot: Sector)
    ensures var h := Decode(boot);
            RootIsAlwaysFound(boot) <==> Askable(Root(h)) || BootHoldsZero(boot, h.fatLocation, Root(h))
  {
    var h := Decode(boot);
    if Askable(Root(h)) || BootHoldsZero(boot, h.fatLocation, Root(h)) {
      forall disk: Disk | disk(1) == boot
        ensures RootIsFound(disk)
      {
        FoundWithBoot(boot, disk, h, Root(h));
      }
    } else {
      var disk := RootIsMissed(boot);
    }
  }

  // ----------------------------------------------------- which directory is looked at

  /** A directory opened now is still the one searched after a file was printed. */
  ghost predicate OpenAfterPrint(disk: Disk, v: Volume, first: int32, clusters: seq<int32>, size: int32)
    requires Scannable(v.header)
  {
    var now := Opened(disk, Never(), v, first).volume.(dirIdx := -1);
    var later := PrintChain(disk, Never(), now, clusters, size);
    && later.header == v.header
    && DirectoryRecords(Ready(disk, Never(), later).volume) == Records(ClusterContents(disk, v.header, first))
  }

  /** That is so on every disk that begins with this boot sector, and after every run on it. */
  ghost predicate StaysOpen(boot: Sector, first: int32, clusters: seq<int32>, size: int32) {
    forall disk: Disk, cmds: seq<Command> | disk(1) == boot && AllowedRun(disk, Never(), cmds) ::
      var v := After(disk, Never(), cmds); Scannable(v.header) && OpenAfterPrint(disk, v, first, clusters, size)
  }

  lemma OpenAfterPrintIff(disk: Disk, v: Volume, first: int32, clusters: seq<int32>, size: int32)
    requires Scannable(v.header)
    ensures OpenAfterPrint(disk, v, first, clusters, size)
            <==> Records(ClusterContents(disk, v.header, v.dir[0])) == Records(ClusterContents(disk, v.header, first))
  {
    PrintForgetsDirectory(disk, Never(), v, first, clusters, size);
  }

  /** A disk on which the searches come to another directory after a file was printed. */
  lemma AnotherDirectoryIsSearched(boot: Sector, first: int32, clusters: seq<int32>, size: int32)
    requires Scannable(Decode(boot))
    requires DeviceSector(Decode(boot), first) != DeviceSector(Decode(boot), Root(Decode(boot)))
    ensures !StaysOpen(boot, first, clusters, size)
  {
    var h := Decode(boot);
    var disk := BootAndMark(boot, DeviceSector(h, first));
    assert disk(1) == boot;
    MountsWithoutFailures(disk);
    RunSettles(disk, Never(), []);
    OpenAfterPrintIff(disk, After(disk, Never(), []), first, clusters, size);
    FirstByteOfCluster(disk, h, first);
    FirstByteOfCluster(disk, h, Root(h));
  }

  /** The directory opened stays the one searched after a file was printed if and only if it
      begins where the root begins. */
  lemma StaysOpenIff(boot: Sector, first: int32, clusters: seq<int32>, size: int32)
    requires Scannable(Decode(boot))
    ensures StaysOpen(boot, first, clusters, size)
            <==> DeviceSector(Decode(boot), first) == DeviceSector(Decode(boot), Root(Decode(boot)))
  {
    if DeviceSector(Decode(boot), first) == DeviceSector(Decode(boot), Root(Decode(boot))) {
      forall disk: Disk, cmds: seq<Command> | disk(1) == boot && AllowedRun(disk, Never(), cmds)
        ensures var v := After(disk, Never(), cmds);
                Scannable(v.header) && OpenAfterPrint(disk, v, first, clusters, size)
      {
        RunSettles(disk, Never(), cmds);
        OpenAfterPrintIff(disk, After(disk, Never(), cmds), first, clusters, size);
      }
    } else {
      AnotherDirectoryIsSearched(boot, first, clusters, size);
    }
  }
}
