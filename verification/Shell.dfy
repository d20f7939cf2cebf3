/** What a run of commands amounts to on a disk without failures: a shell with a current
    directory and an output, and neither caches nor buffers. Its `cat` is the kernel's: it
    prints whole buffers, and it leaves the directory that was opened. */
module Shell {
  import opened Words
  import opened Drive
  import opened Header
  import opened FatWalk
  import opened ShortName
  import opened Directory
  import opened Volume
  import opened KernelRuns

  /** The first cluster of the directory commands look at, and everything printed. */
  datatype Shell = Shell(cwd: int32, printed: seq<byte>)

  function DirectoryAt(disk: Disk, h: Header, cluster: int32): seq<Record> {
    Records(ClusterContents(disk, h, cluster))
  }

  /** A cluster as it stands in the buffer of a kernel that has never put anything else there. */
  function Padded(disk: Disk, h: Header, index: int32): (s: seq<byte>)
    requires FitsBuffer(h)
    ensures |s| == 2048
  {
    ClusterContents(disk, h, index) + seq(2048 - SECTOR * h.sectorsPerCluster, _ => 0)
  }

  /** What is printed of a chain: whole buffers, the size going down by 2048 in 32-bit arithmetic. */
  function ChainPrinted(disk: Disk, h: Header, clusters: seq<int32>, size: int32): seq<byte>
    requires FitsBuffer(h)
  {
    if clusters == [] || clusters[0] == END_OF_CHAIN then []
    else Padded(disk, h, clusters[0])[..Chunk(size)] + ChainPrinted(disk, h, clusters[1..], Signed(size - 2048))
  }

  function LookUp(disk: Disk, h: Header, cwd: int32, name: CString): Lookup {
    var recs := DirectoryAt(disk, h, cwd);
    if |name| > LONGEST_NAME || !InBounds(recs, Initial()) then Missing else Find(recs, Initial(), SearchKey(name))
  }

  function Do(disk: Disk, h: Header, s: Shell, c: Command): Shell
    requires FitsBuffer(h)
  {
    if c.Ls? then
      var recs := DirectoryAt(disk, h, s.cwd);
      if InBounds(recs, Initial()) then s.(printed := s.printed + Listing(recs, Initial())) else s
    else
      var found := LookUp(disk, h, s.cwd, c.name);
      if found.Missing? || IsDirectory(found.rec) != c.Cd? then s
      else if c.Cd? then s.(cwd := StartCluster(h, found.rec))
      else Shell(Root(h), s.printed + FilePrinted(disk, h, found.rec))
  }

  function FilePrinted(disk: Disk, h: Header, r: Record): seq<byte>
    requires FitsBuffer(h)
  {
    ChainPrinted(disk, h, PlainWalk(disk, h.fatLocation, StartCluster(h, r), 8), SizeOf(r))
  }

  /** The shell after these commands, from the root. */
  function ShellAfter(disk: Disk, h: Header, cmds: seq<Command>): Shell
    requires FitsBuffer(h)
  {
    if cmds == [] then Shell(Root(h), [])
    else Do(disk, h, ShellAfter(disk, h, cmds[..|cmds| - 1]), cmds[|cmds| - 1])
  }

  // --------------------------------------------------------------------- the kernel is that

  /** The directory the kernel has opened, or the root if none counts as opened. */
  ghost predicate InDirectory(disk: Disk, v: Volume, cwd: int32)
    requires FitsBuffer(v.header)
  {
    if v.dirIdx == 0 then v.buffer[..SECTOR * v.header.sectorsPerCluster] == ClusterContents(disk, v.header, cwd)
    else cwd == Root(v.header)
  }

  ghost predicate Mirrors(disk: Disk, v: Volume, s: Shell) {
    Settled(disk, v) && Warm(disk, v) && InDirectory(disk, v, s.cwd) && v.printed == s.printed
  }

  lemma ReadyMirrors(disk: Disk, v: Volume, s: Shell)
    requires Mirrors(disk, v, s) && Scannable(v.header)
    ensures var o := Ready(disk, Never(), v);
            && o.ok && Mirrors(disk, o.volume, s) && o.volume.cache == v.cache
            && DirectoryRecords(o.volume) == DirectoryAt(disk, v.header, s.cwd)
  {
    ReadySettles(disk, Never(), v);
    LoadsContents(disk, Never(), v, v.dir[0]);
  }

  lemma ListMirrors(disk: Disk, v: Volume, s: Shell)
    requires Mirrors(disk, v, s) && Allowed(disk, Never(), v, Ls)
    ensures Mirrors(disk, Listed(disk, Never(), v), Do(disk, v.header, s, Ls))
  {
    ReadyMirrors(disk, v, s);
  }

  lemma SearchMirrors(disk: Disk, v: Volume, s: Shell, c: Command)
    requires Mirrors(disk, v, s) && !c.Ls? && Allowed(disk, Never(), v, c)
    ensures var f := SearchFor(disk, Never(), v, c.name);
            f.lookup == LookUp(disk, v.header, s.cwd, c.name) && Mirrors(disk, f.volume, s)
  {
    ReadyMirrors(disk, v, s);
  }

  lemma EnterMirrors(disk: Disk, v: Volume, s: Shell, r: Record)
    requires Mirrors(disk, v, s)
    ensures Mirrors(disk, Enter(disk, Never(), v, r),
                    if IsDirectory(r) then s.(cwd := StartCluster(v.header, r)) else s)
  {
    var start := StartCluster(v.header, r);
    var walked := AfterWalk(v, Traversal(disk, Never(), v, start));
    WalkStaysWarm(disk, Never(), v, start);
    EnterSettles(disk, Never(), v, r);
    LoadsContents(disk, Never(), walked, start);
  }

  /** With a zero tail, what printFile prints is what the plain shell prints. */
  lemma {:induction false} PrintsPadded(disk: Disk, v: Volume, clusters: seq<int32>, size: int32)
    requires FitsBuffer(v.header) && ZeroTail(v)
    ensures PrintChain(disk, Never(), v, clusters, size).printed
            == v.printed + ChainPrinted(disk, v.header, clusters, size)
    decreases |clusters|
  {
    if clusters != [] && clusters[0] != END_OF_CHAIN {
      var next := PrintCluster(disk, Never(), v, clusters[0], size);
      ClusterIsPadded(disk, v, clusters[0]);
      ReadsKeepTail(disk, Never(), v, clusters[0]);
      PrintsPadded(disk, next, clusters[1..], Signed(size - 2048));
      Associate(v.printed, Padded(disk, v.header, clusters[0])[..Chunk(size)],
                ChainPrinted(disk, v.header, clusters[1..], Signed(size - 2048)));
    }
  }

  lemma ClusterIsPadded(disk: Disk, v: Volume, index: int32)
    requires FitsBuffer(v.header) && ZeroTail(v)
    ensures WithCluster(disk, Never(), v, index).volume.buffer == Padded(disk, v.header, index)
  {
    LoadsContents(disk, Never(), v, index);
    var n := SECTOR * v.header.sectorsPerCluster;
    assert v.buffer[n..] == seq(2048 - n, _ => 0);
  }

  lemma {:induction false} StaleIsNotPrinted(disk: Disk, h: Header, walk: seq<int32>, stale: seq<int32>, size: int32)
    requires FitsBuffer(h) && walk != [] && walk[|walk| - 1] == END_OF_CHAIN
    ensures ChainPrinted(disk, h, walk + stale, size) == ChainPrinted(disk, h, walk, size)
    decreases |walk|
  {
    if walk[0] != END_OF_CHAIN {
      assert (walk + stale)[1..] == walk[1..] + stale;
      StaleIsNotPrinted(disk, h, walk[1..], stale, Signed(size - 2048));
    }
  }

  lemma FilledIsPrinted(disk: Disk, h: Header, stale: Clusters, start: int32, size: int32)
    requires FitsBuffer(h)
    ensures var walk := PlainWalk(disk, h.fatLocation, start, 8);
            ChainPrinted(disk, h, Filled(stale, walk), size) == ChainPrinted(disk, h, walk, size)
  {
    var walk := PlainWalk(disk, h.fatLocation, start, 8);
    WalkIsFullOrEnds(disk, h.fatLocation, start, 8);
    if |walk| == 8 {
      assert Filled(stale, walk) == walk;
    } else {
      StaleIsNotPrinted(disk, h, walk, stale[|walk|..], size);
    }
  }

  lemma WalkIsOnDisk(disk: Disk, v: Volume, start: int32)
    requires Warm(disk, v)
    ensures Traversal(disk, Never(), v, start).clusters == PlainWalk(disk, v.header.fatLocation, start, 8)
  {
    WalkIsPlain(disk, Never(), v.header.fatLocation, v.cache, start, 8, v.trace);
    WalkFailsIffReadFails(disk, Never(), v.header.fatLocation, v.cache, start, 8, v.trace);
  }

  lemma PrintMirrors(disk: Disk, v: Volume, s: Shell, r: Record, stale: Clusters)
    requires Mirrors(disk, v, s)
    ensures Mirrors(disk, PrintFound(disk, Never(), v, r, stale),
                    if IsDirectory(r) then s else Shell(Root(v.header), s.printed + FilePrinted(disk, v.header, r)))
  {
    var start := StartCluster(v.header, r);
    var walked := AfterWalk(v, Traversal(disk, Never(), v, start)).(dirIdx := -1);
    var clusters := Filled(stale, Traversal(disk, Never(), v, start).clusters);
    WalkStaysWarm(disk, Never(), v, start);
    PrintSettles(disk, Never(), v, r, stale);
    WalkIsOnDisk(disk, v, start);
    PrintsPadded(disk, walked, clusters, SizeOf(r));
    FilledIsPrinted(disk, v.header, stale, start, SizeOf(r));
    PrintKeepsTail(disk, Never(), walked, clusters, SizeOf(r));
  }

  lemma CommandMirrors(disk: Disk, v: Volume, s: Shell, c: Command)
    requires Mirrors(disk, v, s) && Allowed(disk, Never(), v, c)
    ensures Mirrors(disk, Execute(disk, Never(), v, c), Do(disk, v.header, s, c))
  {
    if c.Ls? {
      ListMirrors(disk, v, s);
    } else {
      SearchMirrors(disk, v, s, c);
      var f := SearchFor(disk, Never(), v, c.name);
      if f.lookup.Found? {
        if c.Cd? {
          EnterMirrors(disk, f.volume, s, f.lookup.rec);
        } else {
          PrintMirrors(disk, f.volume, s, f.lookup.rec, c.stale);
        }
      }
    }
  }

  /** Every run of commands, on every disk with a root the walk can start from: the output is the
      shell's, and the directory commands look at is the shell's. */
  lemma {:induction false} RunIsShell(disk: Disk, cmds: seq<Command>)
    requires AllowedRun(disk, Never(), cmds) && RootAskable(Decode(disk(1)))
    ensures FitsBuffer(Decode(disk(1)))
    ensures Mirrors(disk, After(disk, Never(), cmds), ShellAfter(disk, Decode(disk(1)), cmds))
    decreases |cmds|
  {
    var h := Decode(disk(1));
    if cmds == [] {
      RunSettles(disk, Never(), cmds);
      RunStaysWarm(disk, Never(), cmds);
      MountSettles(disk, Never());
      MountOpensRoot(disk);
    } else {
      RunIsShell(disk, cmds[..|cmds| - 1]);
      CommandMirrors(disk, After(disk, Never(), cmds[..|cmds| - 1]), ShellAfter(disk, h, cmds[..|cmds| - 1]),
                     cmds[|cmds| - 1]);
    }
  }

  lemma MountOpensRoot(disk: Disk)
    requires FitsBuffer(Decode(disk(1))) && Mount(disk, Never(), PowerOn()).ok
    ensures var o := Mount(disk, Never(), PowerOn()).volume; o.dirIdx == 0 && InDirectory(disk, o, Root(o.header))
  {
    var read := WithHeader(disk, Never(), PowerOn()).volume;
    var w := Traversal(disk, Never(), read, Root(read.header));
    var walked := AfterWalk(read, w).(dir := Filled(read.dir, w.clusters));
    LoadsContents(disk, Never(), walked, walked.dir[0]);
  }

  /** With clusters of 2048 bytes what is printed of a chain is the part its size covers. */
  lemma {:induction false} WholeClustersPrinted(disk: Disk, h: Header, clusters: seq<int32>, size: int32)
    requires h.sectorsPerCluster == 4 && size - 2048 * |clusters| >= -0x8000_0000
    ensures ChainPrinted(disk, h, clusters, size) == Prefix(FileBytes(disk, h, clusters), size)
    decreases |clusters|
  {
    if clusters != [] && clusters[0] != END_OF_CHAIN {
      var here, rest := ClusterContents(disk, h, clusters[0]), FileBytes(disk, h, clusters[1..]);
      SignedIsIdentity(size - 2048);
      WholeClustersPrinted(disk, h, clusters[1..], size - 2048);
      assert Padded(disk, h, clusters[0]) == here && here[..Chunk(size)] == Prefix(here, size);
      PrefixOfParts([], here, rest, size);
      assert forall s: seq<byte> :: [] + s == s;
    }
  }
}
