/** What the kernel (drivers/filesys.c) finds on a disk the media utility has formatted. */
module FormatThenMount {
  import opened Words
  import opened Drive
  import opened Header
  import opened Layout
  import opened FatWalk
  import opened ShortName
  import opened Directory
  import opened Volume
  import KernelRuns
  import FileSystem
  import Format

  /** Headers the utility can lay out and the kernel can use: a cluster fits the buffer, and
      the root lies within the reach of three address bytes. */
  ghost predicate Mountable(h: Header, sectors: nat) {
    && LaidOut(h, sectors) && Scannable(h) && h.rootDirStartCluster == 2
    && h.clusterLocation + 4 <= 0x100_0000
  }

  lemma BuiltIsMountable(geometry: Format.DriveGeometry, volumeId: dword)
    ensures Mountable(Format.BuiltHeader(geometry, volumeId), Format.BUILT_SECTORS)
  {
  }

  /** The chain of the root: one cluster. */
  lemma RootChain(disk: Disk, bad: nat -> bool, v: Volume)
    requires Mountable(v.header, v.header.bigTotalSectors) && Format.Cleared(disk, v.header)
    requires v.cache.idx != 0 && !bad(|v.trace|)
    ensures var w := Traversal(disk, bad, v, 2);
            w.ok && w.clusters == [2, END_OF_CHAIN] && w.trace == v.trace + [v.header.fatLocation]
  {
    var f := Fetch(disk, bad, v.header.fatLocation, v.cache, 2 / 128, v.trace);
    assert DeviceLba(v.header.fatLocation + 0) == v.header.fatLocation;
    assert f.ok && f.cache.bytes == Format.FirstFatSector();
    assert EntryOf(f.cache, 2) == END_OF_CHAIN;
    var rest := CachedWalk(disk, bad, v.header.fatLocation, f.cache, END_OF_CHAIN, 7, f.trace);
    assert rest.clusters == [END_OF_CHAIN];
  }

  lemma RootSector(h: Header)
    requires Mountable(h, h.bigTotalSectors)
    ensures DeviceSector(h, 2) == h.clusterLocation
  {
  }

  /** The root cluster is loaded, and it is empty. */
  lemma RootIsEmpty(disk: Disk, bad: nat -> bool, v: Volume)
    requires Mountable(v.header, v.header.bigTotalSectors) && Format.Cleared(disk, v.header)
    requires forall i :: i >= |v.trace| ==> !bad(i)
    ensures var o := WithCluster(disk, bad, v, 2);
            o.ok && forall k :: 0 <= k < SECTOR * v.header.sectorsPerCluster ==> o.volume.buffer[k] == 0
  {
    var n := v.header.sectorsPerCluster;
    RootSector(v.header);
    AllSucceed(bad, |v.trace|, n);
    ReadRunIs(disk, bad, v.header.clusterLocation, n, v.buffer, 0, v.trace);
    ZeroSectors(disk, v.header.clusterLocation, n);
  }

  lemma EmptyDirectory(v: Volume)
    requires Scannable(v.header) && forall k :: 0 <= k < SECTOR * v.header.sectorsPerCluster ==> v.buffer[k] == 0
    ensures IsDirectoryOf(DirectoryRecords(v), []) && StaysInside(v)
  {
    var recs := DirectoryRecords(v);
    assert recs[0][0] == v.buffer[0];
    assert IsEnd(recs[0]);
  }

  /** Mounting a formatted disk succeeds and recovers the header; the root's chain is its
      one cluster. */
  lemma MountSucceeds(before: Disk, disk: Disk, code: seq<byte>, h: Header, bad: nat -> bool, v: Volume)
    requires Mountable(h, h.bigTotalSectors) && Format.Formatted(before, disk, code, h)
    requires v.cache.idx != 0 && forall i :: i >= |v.trace| ==> !bad(i)
    ensures var o := Mount(disk, bad, v);
            && o.ok && o.volume.header == h && o.volume.dirIdx == 0 && o.volume.dir[..2] == [2, END_OF_CHAIN]
            && o.volume.printed == v.printed
            && IsDirectoryOf(DirectoryRecords(o.volume), []) && StaysInside(o.volume)
  {
    var read := WithHeader(disk, bad, v).volume;
    assert read.header == h;
    RootChain(disk, bad, read);
    SignedIsIdentity(2);
    var w := Traversal(disk, bad, read, 2);
    var walked := AfterWalk(read, w).(dir := Filled(read.dir, w.clusters));
    RootIsEmpty(disk, bad, walked);
    EmptyDirectory(Opened(disk, bad, walked, 2).volume);
  }

  /** End to end: what the kernel sees of a disk that has just been formatted. The header
      is the one written, the root is one cluster, no name is found, the listing is empty,
      and the signature safetyCheck looks for is in place. */
  lemma FormatThenMount(before: Disk, disk: Disk, code: seq<byte>, h: Header, bad: nat -> bool, v: Volume)
    requires Mountable(h, h.bigTotalSectors) && Format.Formatted(before, disk, code, h)
    requires v.cache.idx != 0 && forall i :: i >= |v.trace| ==> !bad(i)
    ensures var o := Mount(disk, bad, v);
            && o.ok && o.volume.header == h && o.volume.dir[..2] == [2, END_OF_CHAIN]
            && StaysInside(o.volume)
            && (forall name: CString :: SearchFor(disk, bad, o.volume, name).lookup == Missing)
            && Listed(disk, bad, o.volume).printed == v.printed
    ensures Holds(disk(0), Format.SIGNATURE_AT, Format.SIGNATURE)
  {
    MountSucceeds(before, disk, code, h, bad, v);
    var mounted := Mount(disk, bad, v).volume;
    DirectoryOperations(disk, bad, mounted, []);
    assert mounted.printed + [] == mounted.printed;
  }

  /** On a formatted disk every sequence of commands at all stays inside the root's cluster,
      prints nothing, and leaves the volume as mounting has left it. */
  lemma {:induction false} FreshRuns(before: Disk, disk: Disk, code: seq<byte>, h: Header,
                                     cmds: seq<KernelRuns.Command>)
    requires Mountable(h, h.bigTotalSectors) && Format.Formatted(before, disk, code, h)
    ensures KernelRuns.AllowedRun(disk, Never(), cmds)
    ensures KernelRuns.After(disk, Never(), cmds) == Mount(disk, Never(), KernelRuns.PowerOn()).volume
    ensures KernelRuns.After(disk, Never(), cmds).printed == []
    decreases |cmds|
  {
    var v := KernelRuns.PowerOn();
    MountSucceeds(before, disk, code, h, Never(), v);
    if cmds != [] {
      FreshRuns(before, disk, code, h, cmds[..|cmds| - 1]);
      NothingHappens(disk, Mount(disk, Never(), v).volume, cmds[|cmds| - 1]);
    }
  }

  /** A command in an empty directory that is in the buffer. */
  lemma NothingHappens(disk: Disk, v: Volume, c: KernelRuns.Command)
    requires Scannable(v.header) && v.dirIdx == 0 && IsDirectoryOf(DirectoryRecords(v), []) && StaysInside(v)
    ensures KernelRuns.Allowed(disk, Never(), v, c) && KernelRuns.Execute(disk, Never(), v, c) == v
  {
    DirectoryOperations(disk, Never(), v, []);
    assert v.printed + [] == v.printed;
  }

  /** The same with the operations themselves: the utility formats the drive, the kernel
      mounts it, looks for a name and lists the root. */
  method FormatAndMount(drive: Drive, geometry: Format.DriveGeometry, code: seq<byte>, volumeId: dword, name: CString)
    returns (check: int, fs: FileSystem.FileSystem, found: int)
    requires forall i: nat :: !drive.bad(i)
    modifies drive
    ensures check == 0 && fs.fileSys.fields == Format.BuiltHeader(geometry, volumeId)
    ensures found == -1 && fs.printed == []
  {
    ghost var before, h := drive.disk, Format.BuiltHeader(geometry, volumeId);
    BuiltIsMountable(geometry, volumeId);
    var built := Format.Build(drive, Format.Some(geometry), Format.Some(code), true, volumeId, _ => true);
    check := Format.SafetyCheck(drive, Format.SIGNATURE_AT, Format.SIGNATURE);

    fs := new FileSystem.FileSystem(drive, Format.NewHeader());
    MountSucceeds(before, drive.disk, code, h, drive.bad, fs.View());
    FormatThenMount(before, drive.disk, code, h, drive.bad, fs.View());
    var mounted := fs.LoadFileSystem();
    var file := new FileSystem.File();
    found := fs.FindFile(name, file);
    fs.ListFiles();
  }
}
