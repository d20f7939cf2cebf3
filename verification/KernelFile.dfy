/** The file the boot loader starts is the file the kernel shows: boot/boot.s and the commands
    of kernel/kernel.c on the same disk. */
module KernelFile {
  import opened Words
  import opened Drive
  import opened Header
  import opened ShortName
  import opened Directory
  import opened Volume
  import opened KernelRuns
  import opened Shell
  import opened Agreement
  import opened FindFileBoot
  import BootLoader
  import ClusterAddress
  import FatWalk
  import LoadFile
  import Machine

  // -------------------------------------------------------- the root directory to both

  lemma RecordsOfParts(a: seq<byte>, b: seq<byte>, n: nat)
    requires |a| == RECORD * n
    ensures Records(a + b) == Records(a) + Records(b)
  {
    forall i | 0 <= i < |Records(a + b)|
      ensures Records(a + b)[i] == (Records(a) + Records(b))[i]
    {
      if i < n {
        assert (a + b)[RECORD * i..RECORD * i + RECORD] == a[RECORD * i..RECORD * i + RECORD];
      } else {
        assert (a + b)[RECORD * i..RECORD * i + RECORD] == b[RECORD * (i - n)..RECORD * (i - n) + RECORD];
      }
    }
  }

  /** A search that ends among the first records does not look at the others. */
  lemma {:induction false} RawFindEnds(recs: seq<Record>, more: seq<Record>, key: seq<byte>)
    requires Ends(recs, key)
    ensures RawFind(recs + more, key) == RawFind(recs, key)
  {
    if !IsEnd(recs[0]) && recs[0][..NAME] != key {
      RawFindEnds(recs[1..], more, key);
      assert (recs + more)[1..] == recs[1..] + more;
    }
  }

  /** The boot sector in terms of both, and a root that begins with cluster 2, as the loader takes
      for granted. */
  ghost predicate Bootable(disk: Disk, g: Machine.Geometry, h: Header, root: seq<dword>) {
    && g == Machine.GeometryOf(disk(1)) && h == Decode(disk(1)) && Scannable(h)
    && Root(h) == 2 && InReach(g, 2) && root != [] && root[0] == 2
  }

  /** The first cluster of the root is the same to both. */
  lemma SameRootCluster(disk: Disk, g: Machine.Geometry, h: Header)
    requires SameVolume(g, h) && Root(h) == BootLoader.ROOT_CLUSTER && InReach(g, BootLoader.ROOT_CLUSTER)
    ensures ClusterContents(disk, h, Root(h))
            == Sectors(disk, ClusterAddress.ClusterLba(g.clusterBase, BootLoader.ROOT_CLUSTER, g.sectorsPerCluster),
                       g.sectorsPerCluster)
  {
    SignedIsIdentity(2);
    SameCluster(g, h, BootLoader.ROOT_CLUSTER);
  }

  /** The loader's root directory is the kernel's cluster and what comes behind it. */
  lemma RootContents(disk: Disk, g: Machine.Geometry, h: Header, root: seq<dword>)
    requires SameVolume(g, h) && Root(h) == BootLoader.ROOT_CLUSTER && InReach(g, BootLoader.ROOT_CLUSTER)
    requires root != [] && root[0] == BootLoader.ROOT_CLUSTER
    ensures LoadFile.Contents(disk, g, root)
            == ClusterContents(disk, h, Root(h)) + LoadFile.Contents(disk, g, root[1..])
  {
    SameRootCluster(disk, g, h);
  }

  /** So it begins with the records the kernel scans. */
  lemma RootBegins(disk: Disk, g: Machine.Geometry, h: Header, root: seq<dword>)
    requires SameVolume(g, h) && Root(h) == BootLoader.ROOT_CLUSTER && InReach(g, BootLoader.ROOT_CLUSTER)
    requires root != [] && root[0] == BootLoader.ROOT_CLUSTER
    ensures BootLoader.RootRecords(disk, g, root)
            == DirectoryAt(disk, h, Root(h)) + Records(LoadFile.Contents(disk, g, root[1..]))
  {
    RootContents(disk, g, h, root);
    RecordsOfParts(ClusterContents(disk, h, Root(h)), LoadFile.Contents(disk, g, root[1..]), 16 * h.sectorsPerCluster);
  }

  /** What the loader finds in the root, if it finds it in the cluster the kernel scans. */
  lemma LoaderFindsInFirst(disk: Disk, g: Machine.Geometry, h: Header, root: seq<dword>, key: CString)
    requires Bootable(disk, g, h, root) && Ends(DirectoryAt(disk, h, Root(h)), key)
    ensures RawFind(BootLoader.RootRecords(disk, g, root), key) == RawFind(DirectoryAt(disk, h, Root(h)), key)
  {
    BothReadTheHeader(disk(1));
    RootBegins(disk, g, h, root);
    RawFindEnds(DirectoryAt(disk, h, Root(h)), Records(LoadFile.Contents(disk, g, root[1..])), key);
  }

  // ---------------------------------------------------------------- the same file

  /** The loader comes to a short record, and the first file that bears the name has it. */
  ghost predicate SameRecord(items: seq<Item>, key: CString)
    requires |key| == NAME
  {
    var n, m := FirstRaw(items, key), FirstNamed(items, SearchKey(key));
    n != -1 && Straight(items[n], key) && m != -1 && items[m].short == items[n].short
  }

  /** The kernel finds the record the loader has found exactly under that condition. */
  lemma SameRecordIff(disk: Disk, g: Machine.Geometry, h: Header, root: seq<dword>, items: seq<Item>, key: CString,
                      r: Record)
    requires Bootable(disk, g, h, root) && |key| == NAME
    requires IsDirectoryOf(DirectoryAt(disk, h, Root(h)), items) && Ends(DirectoryAt(disk, h, Root(h)), key)
    requires RawFind(BootLoader.RootRecords(disk, g, root), key) == Found(r)
    ensures LookUp(disk, h, Root(h), key) == Found(r) <==> SameRecord(items, key)
  {
    var recs := DirectoryAt(disk, h, Root(h));
    LoaderFindsInFirst(disk, g, h, root, key);
    SearchesAgreeIff(recs, items, key);
    RawSeesItems(recs, items, key);
  }

  /** The chain the loader has loaded for a record is the file the kernel prints for it. */
  lemma SameFile(disk: Disk, g: Machine.Geometry, h: Header, kernel: seq<dword>, r: Record)
    requires g == Machine.GeometryOf(disk(1)) && h == Decode(disk(1)) && ClusterOf(r) != 0
    requires LoadFile.ChainOnDisk(disk, g.fatBase, kernel) && kernel[0] == LoaderCluster(r) && kernel[0] != END_OF_CHAIN
    requires |kernel| <= 8 && forall k :: 0 <= k < |kernel| ==> InReach(g, kernel[k])
    ensures FileBytes(disk, h, FatWalk.PlainWalk(disk, h.fatLocation, StartCluster(h, r), 8))
            == LoadFile.Contents(disk, g, kernel)
  {
    BothReadTheHeader(disk(1));
    StartClustersAgreeIff(h, r);
    LoaderAndKernelAgree(disk, g, h, kernel);
  }

  /** Boot, mount, any commands that lead back to the root, and `cat` of the kernel's name: what
      appears is what kernel_loader has put in memory, as far as the recorded size goes. */
  lemma CatShowsKernel(disk: Disk, g: Machine.Geometry, h: Header, root: seq<dword>, kernel: seq<dword>,
                       items: seq<Item>, key: CString, r: Record, cmds: seq<Command>, stale: Clusters)
    requires Bootable(disk, g, h, root) && h.sectorsPerCluster == 4 && |key| == NAME
    requires IsDirectoryOf(DirectoryAt(disk, h, Root(h)), items) && Ends(DirectoryAt(disk, h, Root(h)), key)
    requires RawFind(BootLoader.RootRecords(disk, g, root), key) == Found(r) && SameRecord(items, key)
    requires ClusterOf(r) != 0 && !IsDirectory(r) && SizeOf(r) >= -0x8000_0000 + 0x4000
    requires LoadFile.ChainOnDisk(disk, g.fatBase, kernel) && kernel[0] == LoaderCluster(r) && kernel[0] != END_OF_CHAIN
    requires |kernel| <= 8 && forall k :: 0 <= k < |kernel| ==> InReach(g, kernel[k])
    requires cmds != [] && cmds[|cmds| - 1] == Cat(key, stale) && AllowedRun(disk, FatWalk.Never(), cmds)
    requires ShellAfter(disk, h, cmds[..|cmds| - 1]).cwd == Root(h)
    ensures After(disk, FatWalk.Never(), cmds).printed
            == After(disk, FatWalk.Never(), cmds[..|cmds| - 1]).printed
               + Prefix(LoadFile.Contents(disk, g, kernel), SizeOf(r))
  {
    var before := cmds[..|cmds| - 1];
    SignedIsIdentity(2);
    RunIsShell(disk, cmds);
    RunIsShell(disk, before);
    SameRecordIff(disk, g, h, root, items, key, r);
    SameFile(disk, g, h, kernel, r);
    WholeClustersPrinted(disk, h, FatWalk.PlainWalk(disk, h.fatLocation, StartCluster(h, r), 8), SizeOf(r));
  }
}
