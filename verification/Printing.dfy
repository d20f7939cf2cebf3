/** printFile of drivers/filesys.c prints 2048 bytes for every cluster, whatever a cluster
    holds: exactly when that is right. */
module Printing {
  import opened Words
  import opened Drive
  import opened Header
  import opened FatWalk
  import opened Volume
  import opened KernelRuns

  /** printFile prints the bytes of the file that its size covers. */
  ghost predicate PrintsExactly(disk: Disk, v: Volume, clusters: seq<int32>, size: int32) {
    && FitsBuffer(v.header)
    && PrintChain(disk, Never(), v, clusters, size).printed
       == v.printed + Prefix(FileBytes(disk, v.header, clusters), size)
  }

  /** It does so on every disk that begins with this boot sector, after every run on it. */
  ghost predicate AlwaysExact(boot: Sector, clusters: seq<int32>, size: int32) {
    forall disk: Disk, cmds: seq<Command> | disk(1) == boot && AllowedRun(disk, Never(), cmds) ::
      PrintsExactly(disk, After(disk, Never(), cmds), clusters, size)
  }

  lemma {:induction false} NothingLeft(disk: Disk, bad: nat -> bool, v: Volume, clusters: seq<int32>, size: int32)
    requires FitsBuffer(v.header) && size <= 0 && size - 2048 * |clusters| >= -0x8000_0000
    ensures PrintChain(disk, bad, v, clusters, size).printed == v.printed
    decreases |clusters|
  {
    if clusters != [] && clusters[0] != END_OF_CHAIN {
      SignedIsIdentity(size - 2048);
      NothingLeft(disk, bad, PrintCluster(disk, bad, v, clusters[0], size), clusters[1..], size - 2048);
    }
  }

  /** A file within its first cluster is printed exactly. */
  lemma ShortFile(disk: Disk, v: Volume, clusters: seq<int32>, size: int32)
    requires FitsBuffer(v.header) && clusters != [] && clusters[0] != END_OF_CHAIN
    requires size <= SECTOR * v.header.sectorsPerCluster && size - 2048 * |clusters| >= -0x8000_0000
    ensures PrintChain(disk, Never(), v, clusters, size).printed
            == v.printed + Prefix(FileBytes(disk, v.header, clusters), size)
  {
    var contents := ClusterContents(disk, v.header, clusters[0]);
    LoadsContents(disk, Never(), v, clusters[0]);
    SignedIsIdentity(size - 2048);
    NothingLeft(disk, Never(), PrintCluster(disk, Never(), v, clusters[0], size), clusters[1..], size - 2048);
    assert (contents + v.buffer[SECTOR * v.header.sectorsPerCluster..])[..Chunk(size)] == contents[..Chunk(size)];
    PrefixOfParts([], contents, FileBytes(disk, v.header, clusters[1..]), size);
  }

  /** What has been printed stays printed. */
  lemma {:induction false} PrintedGrows(disk: Disk, bad: nat -> bool, v: Volume, clusters: seq<int32>, size: int32)
    requires FitsBuffer(v.header)
    ensures v.printed <= PrintChain(disk, bad, v, clusters, size).printed
    decreases |clusters|
  {
    if clusters != [] && clusters[0] != END_OF_CHAIN {
      PrintedGrows(disk, bad, PrintCluster(disk, bad, v, clusters[0], size), clusters[1..], Signed(size - 2048));
    }
  }

  lemma SecondClusterBegins(boot: Sector, h: Header, clusters: seq<int32>)
    requires boot[0] != 0 && clusters != [] && clusters[0] != END_OF_CHAIN
    ensures var bytes, at := FileBytes(BootAndOnes(boot), h, clusters), SECTOR * h.sectorsPerCluster;
            at < |bytes| ==> bytes[at] != 0
  {
    var disk, rest := BootAndOnes(boot), clusters[1..];
    if rest != [] && rest[0] != END_OF_CHAIN && h.sectorsPerCluster > 0 {
      assert ClusterContents(disk, h, rest[0])[0] == disk(DeviceSector(h, rest[0]))[0];
      assert FileBytes(disk, h, rest)[0] == ClusterContents(disk, h, rest[0])[0];
    } else if h.sectorsPerCluster == 0 {
      NoBytes(disk, h, clusters);
    }
  }

  lemma {:induction false} NoBytes(disk: Disk, h: Header, clusters: seq<int32>)
    requires h.sectorsPerCluster == 0
    ensures FileBytes(disk, h, clusters) == []
  {
    if clusters != [] && clusters[0] != END_OF_CHAIN {
      NoBytes(disk, h, clusters[1..]);
    }
  }

  /** Behind a cluster of less than 2048 bytes printFile prints the zeros at the end of its
      buffer. */
  lemma TailIsPrinted(disk: Disk, v: Volume, clusters: seq<int32>, size: int32)
    requires FitsBuffer(v.header) && ZeroTail(v) && v.header.sectorsPerCluster < 4 && v.printed == []
    requires clusters != [] && clusters[0] != END_OF_CHAIN && size > SECTOR * v.header.sectorsPerCluster
    ensures var all, at := PrintChain(disk, Never(), v, clusters, size).printed, SECTOR * v.header.sectorsPerCluster;
            at < |all| && all[at] == 0
  {
    var at, next := SECTOR * v.header.sectorsPerCluster, PrintCluster(disk, Never(), v, clusters[0], size);
    ReadsKeepTail(disk, Never(), v, clusters[0]);
    var buffer := WithCluster(disk, Never(), v, clusters[0]).volume.buffer;
    assert next.printed == buffer[..Chunk(size)];
    assert at < Chunk(size) && buffer[at] == 0;
    PrintedGrows(disk, Never(), next, clusters[1..], Signed(size as int - 2048));
  }

  lemma TailDiffers(boot: Sector, v: Volume, clusters: seq<int32>, size: int32)
    requires boot[0] != 0 && v.header.sectorsPerCluster < 4 && clusters != [] && clusters[0] != END_OF_CHAIN
    requires ZeroTail(v) && v.printed == [] && size > SECTOR * v.header.sectorsPerCluster
    ensures !PrintsExactly(BootAndOnes(boot), v, clusters, size)
  {
    var disk, h, at := BootAndOnes(boot), v.header, SECTOR * v.header.sectorsPerCluster;
    TailIsPrinted(disk, v, clusters, size);
    SecondClusterBegins(boot, h, clusters);
    var bytes := FileBytes(disk, h, clusters);
    var exact := v.printed + Prefix(bytes, size);
    assert at < |exact| ==> exact[at] == bytes[at];
  }

  /** That is wrong on a disk where the file goes on with something else or not at all. */
  lemma TailIsWrong(boot: Sector, clusters: seq<int32>, size: int32)
    requires boot[0] != 0 && Decode(boot).sectorsPerCluster < 4 && clusters != [] && clusters[0] != END_OF_CHAIN
    requires size > SECTOR * Decode(boot).sectorsPerCluster
    ensures !AlwaysExact(boot, clusters, size)
  {
    var disk := BootAndOnes(boot);
    assert disk(1) == boot;
    MountsWithoutFailures(disk);
    MountSettles(disk, Never());
    TailDiffers(boot, After(disk, Never(), []), clusters, size);
  }

  lemma ExactWhere(disk: Disk, v: Volume, clusters: seq<int32>, size: int32)
    requires clusters != [] && clusters[0] != END_OF_CHAIN && size - 2048 * |clusters| >= -0x8000_0000
    requires FitsBuffer(v.header)
    requires v.header.sectorsPerCluster == 4 || size <= SECTOR * v.header.sectorsPerCluster
    ensures PrintsExactly(disk, v, clusters, size)
  {
    if v.header.sectorsPerCluster == 4 {
      PrintsFile(disk, Never(), v, clusters, size);
    } else {
      ShortFile(disk, v, clusters, size);
    }
  }

  /** printFile prints exactly the bytes of a file that its size covers, whatever is on the
      disk and whatever the kernel has done before, if and only if clusters have 2048 bytes or
      the file does not reach beyond its first cluster. A boot sector begins with a jump, not
      with 0. */
  lemma PrintIsExactIff(boot: Sector, clusters: seq<int32>, size: int32)
    requires FitsBuffer(Decode(boot)) && boot[0] != 0 && clusters != [] && clusters[0] != END_OF_CHAIN
    requires size - 2048 * |clusters| >= -0x8000_0000
    ensures AlwaysExact(boot, clusters, size)
            <==> Decode(boot).sectorsPerCluster == 4 || size <= SECTOR * Decode(boot).sectorsPerCluster
  {
    var h := Decode(boot);
    if h.sectorsPerCluster == 4 || size <= SECTOR * h.sectorsPerCluster {
      forall disk: Disk, cmds: seq<Command> | disk(1) == boot && AllowedRun(disk, Never(), cmds)
        ensures PrintsExactly(disk, After(disk, Never(), cmds), clusters, size)
      {
        RunSettles(disk, Never(), cmds);
        ExactWhere(disk, After(disk, Never(), cmds), clusters, size);
      }
    } else {
      TailIsWrong(boot, clusters, size);
    }
  }
}
