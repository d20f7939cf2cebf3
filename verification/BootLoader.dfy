/** kernel_loader of boot/boot.s: the root directory is loaded, the kernel is found in it
    and loaded over it. */
module BootLoader {
  import opened Words
  import opened Drive
  import opened ClusterAddress
  import opened Directory
  import opened FindFileBoot
  import opened Machine
  import opened LoadFile

  const LOAD_ADDRESS: word := 0x8200
  const ROOT_CLUSTER: dword := 2

  /** Where kernel_loader ends: in its return, or at one of its error messages. */
  datatype End = Loaded | RootError | FindError | KernelError

  /** A chain on the disk for which there is room behind the FAT page. */
  ghost predicate Loadable(disk: Disk, g: Geometry, chain: seq<dword>) {
    ChainOnDisk(disk, g.fatBase, chain) && LOAD_ADDRESS + Span(|chain|, ClusterBytes(g)) <= MEMORY
  }

  function RootRecords(disk: Disk, g: Geometry, root: seq<dword>): seq<Record> {
    Records(Contents(disk, g, root))
  }

  /** The bytes of memory a load may write to, and what a successful one leaves there. */
  ghost predicate HasLoaded(disk: Disk, g: Geometry, chain: seq<dword>, before: Memory, after: Memory, ok: bool) {
    && LOAD_ADDRESS + Span(|chain|, ClusterBytes(g)) <= MEMORY
    && (ok ==> after[LOAD_ADDRESS..LOAD_ADDRESS + Span(|chain|, ClusterBytes(g))] == Contents(disk, g, chain))
    && SameBelowFatPage(before, after)
  }

  /** The stack, LOWER, UPPER and the address packet, which the code keeps there, are fields of
      their own. */
  ghost predicate SameBelowFatPage(before: Memory, after: Memory) {
    forall k :: 0 <= k < FAT_PAGE ==> after[k] == before[k]
  }

  lemma LoadedSince(disk: Disk, g: Geometry, chain: seq<dword>, before: Memory, between: Memory, after: Memory)
    requires SameBelowFatPage(before, between) && HasLoaded(disk, g, chain, between, after, true)
    ensures HasLoaded(disk, g, chain, before, after, true)
  {
  }

  /** A chain is loaded to the load address. */
  method Load(m: Machine, ghost g: Geometry, ghost chain: seq<dword>)
    requires Has(m, g) && Consistent(g) && Loadable(m.drive.disk, g, chain) && chain[0] == Long(m.dx, m.ax)
    modifies m, m.drive`trace
    ensures Has(m, g) && m.stack == old(m.stack) && HasLoaded(m.drive.disk, g, chain, old(m.mem), m.mem, !m.cf)
    ensures |m.drive.trace| >= |old(m.drive.trace)|
            && (!m.cf <==> NoneFailed(m.drive.bad, |old(m.drive.trace)|, |m.drive.trace|))
  {
    m.bx := LOAD_ADDRESS;
    ghost var r, end := LoadFileLoadsChain(m.drive.disk, m.drive.bad, g, chain, m.bx, m.mem, m.drive.trace);
    LoadFile.LoadFile(m, g, chain);
    BootSectorKept(old(m.mem), m.mem);
  }

  lemma BootSectorKept(before: Memory, after: Memory)
    requires SameBelowFatPage(before, after)
    ensures BootSector(after) == BootSector(before)
  {
  }

  lemma SliceOfSlice(s: seq<byte>, a: nat, n: nat, b: nat, c: nat)
    requires a + n <= |s| && b + c <= n
    ensures s[a..a + n][b..b + c] == s[a + b..a + b + c]
  {
    var t := s[a..a + n];
    assert forall i :: b <= i < b + c ==> t[i] == s[a + i];
  }

  /** The directory loaded stands in memory record by record. */
  lemma RecordsInMemory(mem: Memory, contents: seq<byte>)
    requires LOAD_ADDRESS + |contents| <= MEMORY && mem[LOAD_ADDRESS..LOAD_ADDRESS + |contents|] == contents
    ensures InMemory(mem, LOAD_ADDRESS, Records(contents))
  {
    var recs := Records(contents);
    forall k | 0 <= k < |recs|
      ensures mem[LOAD_ADDRESS + RECORD * k..LOAD_ADDRESS + RECORD * k + RECORD] == recs[k]
    {
      SliceOfSlice(mem, LOAD_ADDRESS, |contents|, RECORD * k, RECORD);
    }
    InMemoryIff(mem, LOAD_ADDRESS, recs);
  }

  /** The root directory is loaded; the loader's own sector, with the kernel's name, stays. */
  method LoadRoot(m: Machine, nameAt: word, ghost g: Geometry, ghost root: seq<dword>)
    requires Has(m, g) && Consistent(g) && nameAt + NAME <= FAT_PAGE
    requires Loadable(m.drive.disk, g, root) && root[0] == ROOT_CLUSTER
    modifies m, m.drive`trace
    ensures Has(m, g) && m.stack == old(m.stack) && m.mem[nameAt..nameAt + NAME] == old(m.mem[nameAt..nameAt + NAME])
    ensures SameBelowFatPage(old(m.mem), m.mem) && |m.drive.trace| >= |old(m.drive.trace)|
    ensures !m.cf <==> NoneFailed(m.drive.bad, |old(m.drive.trace)|, |m.drive.trace|)
    ensures !m.cf ==> InMemory(m.mem, LOAD_ADDRESS, RootRecords(m.drive.disk, g, root))
  {
    m.dx := 0x0000;
    m.ax := 0x0002;
    Load(m, g, root);
    if !m.cf {
      RecordsInMemory(m.mem, Contents(m.drive.disk, g, root));
    }
  }

  /** The kernel is looked for among the records in memory and loaded over them. */
  method LoadFound(m: Machine, nameAt: word, ghost g: Geometry, ghost recs: seq<Record>, ghost kernel: seq<dword>)
    returns (end: End)
    requires Has(m, g) && Consistent(g) && nameAt + NAME <= FAT_PAGE
    requires InMemory(m.mem, LOAD_ADDRESS, recs) && Ends(recs, m.mem[nameAt..nameAt + NAME])
    requires match RawFind(recs, m.mem[nameAt..nameAt + NAME])
             case Missing => true
             case Found(r) =>
               Loadable(m.drive.disk, g, kernel) && kernel[0] == Long(LittleWord(r, 0x14), LittleWord(r, 0x1A))
    modifies m, m.drive`trace
    ensures m.stack == old(m.stack) && |m.drive.trace| >= |old(m.drive.trace)| && !end.RootError?
    ensures end.FindError? <==> RawFind(recs, old(m.mem[nameAt..nameAt + NAME])).Missing?
    ensures end.FindError? ==> m.drive.trace == old(m.drive.trace)
    ensures end.Loaded? ==> NoneFailed(m.drive.bad, |old(m.drive.trace)|, |m.drive.trace|)
    ensures end.KernelError? ==> !NoneFailed(m.drive.bad, |old(m.drive.trace)|, |m.drive.trace|)
    ensures end.Loaded? ==> HasLoaded(m.drive.disk, g, kernel, old(m.mem), m.mem, true)
  {
    m.si := nameAt;
    m.bx := LOAD_ADDRESS;
    FindFile(m, recs);
    if m.cf {
      return FindError;
    }
    Load(m, g, kernel);
    end := if m.cf then KernelError else Loaded;
  }

  ghost predicate StandsAt(mem: Memory, at: nat, bytes: seq<byte>) {
    at + |bytes| <= MEMORY && mem[at..at + |bytes|] == bytes
  }

  /** kernel_loader: the kernel's clusters are in memory, one behind the other, exactly when no
      read failed and the root directory has a record of the kernel's raw name. */
  method KernelLoader(m: Machine, nameAt: word, ghost g: Geometry, ghost root: seq<dword>, ghost kernel: seq<dword>)
    returns (end: End)
    requires Has(m, g) && Consistent(g) && nameAt + NAME <= FAT_PAGE
    requires Loadable(m.drive.disk, g, root) && root[0] == 2
    requires Ends(RootRecords(m.drive.disk, g, root), m.mem[nameAt..nameAt + NAME])
    requires match RawFind(RootRecords(m.drive.disk, g, root), m.mem[nameAt..nameAt + NAME])
             case Missing => true
             case Found(r) =>
               Loadable(m.drive.disk, g, kernel) && kernel[0] == Long(LittleWord(r, 0x14), LittleWord(r, 0x1A))
    modifies m, m.drive`trace
    ensures m.stack == old(m.stack) && |m.drive.trace| >= |old(m.drive.trace)|
    ensures end.Loaded?
            <==> (NoneFailed(m.drive.bad, |old(m.drive.trace)|, |m.drive.trace|)
                  && RawFind(RootRecords(m.drive.disk, g, root), old(m.mem[nameAt..nameAt + NAME])).Found?)
    ensures end.FindError?
            <==> (NoneFailed(m.drive.bad, |old(m.drive.trace)|, |m.drive.trace|)
                  && RawFind(RootRecords(m.drive.disk, g, root), old(m.mem[nameAt..nameAt + NAME])).Missing?)
    ensures end.Loaded? ==> HasLoaded(m.drive.disk, g, kernel, old(m.mem), m.mem, true)
    ensures end.Loaded? ==> StandsAt(m.mem, 0x8200, Contents(m.drive.disk, g, kernel))
    ensures end.Loaded? ==> forall k :: 0 <= k < 0x8000 ==> m.mem[k] == old(m.mem[k])
  {
    LoadRoot(m, nameAt, g, root);
    if m.cf {
      return RootError;
    }
    ghost var between, t := m.mem, |m.drive.trace|;
    end := LoadFound(m, nameAt, g, RootRecords(m.drive.disk, g, root), kernel);
    NoneFailedSplits(m.drive.bad, |old(m.drive.trace)|, t, |m.drive.trace|);
    if end.Loaded? {
      LoadedSince(m.drive.disk, g, kernel, old(m.mem), between, m.mem);
    }
  }
}
