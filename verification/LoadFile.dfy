/** boot/load_file.s: loading a file's clusters one behind the other, following the
    chain in the FAT. */
module LoadFile {
  import opened Words
  import opened Cpu
  import opened Drive
  import opened ClusterAddress
  import opened Machine

  // ------------------------------------------------------------------ chains on disk

  /** Sector and entry of the FAT that hold the successor of a cluster. */
  function FatEntry(disk: Disk, fatBase: dword, cluster: dword): dword {
    LittleDword(disk((fatBase + cluster / 128) % 0x1_0000_0000), cluster % 128 * 4)
  }

  /** The FAT links each cluster to the next one and the last one to the end mark. */
  ghost predicate ChainOnDisk(disk: Disk, fatBase: dword, chain: seq<dword>) {
    && chain != []
    && FatEntry(disk, fatBase, chain[0]) == (if |chain| == 1 then END_OF_CHAIN else chain[1])
    && (|chain| > 1 ==> chain[1] != END_OF_CHAIN && ChainOnDisk(disk, fatBase, chain[1..]))
  }

  // ------------------------------------------------------------- what the loader does

  /** One turn: a cluster goes to memory at %bx, the FAT sector with its entry to
      the FAT page, and the entry names the next cluster. */
  datatype Turn = Turn(mem: Memory, trace: seq<nat>, ok: bool, next: dword)

  function OneTurn(disk: Disk, bad: nat -> bool, g: Geometry, cluster: dword, bx: nat, mem: Memory,
                   trace: seq<nat>): (t: Turn)
    requires bx + ClusterBytes(g) <= MEMORY
  {
    var r := ReadRun(disk, bad, ClusterLba(g.clusterBase, cluster, g.sectorsPerCluster), g.sectorsPerCluster, mem, bx,
                     trace);
    if !r.ok then Turn(r.buffer, r.trace, false, 0)
    else FollowEntry(disk, bad, g, cluster, r.buffer, r.trace)
  }

  function FollowEntry(disk: Disk, bad: nat -> bool, g: Geometry, cluster: dword, mem: Memory,
                       trace: seq<nat>): (t: Turn) {
    var f := ReadRun(disk, bad, (g.fatBase + cluster / 128) % 0x1_0000_0000, 1, mem, FAT_PAGE, trace);
    if !f.ok then Turn(f.buffer, f.trace, false, 0)
    else Turn(f.buffer, f.trace, true, LittleDword(f.buffer, FAT_PAGE + cluster % 128 * 4))
  }

  /** Any way to take a turn: from a cluster number, %bx, the memory and the trace. */
  type TurnFn = (dword, nat, Memory, seq<nat>) -> Turn

  function TurnOf(disk: Disk, bad: nat -> bool, g: Geometry): TurnFn {
    (cluster: dword, bx: nat, mem: Memory, trace: seq<nat>) =>
      if bx + ClusterBytes(g) <= MEMORY then OneTurn(disk, bad, g, cluster, bx, mem, trace)
      else Turn(mem, trace, false, 0)
  }

  /** Turn after turn, up to the end of the chain or the first failure; the clusters
      go to memory `size` bytes apart. */
  function LoadChain(turn: TurnFn, size: nat, chain: seq<dword>, bx: nat, mem: Memory, trace: seq<nat>): (r: Reading)
    ensures |r.buffer| == MEMORY
    decreases |chain|
  {
    if chain == [] then Reading(mem, true, trace)
    else
      var t := turn(chain[0], bx, mem, trace);
      if !t.ok then Reading(t.mem, false, t.trace)
      else LoadChain(turn, size, chain[1..], bx + size, t.mem, t.trace)
  }

  /** The bytes of `n` clusters. */
  function Span(n: nat, size: nat): nat { if n == 0 then 0 else size + Span(n - 1, size) }

  lemma {:induction false} SpanIsProduct(n: nat, size: nat)
    ensures Span(n, size) == n * size
  {
    if n > 0 {
      SpanIsProduct(n - 1, size);
      assert n * size == size + (n - 1) * size;
    }
  }

  /** Nothing read at or above the FAT page touches the boot sector. */
  lemma ReadKeepsBootSector(disk: Disk, bad: nat -> bool, lba: nat, n: nat, mem: Memory, off: nat, trace: seq<nat>)
    requires FAT_PAGE <= off && off + SECTOR * n <= MEMORY
    ensures BootSector(ReadRun(disk, bad, lba, n, mem, off, trace).buffer) == BootSector(mem)
  {
    ReadRunFills(disk, bad, lba, n, mem, off, trace);
    var after := ReadRun(disk, bad, lba, n, mem, off, trace).buffer;
    assert after[..FAT_PAGE] == mem[..FAT_PAGE];
    assert BootSector(after) == after[..FAT_PAGE][0x7E00..] && BootSector(mem) == mem[..FAT_PAGE][0x7E00..];
  }

  /** The entry the loader takes from the FAT page is the one on the disk. */
  lemma TurnFollowsChain(disk: Disk, bad: nat -> bool, g: Geometry, cluster: dword, bx: nat, mem: Memory,
                         trace: seq<nat>)
    requires bx + ClusterBytes(g) <= MEMORY
    ensures var t := OneTurn(disk, bad, g, cluster, bx, mem, trace);
            t.ok ==> t.next == FatEntry(disk, g.fatBase, cluster)
  {
    var r := ReadRun(disk, bad, ClusterLba(g.clusterBase, cluster, g.sectorsPerCluster), g.sectorsPerCluster, mem, bx,
                     trace);
    var lba := (g.fatBase + cluster / 128) % 0x1_0000_0000;
    var f := ReadRun(disk, bad, lba, 1, r.buffer, FAT_PAGE, r.trace);
    if r.ok && f.ok {
      assert f.buffer == Splice(r.buffer, FAT_PAGE, disk(lba));
    }
  }

  /** The loader's parameters are those of the boot sector in memory. */
  ghost predicate Has(m: Machine, g: Geometry)
    reads m
  {
    GeometryOf(BootSector(m.mem)) == g
  }

  lemma ParametersInMemory(mem: Memory)
    ensures var g := GeometryOf(BootSector(mem));
            && mem[0x7E0D] == g.sectorsPerCluster && mem[0x7E62] == g.scale && mem[0x7E63] == g.mask
            && Long(LittleWord(mem, 0x7E5C), LittleWord(mem, 0x7E5A)) == g.fatBase
            && Long(LittleWord(mem, 0x7E60), LittleWord(mem, 0x7E5E)) == g.clusterBase
  {
    var s := BootSector(mem);
    assert forall k :: 0 <= k < SECTOR ==> s[k] == mem[0x7E00 + k];
  }

  /** The BIOS is asked for the cluster the kernel would ask for. */
  method AskForCluster(m: Machine, ghost g: Geometry)
    requires Has(m, g) && Consistent(g)
    modifies m`ax, m`cx, m`dx, m`cf, m`stack, m`dapSectors, m`dapDst, m`dapLba1, m`dapLba2
    ensures Long(m.dapLba2, m.dapLba1) == ClusterLba(g.clusterBase, Long(old(m.dx), old(m.ax)), g.sectorsPerCluster)
    ensures m.dapDst == m.bx && m.dapSectors == g.sectorsPerCluster
    ensures m.stack == Frame(old(m.dx), Frame(old(m.ax), old(m.stack)))
  {
    ParametersInMemory(m.mem);
    LoaderLbaIsClusterLba(m.dx, m.ax, g.scale, m.Word(0x7E60), m.Word(0x7E5E));
    m.DescribeCluster();
  }

  /** load_file down to the first `jc`. */
  method ReadCluster(m: Machine, ghost g: Geometry)
    requires Has(m, g) && Consistent(g)
    requires FAT_PAGE <= m.bx && m.bx + ClusterBytes(g) <= MEMORY
    modifies m, m.drive`trace
    ensures BootSector(m.mem) == BootSector(old(m.mem))
    ensures Reading(m.mem, !m.cf, m.drive.trace)
            == ReadRun(m.drive.disk, m.drive.bad,
                       ClusterLba(g.clusterBase, Long(old(m.dx), old(m.ax)), g.sectorsPerCluster),
                       g.sectorsPerCluster, old(m.mem), old(m.bx), old(m.drive.trace))
    ensures m.stack == Frame(old(m.dx), Frame(old(m.ax), old(m.stack))) && m.bx == old(m.bx)
  {
    AskForCluster(m, g);
    ReadKeepsBootSector(m.drive.disk, m.drive.bad, Long(m.dapLba2, m.dapLba1), m.dapSectors, m.mem, m.dapDst,
                        m.drive.trace);
    m.LoadDisk();
  }

  /** From there to the second `jc`. */
  method ReadFatSector(m: Machine, ghost g: Geometry)
    requires Has(m, g) && m.stack.Frame? && m.stack.below.Frame?
    modifies m, m.drive`trace
    ensures BootSector(m.mem) == BootSector(old(m.mem))
    ensures var cluster := Long(old(m.stack.top), old(m.stack.below.top));
            && Reading(m.mem, !m.cf, m.drive.trace)
               == ReadRun(m.drive.disk, m.drive.bad, (g.fatBase + cluster / 128) % 0x1_0000_0000, 1,
                          old(m.mem), FAT_PAGE, old(m.drive.trace))
            && m.cx == cluster % 128 * 4
    ensures m.stack == old(m.stack.below.below) && m.bx == old(m.bx)
  {
    ParametersInMemory(m.mem);
    m.DescribeFatSector();
    ReadKeepsBootSector(m.drive.disk, m.drive.bad, Long(m.dapLba2, m.dapLba1), 1, m.mem, FAT_PAGE, m.drive.trace);
    m.LoadDisk();
  }

  /** load_file from its first `jc` to the comparison with the end mark. */
  method ReadNext(m: Machine, ghost g: Geometry)
    requires Has(m, g) && m.stack.Frame? && m.stack.below.Frame?
    modifies m, m.drive`trace
    ensures Turned(m, FollowEntry(m.drive.disk, m.drive.bad, g, Long(old(m.stack.top), old(m.stack.below.top)),
                                  old(m.mem), old(m.drive.trace)))
    ensures BootSector(m.mem) == BootSector(old(m.mem))
    ensures m.stack == old(m.stack.below.below) && m.bx == old(m.bx)
  {
    ReadFatSector(m, g);
    if !m.cf {
      m.FetchNext();
    }
  }

  /** The machine is where a turn ends. */
  ghost predicate Turned(m: Machine, t: Turn)
    reads m, m.drive
  {
    && m.mem == t.mem && m.drive.trace == t.trace && m.cf == !t.ok
    && (t.ok ==> Long(m.dx, m.ax) == t.next)
  }

  /** load_file from its entry to the comparison with the end mark. */
  method TakeTurn(m: Machine, ghost g: Geometry)
    requires Has(m, g) && Consistent(g)
    requires FAT_PAGE <= m.bx && m.bx + ClusterBytes(g) <= MEMORY
    modifies m, m.drive`trace
    ensures Turned(m, OneTurn(m.drive.disk, m.drive.bad, g, Long(old(m.dx), old(m.ax)),
                              old(m.bx), old(m.mem), old(m.drive.trace)))
    ensures BootSector(m.mem) == BootSector(old(m.mem))
    ensures m.stack == old(m.stack) && m.bx == old(m.bx)
  {
    ReadCluster(m, g);
    if m.cf {
      m.DropCluster();
    } else {
      ReadNext(m, g);
    }
  }

  /** The jump back to load_file: %bx moves on by one cluster. */
  method Advance(m: Machine, ghost g: Geometry)
    requires Has(m, g) && Consistent(g) && m.bx + ClusterBytes(g) < MEMORY
    modifies m`ax, m`bx, m`cx, m`stack
    ensures m.bx == old(m.bx) + ClusterBytes(g)
    ensures m.ax == old(m.ax) && m.stack == old(m.stack)
  {
    ParametersInMemory(m.mem);
    DoubledIsProduct(0x200, g.scale);
    ShiftWithin(0x200, g.scale);
    m.stack := Frame(m.ax, m.stack);
    m.ax := 0x0200;
    m.cx := SetLow(m.cx, m.mem[0x7E62]);
    m.ax := Shl16(m.ax, m.cx % 0x100);
    m.bx := Add16(m.bx, m.ax, false).0;
    m.ax, m.stack := m.stack.top, m.stack.below;
  }

  /** What the loader still has to do, from the machine's state. */
  ghost function Remaining(m: Machine, g: Geometry, rest: seq<dword>): Reading
    reads m, m.drive
  {
    LoadChain(TurnOf(m.drive.disk, m.drive.bad, g), ClusterBytes(g), rest, m.bx, m.mem, m.drive.trace)
  }

  /** The machine is at the entry of load_file, with the chain `rest` still to load. */
  ghost predicate Loading(m: Machine, g: Geometry, rest: seq<dword>)
    reads m, m.drive
  {
    && Has(m, g) && FAT_PAGE + SECTOR <= m.bx && m.bx + Span(|rest|, ClusterBytes(g)) <= MEMORY
    && ChainOnDisk(m.drive.disk, g.fatBase, rest) && rest[0] == Long(m.dx, m.ax)
  }

  /** After a turn either all is done or the rest of the chain remains. */
  lemma LoadChainUnfolds(disk: Disk, bad: nat -> bool, g: Geometry, chain: seq<dword>, bx: nat, mem: Memory,
                         trace: seq<nat>)
    returns (t: Turn)
    requires chain != [] && bx + ClusterBytes(g) <= MEMORY
    ensures t == OneTurn(disk, bad, g, chain[0], bx, mem, trace)
    ensures t.ok ==> t.next == FatEntry(disk, g.fatBase, chain[0])
    ensures LoadChain(TurnOf(disk, bad, g), ClusterBytes(g), chain, bx, mem, trace)
            == if !t.ok || |chain| == 1 then Reading(t.mem, t.ok, t.trace)
               else LoadChain(TurnOf(disk, bad, g), ClusterBytes(g), chain[1..], bx + ClusterBytes(g), t.mem, t.trace)
  {
    TurnFollowsChain(disk, bad, g, chain[0], bx, mem, trace);
    t := TurnOf(disk, bad, g)(chain[0], bx, mem, trace);
  }

  /** From the comparison with the end mark on: return, or jump back. */
  method ReturnOrRepeat(m: Machine, ghost g: Geometry, ghost rest: seq<dword>) returns (done: bool)
    requires Consistent(g) && Has(m, g) && FAT_PAGE + SECTOR <= m.bx && m.bx + Span(|rest|, ClusterBytes(g)) <= MEMORY
    requires ChainOnDisk(m.drive.disk, g.fatBase, rest)
    requires !m.cf ==> Long(m.dx, m.ax) == FatEntry(m.drive.disk, g.fatBase, rest[0])
    modifies m`ax, m`bx, m`cx, m`cf, m`stack
    ensures done <==> old(m.cf) || |rest| == 1
    ensures m.stack == old(m.stack) && (done ==> m.cf == old(m.cf))
    ensures !done ==> m.bx == old(m.bx) + ClusterBytes(g) && Loading(m, g, rest[1..])
  {
    done := m.cf;
    if !done {
      done := m.CompareWithEnd();
      if !done {
        Advance(m, g);
      }
    }
  }

  /** What is to be done once the machine has taken a turn. */
  ghost function After(m: Machine, g: Geometry, rest: seq<dword>): Reading
    requires rest != []
    reads m, m.drive
  {
    if m.cf || |rest| == 1 then Reading(m.mem, !m.cf, m.drive.trace)
    else LoadChain(TurnOf(m.drive.disk, m.drive.bad, g), ClusterBytes(g), rest[1..], m.bx + ClusterBytes(g), m.mem,
                   m.drive.trace)
  }

  /** From the entry of load_file to the comparison with the end mark, on a chain. */
  method TurnOnChain(m: Machine, ghost g: Geometry, ghost rest: seq<dword>)
    requires Consistent(g) && Loading(m, g, rest)
    modifies m, m.drive`trace
    ensures m.stack == old(m.stack) && m.bx == old(m.bx) && BootSector(m.mem) == BootSector(old(m.mem))
    ensures !m.cf ==> Long(m.dx, m.ax) == FatEntry(m.drive.disk, g.fatBase, rest[0])
    ensures After(m, g, rest) == old(Remaining(m, g, rest))
  {
    ghost var t := LoadChainUnfolds(m.drive.disk, m.drive.bad, g, rest, m.bx, m.mem, m.drive.trace);
    TakeTurn(m, g);
    assert Turned(m, t);
  }

  /** From the entry of load_file to its return, or to the jump back to its entry. */
  method LoadNext(m: Machine, ghost g: Geometry, ghost rest: seq<dword>) returns (done: bool)
    requires Consistent(g) && Loading(m, g, rest)
    modifies m, m.drive`trace
    ensures m.stack == old(m.stack)
    ensures if done then Reading(m.mem, !m.cf, m.drive.trace) == old(Remaining(m, g, rest))
            else |rest| > 1 && Loading(m, g, rest[1..]) && Remaining(m, g, rest[1..]) == old(Remaining(m, g, rest))
  {
    TurnOnChain(m, g, rest);
    done := ReturnOrRepeat(m, g, rest);
  }

  method LoadFile(m: Machine, ghost g: Geometry, ghost chain: seq<dword>)
    requires Consistent(g) && Loading(m, g, chain)
    modifies m, m.drive`trace
    ensures Reading(m.mem, !m.cf, m.drive.trace)
            == LoadChain(TurnOf(m.drive.disk, m.drive.bad, g), ClusterBytes(g), chain, old(m.bx), old(m.mem),
                         old(m.drive.trace))
    ensures m.stack == old(m.stack)
  {
    ghost var result, rest := Remaining(m, g, chain), chain;
    var done := false;
    while !done
      invariant m.stack == old(m.stack)
      invariant if done then Reading(m.mem, !m.cf, m.drive.trace) == result
                else Loading(m, g, rest) && Remaining(m, g, rest) == result
      decreases |rest|, !done
    {
      done := LoadNext(m, g, rest);
      if !done {
        rest := rest[1..];
      }
    }
  }

  // -------------------------------------------------------------- what that amounts to

  /** The bytes of a chain's clusters, one behind the other. */
  function Contents(disk: Disk, g: Geometry, chain: seq<dword>): (s: seq<byte>)
    ensures |s| == Span(|chain|, ClusterBytes(g))
  {
    if chain == [] then []
    else
      var lba := ClusterLba(g.clusterBase, chain[0], g.sectorsPerCluster);
      Sectors(disk, lba, g.sectorsPerCluster) + Contents(disk, g, chain[1..])
  }

  /** The sectors to be read for one cluster: its own, and the FAT sector of its entry. */
  function TurnReads(g: Geometry, cluster: dword): seq<nat> {
    Range(ClusterLba(g.clusterBase, cluster, g.sectorsPerCluster), g.sectorsPerCluster)
      + [(g.fatBase + cluster / 128) % 0x1_0000_0000]
  }

  function Reads(g: Geometry, chain: seq<dword>): seq<nat> {
    if chain == [] then [] else TurnReads(g, chain[0]) + Reads(g, chain[1..])
  }

  ghost predicate NoneFailed(bad: nat -> bool, from: nat, to: nat) {
    forall i :: from <= i < to ==> !bad(i)
  }

  /** A run of reads is complete exactly when none of the reads it made failed. */
  lemma CompleteIffNoneFailed(disk: Disk, bad: nat -> bool, lba: nat, n: nat, buffer: seq<byte>, off: nat,
                              trace: seq<nat>)
    requires off + SECTOR * n <= |buffer|
    ensures var r := ReadRun(disk, bad, lba, n, buffer, off, trace);
            && |r.trace| >= |trace|
            && (r.ok <==> NoneFailed(bad, |trace|, |r.trace|))
            && (r.ok ==> r.trace == trace + Range(lba, n))
            && r.buffer == Splice(buffer, off, Sectors(disk, lba, Successes(bad, |trace|, n)))
            && (r.ok ==> r.buffer == Splice(buffer, off, Sectors(disk, lba, n)))
  {
    ReadRunIs(disk, bad, lba, n, buffer, off, trace);
    var k := Successes(bad, |trace|, n);
    if k < n {
      assert bad(|trace| + k);
    }
  }

  lemma FollowReads(disk: Disk, bad: nat -> bool, g: Geometry, cluster: dword, mem: Memory, trace: seq<nat>)
    ensures var t := FollowEntry(disk, bad, g, cluster, mem, trace);
            && |t.trace| >= |trace| && (t.ok <==> NoneFailed(bad, |trace|, |t.trace|))
            && (t.ok ==> t.trace == trace + [(g.fatBase + cluster / 128) % 0x1_0000_0000])
            && forall k :: 0 <= k < MEMORY && !(FAT_PAGE <= k < FAT_PAGE + SECTOR) ==> t.mem[k] == mem[k]
  {
    CompleteIffNoneFailed(disk, bad, (g.fatBase + cluster / 128) % 0x1_0000_0000, 1, mem, FAT_PAGE, trace);
  }

  lemma NoneFailedSplits(bad: nat -> bool, a: nat, b: nat, c: nat)
    requires a <= b <= c
    ensures NoneFailed(bad, a, c) <==> NoneFailed(bad, a, b) && NoneFailed(bad, b, c)
  {
  }

  lemma TurnReadsAll(disk: Disk, bad: nat -> bool, g: Geometry, cluster: dword, bx: nat, mem: Memory, trace: seq<nat>)
    requires bx + ClusterBytes(g) <= MEMORY
    ensures var t := OneTurn(disk, bad, g, cluster, bx, mem, trace);
            && |t.trace| >= |trace| && (t.ok <==> NoneFailed(bad, |trace|, |t.trace|))
            && (t.ok ==> t.trace == trace + TurnReads(g, cluster))
  {
    var lba, n := ClusterLba(g.clusterBase, cluster, g.sectorsPerCluster), g.sectorsPerCluster;
    var r := ReadRun(disk, bad, lba, n, mem, bx, trace);
    CompleteIffNoneFailed(disk, bad, lba, n, mem, bx, trace);
    if r.ok {
      FollowReads(disk, bad, g, cluster, r.buffer, r.trace);
      NoneFailedSplits(bad, |trace|, |r.trace|, |FollowEntry(disk, bad, g, cluster, r.buffer, r.trace).trace|);
    }
  }

  lemma TurnFills(disk: Disk, bad: nat -> bool, g: Geometry, cluster: dword, bx: nat, mem: Memory, trace: seq<nat>)
    requires FAT_PAGE + SECTOR <= bx && bx + ClusterBytes(g) <= MEMORY
    ensures var t, s := OneTurn(disk, bad, g, cluster, bx, mem, trace),
                        Sectors(disk, ClusterLba(g.clusterBase, cluster, g.sectorsPerCluster), g.sectorsPerCluster);
            && (t.ok ==> t.mem[bx..bx + ClusterBytes(g)] == s)
            && forall k :: 0 <= k < MEMORY && !(FAT_PAGE <= k < FAT_PAGE + SECTOR) && !(bx <= k < bx + ClusterBytes(g))
                 ==> t.mem[k] == mem[k]
  {
    var lba, n := ClusterLba(g.clusterBase, cluster, g.sectorsPerCluster), g.sectorsPerCluster;
    var r := ReadRun(disk, bad, lba, n, mem, bx, trace);
    CompleteIffNoneFailed(disk, bad, lba, n, mem, bx, trace);
    if r.ok {
      FollowReads(disk, bad, g, cluster, r.buffer, r.trace);
    }
  }

  /** What is known of a turn, whatever the state it is taken in. */
  ghost predicate GoodTurns(turn: TurnFn, disk: Disk, bad: nat -> bool, g: Geometry) {
    forall cluster: dword, bx: nat, mem: Memory, trace: seq<nat> {:trigger turn(cluster, bx, mem, trace)} ::
      FAT_PAGE + SECTOR <= bx && bx + ClusterBytes(g) <= MEMORY ==>
          GoodTurn(turn(cluster, bx, mem, trace), disk, bad, g, cluster, bx, mem, trace)
  }

  ghost predicate GoodTurn(t: Turn, disk: Disk, bad: nat -> bool, g: Geometry, cluster: dword, bx: nat, mem: Memory,
                           trace: seq<nat>)
    requires bx + ClusterBytes(g) <= MEMORY
  {
    && |t.trace| >= |trace| && (t.ok <==> NoneFailed(bad, |trace|, |t.trace|))
    && (t.ok ==> t.trace == trace + TurnReads(g, cluster))
    && (t.ok ==> t.mem[bx..bx + ClusterBytes(g)]
                 == Sectors(disk, ClusterLba(g.clusterBase, cluster, g.sectorsPerCluster), g.sectorsPerCluster))
    && forall k :: 0 <= k < MEMORY && !(FAT_PAGE <= k < FAT_PAGE + SECTOR) && !(bx <= k < bx + ClusterBytes(g))
         ==> t.mem[k] == mem[k]
  }

  lemma TurnsAreGood(disk: Disk, bad: nat -> bool, g: Geometry)
    ensures GoodTurns(TurnOf(disk, bad, g), disk, bad, g)
  {
    forall cluster: dword, bx: nat, mem: Memory, trace: seq<nat>
      | FAT_PAGE + SECTOR <= bx && bx + ClusterBytes(g) <= MEMORY
      ensures GoodTurn(TurnOf(disk, bad, g)(cluster, bx, mem, trace), disk, bad, g, cluster, bx, mem, trace)
    {
      TurnReadsAll(disk, bad, g, cluster, bx, mem, trace);
      TurnFills(disk, bad, g, cluster, bx, mem, trace);
    }
  }

  lemma {:induction false} ReadsInOrder(turn: TurnFn, disk: Disk, bad: nat -> bool, g: Geometry, chain: seq<dword>,
                                        bx: nat, mem: Memory, trace: seq<nat>)
    requires GoodTurns(turn, disk, bad, g)
    requires FAT_PAGE + SECTOR <= bx && bx + Span(|chain|, ClusterBytes(g)) <= MEMORY
    ensures var r := LoadChain(turn, ClusterBytes(g), chain, bx, mem, trace);
            && |r.trace| >= |trace| && (r.ok <==> NoneFailed(bad, |trace|, |r.trace|))
            && (r.ok ==> r.trace == trace + Reads(g, chain))
    decreases |chain|
  {
    if chain != [] {
      var t, tail := turn(chain[0], bx, mem, trace), chain[1..];
      assert GoodTurn(t, disk, bad, g, chain[0], bx, mem, trace);
      if t.ok {
        ReadsInOrder(turn, disk, bad, g, tail, bx + ClusterBytes(g), t.mem, t.trace);
        NoneFailedSplits(bad, |trace|, |t.trace|,
                         |LoadChain(turn, ClusterBytes(g), tail, bx + ClusterBytes(g), t.mem, t.trace).trace|);
        Associate(trace, TurnReads(g, chain[0]), Reads(g, tail));
      }
    }
  }

  lemma Rejoin(s: seq<byte>, before: seq<byte>, a: nat, b: nat, c: nat)
    requires a <= b <= c <= |s| && |before| == |s| && forall k :: a <= k < b ==> s[k] == before[k]
    ensures s[a..c] == before[a..b] + s[b..c]
  {
  }

  /** Between two states of memory only the FAT page and these bytes differ. */
  ghost predicate OnlyTouches(before: Memory, after: Memory, from: nat, to: nat) {
    forall k :: 0 <= k < MEMORY && !(FAT_PAGE <= k < FAT_PAGE + SECTOR) && !(from <= k < to) ==> after[k] == before[k]
  }

  lemma TouchesBoth(a: Memory, b: Memory, c: Memory, from: nat, between: nat, to: nat)
    requires from <= between <= to && OnlyTouches(a, b, from, between) && OnlyTouches(b, c, between, to)
    ensures OnlyTouches(a, c, from, to)
  {
  }

  lemma {:induction false} LeavesOthers(turn: TurnFn, disk: Disk, bad: nat -> bool, g: Geometry, chain: seq<dword>,
                                        bx: nat, end: nat, mem: Memory, trace: seq<nat>)
    requires GoodTurns(turn, disk, bad, g)
    requires FAT_PAGE + SECTOR <= bx <= end <= MEMORY && bx + Span(|chain|, ClusterBytes(g)) == end
    ensures OnlyTouches(mem, LoadChain(turn, ClusterBytes(g), chain, bx, mem, trace).buffer, bx, end)
    decreases |chain|
  {
    if chain != [] {
      var t, tail, next := turn(chain[0], bx, mem, trace), chain[1..], bx + ClusterBytes(g);
      assert GoodTurn(t, disk, bad, g, chain[0], bx, mem, trace);
      assert OnlyTouches(mem, t.mem, bx, next);
      if t.ok {
        LeavesOthers(turn, disk, bad, g, tail, next, end, t.mem, t.trace);
        TouchesBoth(mem, t.mem, LoadChain(turn, ClusterBytes(g), tail, next, t.mem, t.trace).buffer, bx, next, end);
      }
    }
  }

  lemma {:induction false} FillsMemory(turn: TurnFn, disk: Disk, bad: nat -> bool, g: Geometry, chain: seq<dword>,
                                       bx: nat, end: nat, mem: Memory, trace: seq<nat>)
    requires GoodTurns(turn, disk, bad, g)
    requires FAT_PAGE + SECTOR <= bx <= end <= MEMORY && bx + Span(|chain|, ClusterBytes(g)) == end
    ensures var r := LoadChain(turn, ClusterBytes(g), chain, bx, mem, trace);
            r.ok ==> r.buffer[bx..end] == Contents(disk, g, chain)
    decreases |chain|
  {
    if chain != [] {
      var t, tail, next := turn(chain[0], bx, mem, trace), chain[1..], bx + ClusterBytes(g);
      assert GoodTurn(t, disk, bad, g, chain[0], bx, mem, trace);
      if t.ok {
        FillsMemory(turn, disk, bad, g, tail, next, end, t.mem, t.trace);
        LeavesOthers(turn, disk, bad, g, tail, next, end, t.mem, t.trace);
        Rejoin(LoadChain(turn, ClusterBytes(g), tail, next, t.mem, t.trace).buffer, t.mem, bx, next, end);
      }
    }
  }

  lemma GoodTurnsLoad(turn: TurnFn, disk: Disk, bad: nat -> bool, g: Geometry, chain: seq<dword>, bx: nat, end: nat,
                      mem: Memory, trace: seq<nat>)
    requires GoodTurns(turn, disk, bad, g)
    requires FAT_PAGE + SECTOR <= bx <= end <= MEMORY && bx + Span(|chain|, ClusterBytes(g)) == end
    ensures var r := LoadChain(turn, ClusterBytes(g), chain, bx, mem, trace);
            && |r.trace| >= |trace| && (r.ok <==> NoneFailed(bad, |trace|, |r.trace|))
            && (r.ok ==> r.trace == trace + Reads(g, chain) && r.buffer[bx..end] == Contents(disk, g, chain))
            && OnlyTouches(mem, r.buffer, bx, end)
  {
    ReadsInOrder(turn, disk, bad, g, chain, bx, mem, trace);
    FillsMemory(turn, disk, bad, g, chain, bx, end, mem, trace);
    LeavesOthers(turn, disk, bad, g, chain, bx, end, mem, trace);
  }

  /** load_file, whatever the reads do: the carry flag is clear exactly when none of
      the reads made failed. Then the sectors read are those of the chain in order,
      and the file is in memory from %bx on. Either way nothing else but the FAT page
      has been written, as far as `mem` goes: the loader's own fields and the stack are kept apart. */
  lemma LoadFileLoadsChain(disk: Disk, bad: nat -> bool, g: Geometry, chain: seq<dword>, bx: nat, mem: Memory,
                           trace: seq<nat>)
    returns (r: Reading, end: nat)
    requires FAT_PAGE + SECTOR <= bx && bx + Span(|chain|, ClusterBytes(g)) <= MEMORY
    ensures r == LoadChain(TurnOf(disk, bad, g), ClusterBytes(g), chain, bx, mem, trace)
    ensures bx <= end == bx + Span(|chain|, ClusterBytes(g)) && |r.buffer| == MEMORY
    ensures |r.trace| >= |trace| && (r.ok <==> NoneFailed(bad, |trace|, |r.trace|))
    ensures r.ok ==> r.trace == trace + Reads(g, chain) && r.buffer[bx..end] == Contents(disk, g, chain)
    ensures OnlyTouches(mem, r.buffer, bx, end)
  {
    var turn := TurnOf(disk, bad, g);
    end := bx + Span(|chain|, ClusterBytes(g));
    r := LoadChain(turn, ClusterBytes(g), chain, bx, mem, trace);
    TurnsAreGood(disk, bad, g);
    GoodTurnsLoad(turn, disk, bad, g, chain, bx, end, mem, trace);
  }
}
