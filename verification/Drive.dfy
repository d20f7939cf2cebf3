/** A disk of 512-byte sectors. Ports, status polling and BIOS calls are replaced by
    one operation, the read of a sector, which either fails or delivers it. */
module Drive {
  import opened Words

  const SECTOR := 512

  type Sector = s: seq<byte> | |s| == 512 witness seq(512, _ => 0)

  type Disk = nat -> Sector

  function LittleWord(s: seq<byte>, off: nat): (w: word)
    requires off + 2 <= |s|
  {
    s[off] as int + 0x100 * (s[off + 1] as int)
  }

  function LittleDword(s: seq<byte>, off: nat): (d: dword)
    requires off + 4 <= |s|
  {
    LittleWord(s, off) as int + 0x1_0000 * (LittleWord(s, off + 2) as int)
  }

  /** The bytes of `n` sectors from `lba` on. */
  function Sectors(disk: Disk, lba: nat, n: nat): (s: seq<byte>)
    ensures |s| == SECTOR * n
    decreases n
  {
    if n == 0 then [] else disk(lba) + Sectors(disk, lba + 1, n - 1)
  }

  /** How many of `n` reads starting with read number `t` succeed before one fails. */
  function Successes(bad: nat -> bool, t: nat, n: nat): (k: nat)
    ensures k <= n
    ensures forall i :: t <= i < t + k ==> !bad(i)
    ensures k < n ==> bad(t + k)
    decreases n
  {
    if n == 0 || bad(t) then 0 else 1 + Successes(bad, t + 1, n - 1)
  }

  /** `n` consecutive sectors. */
  function Range(lba: nat, n: nat): (lbas: seq<nat>)
    ensures |lbas| == n
    decreases n
  {
    if n == 0 then [] else [lba] + Range(lba + 1, n - 1)
  }

  /** The sectors `n` reads ask for: all up to and including the one that fails. */
  function Asked(bad: nat -> bool, t: nat, lba: nat, n: nat): seq<nat> {
    var k := Successes(bad, t, n);
    Range(lba, if k < n then k + 1 else n)
  }

  /** `s` with `data` written over it from `off` on. */
  function Splice(s: seq<byte>, off: nat, data: seq<byte>): (r: seq<byte>)
    requires off + |data| <= |s|
    ensures |r| == |s|
    ensures forall k :: 0 <= k < |s| ==> r[k] == if off <= k < off + |data| then data[k - off] else s[k]
  {
    seq(|s|, k requires 0 <= k < |s| => if off <= k < off + |data| then data[k - off] else s[k])
  }

  /** Reading `n` sectors one after the other: the buffer, whether all went well,
      and the sectors asked for since the drive was started. */
  datatype Reading = Reading(buffer: seq<byte>, ok: bool, trace: seq<nat>)

  function ReadRun(disk: Disk, bad: nat -> bool, lba: nat, n: nat, buffer: seq<byte>, off: nat,
                   trace: seq<nat>): (r: Reading)
    requires off + SECTOR * n <= |buffer|
    ensures |r.buffer| == |buffer|
    decreases n
  {
    if n == 0 then Reading(buffer, true, trace)
    else if bad(|trace|) then Reading(buffer, false, trace + [lba])
    else ReadRun(disk, bad, lba + 1, n - 1, Splice(buffer, off, disk(lba)), off + SECTOR, trace + [lba])
  }

  lemma SpliceTwice(s: seq<byte>, off: nat, a: seq<byte>, b: seq<byte>)
    requires off + |a| + |b| <= |s|
    ensures Splice(Splice(s, off, a), off + |a|, b) == Splice(s, off, a + b)
  {
  }

  lemma {:induction false} ReadRunAsks(disk: Disk, bad: nat -> bool, lba: nat, n: nat, buffer: seq<byte>, off: nat,
                                       trace: seq<nat>)
    requires off + SECTOR * n <= |buffer|
    ensures var r := ReadRun(disk, bad, lba, n, buffer, off, trace);
            && r.ok == (Successes(bad, |trace|, n) == n)
            && r.trace == trace + Asked(bad, |trace|, lba, n)
    decreases n
  {
    if n > 0 && !bad(|trace|) {
      ReadRunAsks(disk, bad, lba + 1, n - 1, Splice(buffer, off, disk(lba)), off + SECTOR, trace + [lba]);
      var rest := Asked(bad, |trace| + 1, lba + 1, n - 1);
      assert Asked(bad, |trace|, lba, n) == [lba] + rest;
      Associate(trace, [lba], rest);
    }
  }

  lemma {:induction false} ReadRunFills(disk: Disk, bad: nat -> bool, lba: nat, n: nat, buffer: seq<byte>, off: nat,
                                        trace: seq<nat>)
    requires off + SECTOR * n <= |buffer|
    ensures ReadRun(disk, bad, lba, n, buffer, off, trace).buffer
            == Splice(buffer, off, Sectors(disk, lba, Successes(bad, |trace|, n)))
    decreases n
  {
    if n == 0 || bad(|trace|) {
      assert Splice(buffer, off, []) == buffer;
    } else {
      var k := Successes(bad, |trace| + 1, n - 1);
      ReadRunFills(disk, bad, lba + 1, n - 1, Splice(buffer, off, disk(lba)), off + SECTOR, trace + [lba]);
      SpliceTwice(buffer, off, disk(lba), Sectors(disk, lba + 1, k));
    }
  }

  /** What a run of reads amounts to: the sectors before the first failure are in
      the buffer, everything else is as it was. */
  lemma ReadRunIs(disk: Disk, bad: nat -> bool, lba: nat, n: nat, buffer: seq<byte>, off: nat, trace: seq<nat>)
    requires off + SECTOR * n <= |buffer|
    ensures var r, k := ReadRun(disk, bad, lba, n, buffer, off, trace), Successes(bad, |trace|, n);
            && r.ok == (k == n)
            && r.buffer == Splice(buffer, off, Sectors(disk, lba, k))
            && r.trace == trace + Asked(bad, |trace|, lba, n)
  {
    ReadRunAsks(disk, bad, lba, n, buffer, off, trace);
    ReadRunFills(disk, bad, lba, n, buffer, off, trace);
  }

  class Drive {
    var disk: Disk
    /** Which reads fail, counted from the first one ever. */
    const bad: nat -> bool
    /** The sectors asked for so far. */
    var trace: seq<nat>

    constructor (disk: Disk, bad: nat -> bool)
      ensures this.disk == disk && this.bad == bad && trace == []
    {
      this.disk := disk;
      this.bad := bad;
      trace := [];
    }

    /** One sector into `buffer` at `off`; a failed read leaves the buffer alone. */
    method Read(lba: nat, buffer: array<byte>, off: nat) returns (ok: bool)
      requires off + SECTOR <= buffer.Length
      modifies this`trace, buffer
      ensures ok == !bad(|old(trace)|) && trace == old(trace) + [lba]
      ensures buffer[..] == if ok then Splice(old(buffer[..]), off, disk(lba)) else old(buffer[..])
    {
      ok := !bad(|trace|);
      trace := trace + [lba];
      if ok {
        var data: seq<byte> := disk(lba);
        var i := 0;
        ghost var before := buffer[..];
        while i < SECTOR
          invariant 0 <= i <= SECTOR && i % 2 == 0
          invariant forall k :: 0 <= k < off ==> buffer[k] == before[k]
          invariant forall k :: off <= k < off + i ==> buffer[k] == data[k - off]
          invariant forall k :: off + i <= k < buffer.Length ==> buffer[k] == before[k]
          modifies buffer
        {
          buffer[off + i] := data[i];
          buffer[off + i + 1] := data[i + 1];
          i := i + 2;
        }
        assert buffer[..] == Splice(before, off, data);
      }
    }

    /** The first of `n` sectors. */
    method ReadFirst(lba: nat, ghost n: nat, buffer: array<byte>, off: nat) returns (ok: bool)
      requires n > 0 && off + SECTOR * n <= buffer.Length
      modifies this`trace, buffer
      ensures ReadRun(disk, bad, lba, n, old(buffer[..]), off, old(trace))
              == if ok then ReadRun(disk, bad, lba + 1, n - 1, buffer[..], off + SECTOR, trace)
                 else Reading(buffer[..], false, trace)
    {
      ok := Read(lba, buffer, off);
    }

    /** `n` sectors one after the other, up to the first failure. */
    method ReadMany(lba: nat, n: nat, buffer: array<byte>, off: nat) returns (ok: bool)
      requires off + SECTOR * n <= buffer.Length
      modifies this`trace, buffer
      ensures Reading(buffer[..], ok, trace) == ReadRun(disk, bad, lba, n, old(buffer[..]), off, old(trace))
    {
      ghost var r := ReadRun(disk, bad, lba, n, buffer[..], off, trace);
      ghost var left := n;
      var s, at, next := 0, off, lba;
      ok := true;
      while s < n && ok
        invariant s + left == n && off <= at && at + SECTOR * left <= buffer.Length
        invariant r == if ok then ReadRun(disk, bad, next, left, buffer[..], at, trace)
                  else Reading(buffer[..], false, trace)
        modifies this`trace, buffer
        decreases left, ok
      {
        ok := ReadFirst(next, left, buffer, at);
        if ok {
          s, at, next, left := s + 1, at + SECTOR, next + 1, left - 1;
        }
      }
    }

    /** The same done by the firmware: the sectors appear in `memory` from `off` on. */
    method Transfer(lba: nat, n: nat, memory: seq<byte>, off: nat) returns (r: Reading)
      requires off + SECTOR * n <= |memory|
      modifies this`trace
      ensures r == ReadRun(disk, bad, lba, n, memory, off, old(trace)) && trace == r.trace
    {
      r := ReadRun(disk, bad, lba, n, memory, off, trace);
      trace := r.trace;
    }

    /** Whole sectors from `lba` on. */
    method Write(lba: nat, data: seq<byte>)
      requires |data| % SECTOR == 0
      modifies this`disk
      ensures forall n: nat :: disk(n) == Written(old(disk), lba, data, n)
    {
      var before := disk;
      disk := (n: nat) => Written(before, lba, data, n);
    }
  }

  /** Sector `n` after `data` has been written from `lba` on. */
  function Written(disk: Disk, lba: nat, data: seq<byte>, n: nat): Sector
    requires |data| % SECTOR == 0
  {
    if lba <= n && SECTOR * (n - lba) < |data| then data[SECTOR * (n - lba)..SECTOR * (n - lba) + SECTOR] else disk(n)
  }

  /** Without failures every read of a run succeeds. */
  lemma {:induction false} AllSucceed(bad: nat -> bool, t: nat, n: nat)
    requires forall i: nat :: t <= i < t + n ==> !bad(i)
    ensures Successes(bad, t, n) == n
    decreases n
  {
    if n > 0 {
      AllSucceed(bad, t + 1, n - 1);
    }
  }

  lemma {:induction false} SectorsAt(disk: Disk, lba: nat, n: nat, i: nat)
    requires i < n
    ensures Sectors(disk, lba, n)[SECTOR * i..SECTOR * i + SECTOR] == disk(lba + i)
    decreases n
  {
    if i > 0 {
      SectorsAt(disk, lba + 1, n - 1, i - 1);
      var rest := Sectors(disk, lba + 1, n - 1);
      assert Sectors(disk, lba, n)[SECTOR * i..SECTOR * i + SECTOR]
          == rest[SECTOR * (i - 1)..SECTOR * (i - 1) + SECTOR];
    }
  }

  function ZeroSector(): Sector { seq(512, _ => 0) }

  lemma {:induction false} ZeroSectors(disk: Disk, lba: nat, n: nat)
    requires forall i: nat :: lba <= i < lba + n ==> disk(i) == ZeroSector()
    ensures forall k :: 0 <= k < SECTOR * n ==> Sectors(disk, lba, n)[k] == 0
    decreases n
  {
    if n > 0 {
      ZeroSectors(disk, lba + 1, n - 1);
    }
  }
}
