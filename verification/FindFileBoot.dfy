/** boot/find_file.s: the loader's search for a file by its raw 11-byte name. */
module FindFileBoot {
  import opened Words
  import opened Cpu
  import opened Drive
  import opened Machine
  import opened Directory

  const NAME := 11

  /** The first record with that raw name, up to the first zero record. */
  function RawFind(recs: seq<Record>, key: seq<byte>): Lookup {
    if recs == [] || IsEnd(recs[0]) then Missing
    else if recs[0][..NAME] == key then Found(recs[0])
    else RawFind(recs[1..], key)
  }

  /** The search ends at one of the records: a match or a zero record. */
  ghost predicate Ends(recs: seq<Record>, key: seq<byte>) {
    recs != [] && (IsEnd(recs[0]) || recs[0][..NAME] == key || Ends(recs[1..], key))
  }

  /** The records stand in memory from `at` on. */
  ghost predicate InMemory(mem: Memory, at: nat, recs: seq<Record>)
    decreases |recs|
  {
    recs == [] || (at + RECORD <= MEMORY && mem[at..at + RECORD] == recs[0] && InMemory(mem, at + RECORD, recs[1..]))
  }

  lemma {:induction false} InMemoryIff(mem: Memory, at: nat, recs: seq<Record>)
    requires at <= MEMORY
    ensures InMemory(mem, at, recs)
            <==> at + RECORD * |recs| <= MEMORY
                 && forall k :: 0 <= k < |recs| ==> mem[at + RECORD * k..at + RECORD * k + RECORD] == recs[k]
    decreases |recs|
  {
    if recs != [] && at + RECORD <= MEMORY {
      InMemoryIff(mem, at + RECORD, recs[1..]);
      var rest := recs[1..];
      if InMemory(mem, at, recs) {
        forall k | 0 <= k < |recs|
          ensures mem[at + RECORD * k..at + RECORD * k + RECORD] == recs[k]
        {
          if k > 0 {
            assert mem[at + RECORD + RECORD * (k - 1)..at + RECORD + RECORD * (k - 1) + RECORD] == rest[k - 1];
          }
        }
      } else if at + RECORD * |recs| <= MEMORY && mem[at..at + RECORD] == recs[0] {
        var k :| 0 <= k < |rest| && mem[at + RECORD + RECORD * k..at + RECORD + RECORD * k + RECORD] != rest[k];
        assert mem[at + RECORD * (k + 1)..at + RECORD * (k + 1) + RECORD] != recs[k + 1];
      }
    }
  }

  /** Bytes %si and %bx point to, up to the first difference or the eleventh pair. */
  method CompareNames(m: Machine) returns (same: bool)
    requires m.bx + NAME <= MEMORY && m.si + NAME <= MEMORY
    modifies m`ax, m`bx, m`cx, m`dx, m`si, m`cf
    ensures same == (m.mem[old(m.bx)..old(m.bx) + NAME] == m.mem[old(m.si)..old(m.si) + NAME])
    ensures same ==> !m.cf
  {
    ghost var name, template := m.mem[m.bx..m.bx + NAME], m.mem[m.si..m.si + NAME];
    m.cx, m.cf := 0, false;
    while true
      invariant m.cx <= 10 && m.bx == old(m.bx) + m.cx && m.si == old(m.si) + m.cx
      invariant name[..m.cx] == template[..m.cx]
      modifies m`ax, m`bx, m`cx, m`dx, m`si, m`cf
      decreases 10 - m.cx
    {
      assert m.mem[m.bx] == name[m.cx] && m.mem[m.si] == template[m.cx];
      m.ax := SetLow(m.ax, m.mem[m.si]);
      m.si := Add16(m.si, 1, false).0;
      m.dx := SetLow(m.dx, m.mem[m.bx]);

      m.dx, m.cf := SetLow(m.dx, Xor8(m.dx % 0x100, m.ax % 0x100)), false;
      if m.dx % 0x100 != 0 {
        return false;
      }
      assert name[..m.cx + 1] == template[..m.cx + 1];
      m.cf := m.cx < 10;
      if m.cx == 10 {
        assert name[..11] == name && template[..11] == template;
        return true;
      }
      m.cx := Add16(m.cx, 1, false).0;
      m.bx := Add16(m.bx, 1, false).0;
    }
  }

  /** One turn of the outer loop; %bx and %si stay on the stack. */
  method LookAt(m: Machine) returns (end: bool, same: bool)
    requires m.bx + RECORD <= MEMORY && m.si + NAME <= MEMORY
    modifies m`ax, m`bx, m`cx, m`dx, m`si, m`cf, m`stack
    ensures end == (m.mem[old(m.bx)] == 0)
    ensures !end ==> same == (m.mem[old(m.bx)..old(m.bx) + NAME] == m.mem[old(m.si)..old(m.si) + NAME])
    ensures (end ==> m.cf) && (!end && same ==> !m.cf)
    ensures m.stack == Frame(old(m.si), Frame(old(m.bx), old(m.stack)))
  {
    m.stack := Frame(m.bx, m.stack);
    m.stack := Frame(m.si, m.stack);
    m.ax := SetLow(m.ax, m.mem[m.bx]);
    m.cf, end, same := false, m.ax % 0x100 == 0, false;
    if end {
      m.cf := true;
    } else {
      same := CompareNames(m);
    }
  }

  method PopPointers(m: Machine)
    requires m.stack.Frame? && m.stack.below.Frame?
    modifies m`bx, m`si, m`stack
    ensures m.si == old(m.stack.top) && m.bx == old(m.stack.below.top) && m.stack == old(m.stack.below.below)
  {
    m.si, m.stack := m.stack.top, m.stack.below;
    m.bx, m.stack := m.stack.top, m.stack.below;
  }

  /** One turn, and the step to the next record if it was not the last. */
  method NextRecord(m: Machine, ghost recs: seq<Record>, ghost key: seq<byte>) returns (done: bool)
    requires m.si + NAME <= MEMORY && key == m.mem[m.si..m.si + NAME]
    requires InMemory(m.mem, m.bx, recs) && Ends(recs, key)
    modifies m`ax, m`bx, m`cx, m`dx, m`si, m`cf, m`stack
    ensures m.si == old(m.si) && m.stack == old(m.stack)
    ensures if done then m.bx == old(m.bx) && RawFind(recs, key) == (if m.cf then Missing else Found(recs[0]))
            else InMemory(m.mem, m.bx, recs[1..]) && Ends(recs[1..], key)
                 && RawFind(recs[1..], key) == RawFind(recs, key)
  {
    assert recs[0] == m.mem[m.bx..m.bx + RECORD] && recs[0][..NAME] == m.mem[m.bx..m.bx + NAME];
    var end, same := LookAt(m);
    done := end || same;
    PopPointers(m);
    if !done {
      m.bx := Add16(m.bx, 32, false).0;
    }
  }

  /** The outer loop. */
  method SearchRecords(m: Machine, ghost recs: seq<Record>, ghost key: seq<byte>) returns (ghost r: Record)
    requires m.si + NAME <= MEMORY && key == m.mem[m.si..m.si + NAME]
    requires InMemory(m.mem, m.bx, recs) && Ends(recs, key)
    modifies m`ax, m`bx, m`cx, m`dx, m`si, m`cf, m`stack
    ensures m.si == old(m.si) && m.stack == old(m.stack)
    ensures m.bx + RECORD <= MEMORY && m.mem[m.bx..m.bx + RECORD] == r
    ensures RawFind(recs, key) == if m.cf then Missing else Found(r)
  {
    ghost var rest := recs;
    var done := false;
    while !done
      invariant m.si == old(m.si) && m.stack == old(m.stack)
      invariant InMemory(m.mem, m.bx, rest) && rest != []
      invariant if done then RawFind(recs, key) == (if m.cf then Missing else Found(rest[0]))
                else Ends(rest, key) && RawFind(rest, key) == RawFind(recs, key)
      modifies m`ax, m`bx, m`cx, m`dx, m`si, m`cf, m`stack
      decreases |rest|, !done
    {
      done := NextRecord(m, rest, key);
      if !done {
        rest := rest[1..];
      }
    }
    r := rest[0];
  }

  /** A word of a record, where the record stands. */
  lemma RecordWord(mem: Memory, at: nat, r: Record, off: nat)
    requires at + RECORD <= MEMORY && mem[at..at + RECORD] == r && off + 2 <= RECORD
    ensures LittleWord(mem, at + off) == LittleWord(r, off)
  {
    assert r[off] == mem[at + off] && r[off + 1] == mem[at + (off + 1)];
  }

  /** find_file: the carry flag is clear exactly when there is a match; %dx:%ax then is
      its start cluster. All other registers and the stack are as before. */
  method FindFile(m: Machine, ghost recs: seq<Record>)
    requires m.si + NAME <= MEMORY && InMemory(m.mem, m.bx, recs) && Ends(recs, m.mem[m.si..m.si + NAME])
    modifies m`ax, m`bx, m`cx, m`dx, m`si, m`cf, m`stack
    ensures match RawFind(recs, m.mem[old(m.si)..old(m.si) + NAME])
            case Missing => m.cf
            case Found(r) => !m.cf && m.ax == LittleWord(r, 0x1A) && m.dx == LittleWord(r, 0x14)
    ensures m.bx == old(m.bx) && m.cx == old(m.cx) && m.si == old(m.si) && m.stack == old(m.stack)
  {
    m.stack := Frame(m.cx, m.stack);
    m.stack := Frame(m.bx, m.stack);
    ghost var r := SearchRecords(m, recs, m.mem[m.si..m.si + NAME]);
    RecordWord(m.mem, m.bx, r, 0x1A);
    RecordWord(m.mem, m.bx, r, 0x14);
    m.ax := m.Word(m.bx + 0x1A);
    m.dx := m.Word(m.bx + 0x14);
    m.bx, m.stack := m.stack.top, m.stack.below;
    m.cx, m.stack := m.stack.top, m.stack.below;
  }
}
