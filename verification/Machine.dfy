/** The boot loader's machine: 16-bit registers, the carry flag, 64 KiB of memory, the
    stack, and the words boot/div_32.s and boot/load_disk_LBA.s keep in memory. Each
    method is a stretch of instructions, one statement for one instruction. */
module Machine {
  import opened Words
  import opened Cpu
  import opened Drive
  import opened Div32
  import opened ClusterAddress

  const MEMORY := 0x1_0000

  type Memory = s: seq<byte> | |s| == 0x1_0000 witness seq(0x1_0000, _ => 0)

  const FAT_PAGE := 0x8000
  const DAP_ADDRESS: word := 0x7D00
  const BIOS_ERROR: word := 0x0400

  /** What the loader reads from the file system's boot sector at 0x7E00. */
  datatype Geometry = Geometry(fatBase: dword, clusterBase: dword, sectorsPerCluster: byte, scale: byte, mask: byte)

  function GeometryOf(sector: seq<byte>): Geometry
    requires |sector| == SECTOR
  {
    Geometry(LittleDword(sector, 0x5A), LittleDword(sector, 0x5E), sector[0x0D], sector[0x62], sector[0x63])
  }

  /** The place of the boot sector in memory. */
  function BootSector(mem: seq<byte>): (s: seq<byte>)
    requires |mem| == MEMORY
    ensures |s| == SECTOR
  {
    mem[0x7E00..0x8000]
  }

  /** The scale and the mask say the same as the sectors of a cluster. */
  ghost predicate Consistent(g: Geometry) {
    g.scale <= 7 && g.sectorsPerCluster == Pow2(g.scale) && g.mask == Pow2(g.scale) - 1
  }

  function ClusterBytes(g: Geometry): nat { SECTOR * g.sectorsPerCluster }

  datatype Stack = Empty | Frame(top: word, below: Stack)

  /** A 16-bit register whose low byte is replaced. */
  function SetLow(x: word, b: byte): (r: word)
    ensures r % 0x100 == b && r / 0x100 == x / 0x100
  {
    x / 0x100 * 0x100 + b
  }

  class Machine {
    var ax: word
    var bx: word
    var cx: word
    var dx: word
    var si: word
    var cf: bool
    var stack: Stack
    var mem: Memory
    var lower: word
    var upper: word
    var dapSectors: word
    var dapDst: word
    var dapLba1: word
    var dapLba2: word
    var bootDrive: byte
    const drive: Drive

    constructor (drive: Drive, memory: Memory)
      ensures this.drive == drive && mem == memory && stack == Empty
    {
      this.drive := drive;
      mem := memory;
      ax, bx, cx, dx, si, cf, stack := 0, 0, 0, 0, 0, false, Empty;
      lower, upper, dapSectors, dapDst, dapLba1, dapLba2, bootDrive := 0, 0, 0, 0, 0, 0, 0;
    }

    function Word(at: nat): word
      requires at + 2 <= MEMORY
      reads this
    {
      LittleWord(mem, at)
    }

    /** The instruction `div %cx`. */
    method Div()
      requires dx < cx
      modifies this`ax, this`dx
      ensures (ax, dx) == Div16(old(dx), old(ax), cx)
    {
      var r := Div16(dx, ax, cx);
      ax, dx := r.0, r.1;
    }

    /** div32 up to its third division. */
    method DivideParts()
      requires cx > 0
      modifies this`ax, this`bx, this`dx, this`stack, this`lower, this`upper
      ensures (lower, bx) == Div16(0, old(ax), cx) && upper == Div16(0, old(dx), cx).0
      ensures (ax, dx) == Div16(Div16(0, old(dx), cx).1, 0, cx)
      ensures stack == Frame(old(bx), old(stack))
    {
      stack := Frame(bx, stack);
      stack := Frame(dx, stack);

      dx := 0;
      Div();
      bx := dx;
      lower := ax;

      dx := 0;
      ax, stack := stack.top, stack.below;
      Div();
      upper := ax;

      ax := 0;
      Div();
    }

    /** The rest of div32: the remainders are added, the excess corrected, the carry kept. */
    method CombineParts()
      requires stack.Frame?
      modifies this`ax, this`bx, this`dx, this`cf, this`stack, this`lower, this`upper
      ensures var (more, rem) := Correct(old(ax), Add16(old(bx), old(dx), false).0, cx);
              Quotient(upper, lower, dx) == Combine(old(upper), old(lower), more, rem)
      ensures Frame(bx, stack) == old(stack)
    {
      dx := Add16(bx, dx, false).0;
      cf := dx < cx;
      if !(SignedWord(dx) < SignedWord(cx)) {
        ax := Add16(ax, 1, false).0;
        dx := Sub16(dx, cx, false).0;
      }
      var sum := Add16(lower, ax, false);
      lower, cf := sum.0, sum.1;
      if cf {
        upper := Add16(upper, 1, false).0;
      }
      bx, stack := stack.top, stack.below;
    }

    /** div32 of boot/div_32.s. */
    method DivideBy()
      requires cx > 0
      modifies this`ax, this`bx, this`dx, this`cf, this`stack, this`lower, this`upper
      ensures Quotient(upper, lower, dx) == Divide(old(dx), old(ax), cx)
      ensures bx == old(bx) && stack == old(stack)
    {
      DivideParts();
      CombineParts();
    }

    /** load_disk of boot/load_disk_LBA.s: the BIOS reads sectors at a 64-bit address
        whose upper half is zero, and reports a failure in the carry flag. */
    method LoadDisk()
      requires dapDst + SECTOR * dapSectors <= MEMORY
      modifies this`ax, this`bx, this`dx, this`si, this`cf, this`stack, this`mem, drive`trace
      ensures Reading(mem, !cf, drive.trace)
              == ReadRun(drive.disk, drive.bad, Long(dapLba2, dapLba1), dapSectors,
                         old(mem), dapDst, old(drive.trace))
      ensures bx == old(bx) && stack == old(stack)
    {
      stack := Frame(bx, stack);
      dx := SetLow(dx, bootDrive);
      si := DAP_ADDRESS;
      ax := 0x4200 + ax % 0x100;
      var r := drive.Transfer(Long(dapLba2, dapLba1), dapSectors, mem, dapDst);
      mem, cf := r.buffer, !r.ok;
      ax := (if r.ok then 0 else BIOS_ERROR) + ax % 0x100;
      bx, stack := stack.top, stack.below;
    }

    /** Subtracts 2 from the cluster number in %dx:%ax. */
    method SubtractTwo()
      modifies this`ax, this`dx, this`cf
      ensures (dx, ax) == MinusTwo(old(dx), old(ax))
    {
      var low := Sub16(ax, 2, false);
      ax, cf := low.0, low.1;
      var high := Sub16(dx, 0, cf);
      dx, cf := high.0, high.1;
    }

    /** `mov` to %cl, the low byte of %cx. */
    method LoadCl(b: byte) returns (cl: byte)
      modifies this`cx
      ensures cl == b && cx % 0x100 == b && cx / 0x100 == old(cx) / 0x100
    {
      cx := SetLow(cx, b);
      cl := cx % 0x100;
    }

    /** `shl %cl, %dx; rol %cl, %ax`, with the shift count of the boot sector. */
    method ShiftRegisters()
      modifies this`ax, this`cx, this`dx
      ensures (dx, ax) == (Shl16(old(dx), mem[0x7E62]), Rol16(old(ax), mem[0x7E62])) && cx < 0x100
    {
      cx := 0;
      var cl := LoadCl(mem[0x7E62]);
      dx := Shl16(dx, cl);
      ax := Rol16(ax, cl);
    }

    /** The rotated bits of %ax go to %dx, picked out with the mask of the boot sector. */
    method CopyRotatedBits()
      requires cx < 0x100
      modifies this`ax, this`cx, this`dx, this`stack
      ensures dx == Or16(old(dx), And16(old(ax), mem[0x7E63])) && ax == old(ax) && cx == mem[0x7E63]
      ensures stack == old(stack)
    {
      stack := Frame(ax, stack);
      cx := SetLow(cx, mem[0x7E63]);
      ax := And16(ax, cx);
      dx := Or16(dx, ax);
      ax, stack := stack.top, stack.below;
    }

    /** The rotated bits are moved from %ax to %dx. */
    method MoveRotatedBits()
      requires cx < 0x100
      modifies this`ax, this`cx, this`dx, this`stack
      ensures (dx, ax) == (Or16(old(dx), And16(old(ax), mem[0x7E63])), And16(old(ax), Not16(mem[0x7E63])))
      ensures stack == old(stack)
    {
      CopyRotatedBits();
      cx := Not16(cx);
      ax := And16(ax, cx);
    }

    /** Multiplies %dx:%ax by the sectors of a cluster. */
    method ScaleRegisters()
      modifies this`ax, this`cx, this`dx, this`stack
      ensures (dx, ax) == Scale(old(dx), old(ax), mem[0x7E62], mem[0x7E63])
      ensures stack == old(stack)
    {
      ShiftRegisters();
      MoveRotatedBits();
    }

    /** Adds the double word at `at` to %dx:%ax. */
    method AddDword(at: nat)
      requires at + 4 <= MEMORY
      modifies this`ax, this`cx, this`dx, this`cf
      ensures (dx, ax) == PlusBase(old(dx), old(ax), Word(at + 2), Word(at))
    {
      cx := Word(at);
      var low := Add16(ax, cx, false);
      ax, cf := low.0, low.1;
      cx := Word(at + 2);
      var high := Add16(dx, cx, cf);
      dx, cf := high.0, high.1;
    }

    /** The cluster number in %dx:%ax becomes the number of the cluster's first sector. */
    method ToSector()
      modifies this`ax, this`cx, this`dx, this`cf, this`stack
      ensures (dx, ax) == LoaderLba(old(dx), old(ax), mem[0x7E62], mem[0x7E63], Word(0x7E60), Word(0x7E5E))
      ensures stack == old(stack)
    {
      SubtractTwo();
      ScaleRegisters();
      AddDword(0x7E5E);
    }

    /** load_file up to the first `call load_disk`: saves the cluster number and
        describes the cluster to the BIOS. */
    method DescribeCluster()
      modifies this`ax, this`cx, this`dx, this`cf, this`stack, this`dapSectors, this`dapDst, this`dapLba1, this`dapLba2
      ensures stack == Frame(old(dx), Frame(old(ax), old(stack)))
      ensures (dapLba2, dapLba1) == LoaderLba(old(dx), old(ax), mem[0x7E62], mem[0x7E63], Word(0x7E60), Word(0x7E5E))
      ensures dapDst == bx && dapSectors == mem[0x7E0D]
    {
      stack := Frame(ax, stack);
      stack := Frame(dx, stack);
      ToSector();

      dapLba1 := ax;
      dapLba2 := dx;
      dapDst := bx;

      cx := 0;
      cx := SetLow(cx, mem[0x7E0D]);
      dapSectors := cx;
    }

    /** `mov $128, %cx; call div32` */
    method DivideBy128()
      modifies this`ax, this`bx, this`cx, this`dx, this`cf, this`stack, this`lower, this`upper
      ensures Long(upper, lower) == Long(old(dx), old(ax)) / 128 && dx == Long(old(dx), old(ax)) % 128
      ensures bx == old(bx) && stack == old(stack)
    {
      LocateBy128(dx, ax);
      cx := 128;
      DivideBy();
    }

    /** `shl $2, %dx` */
    method ToByteOffset()
      requires dx < 128
      modifies this`dx
      ensures dx == old(dx) * 4
    {
      ShiftByTwo(dx);
      dx := Shl16(dx, 2);
    }

    /** Divides the saved cluster number by the 128 entries of a FAT sector. */
    method LocateEntry()
      requires stack.Frame? && stack.below.Frame?
      modifies this`ax, this`bx, this`cx, this`dx, this`cf, this`stack, this`lower, this`upper
      ensures var cluster := Long(old(stack.top), old(stack.below.top));
              && Long(dx, ax) == cluster / 128
              && stack == Frame(cluster % 128 * 4, old(stack.below.below))
      ensures bx == old(bx)
    {
      dx, stack := stack.top, stack.below;
      ax, stack := stack.top, stack.below;
      DivideBy128();
      ToByteOffset();
      stack := Frame(dx, stack);

      ax := lower;
      dx := upper;
    }

    /** From there to the second `call load_disk`: describes the FAT sector that
        holds the cluster's entry, and leaves the entry's offset in %cx. */
    method DescribeFatSector()
      requires stack.Frame? && stack.below.Frame?
      modifies this`ax, this`bx, this`cx, this`dx, this`cf, this`stack, this`lower, this`upper,
               this`dapSectors, this`dapDst, this`dapLba1, this`dapLba2
      ensures stack == old(stack.below.below) && bx == old(bx)
      ensures var cluster := Long(old(stack.top), old(stack.below.top));
              && Long(dapLba2, dapLba1) == (Long(Word(0x7E5C), Word(0x7E5A)) + cluster / 128) % 0x1_0000_0000
              && cx == cluster % 128 * 4
      ensures dapDst == FAT_PAGE && dapSectors == 1
    {
      LocateEntry();
      PlusBaseIsExact(dx, ax, Word(0x7E5C), Word(0x7E5A));
      AddDword(0x7E5A);
      cx, stack := stack.top, stack.below;

      dapLba1 := ax;
      dapLba2 := dx;
      dapDst := 0x8000;
      dapSectors := 0x0001;
    }

    /** load_cluster_error: the saved cluster number is dropped. */
    method DropCluster()
      requires stack.Frame? && stack.below.Frame?
      modifies this`ax, this`dx, this`stack
      ensures stack == old(stack.below.below)
    {
      dx, stack := stack.top, stack.below;
      ax, stack := stack.top, stack.below;
    }

    /** The two comparisons with the end mark; both set the carry flag. */
    method CompareWithEnd() returns (end: bool)
      modifies this`cf
      ensures end == (Long(dx, ax) == END_OF_CHAIN) && (end ==> !cf)
    {
      cf := ax < 0xFFFF;
      end := ax == 0xFFFF;
      if end {
        cf := dx < 0x0FFF;
        end := dx == 0x0FFF;
      }
    }

    /** The next cluster number, from the FAT sector just read. */
    method FetchNext()
      requires cx <= 508
      modifies this`ax, this`bx, this`dx, this`cf, this`stack
      ensures Long(dx, ax) == LittleDword(mem, FAT_PAGE + cx) && !cf
      ensures bx == old(bx) && stack == old(stack)
    {
      stack := Frame(bx, stack);
      bx := 0x8000;
      bx, cf := Add16(bx, cx, false).0, Add16(bx, cx, false).1;
      ax := Word(bx);
      dx := Word(bx + 2);
      bx, stack := stack.top, stack.below;
    }
  }

  lemma LocateBy128(dx: word, ax: word)
    ensures var q := Divide(dx, ax, 128);
            Long(q.upper, q.lower) == Long(dx, ax) / 128 && q.rem == Long(dx, ax) % 128
  {
    Div32.DivideBy128(dx, ax);
  }

  /** `shl $2` on a number below 128. */
  lemma ShiftByTwo(x: word)
    requires x < 128
    ensures Shl16(x, 2) == 4 * x
  {
    assert Shift(x, 1) == 2 * x;
  }
}
