/** Where a cluster lies on the disk: the kernel multiplies (drivers/filesys.c), the
    boot loader shifts, rotates and masks register pairs (boot/load_file.s). */
module ClusterAddress {
  import opened Words
  import opened Cpu

  /** load_Cluster's sector number, in 32-bit arithmetic. */
  function ClusterLba(base: dword, index: int, sectorsPerCluster: nat): dword {
    (base + (index - 2) * sectorsPerCluster) % 0x1_0000_0000
  }

  function Long(hi: word, lo: word): dword { hi * 0x1_0000 + lo }

  /** `sub $2, %ax; sbb $0, %dx` */
  function MinusTwo(dx: word, ax: word): (word, word) {
    var (ax, borrow) := Sub16(ax, 2, false);
    (Sub16(dx, 0, borrow).0, ax)
  }

  /** `shl %cl, %dx; rol %cl, %ax`, then the rotated bits go from %ax to %dx. */
  function Scale(dx: word, ax: word, scale: byte, mask: byte): (word, word) {
    var rotated := Rol16(ax, scale);
    (Or16(Shl16(dx, scale), And16(rotated, mask)), And16(rotated, Not16(mask)))
  }

  /** `add %cx, %ax; adc %cx, %dx` */
  function PlusBase(dx: word, ax: word, baseHi: word, baseLo: word): (word, word) {
    var (ax, carry) := Add16(ax, baseLo, false);
    (Add16(dx, baseHi, carry).0, ax)
  }

  /** The sector number the loader works out in %dx:%ax. */
  function LoaderLba(dx: word, ax: word, scale: byte, mask: byte, baseHi: word, baseLo: word): (word, word) {
    var (dx, ax) := MinusTwo(dx, ax);
    var (dx, ax) := Scale(dx, ax, scale, mask);
    PlusBase(dx, ax, baseHi, baseLo)
  }

  lemma MinusTwoIsExact(dx: word, ax: word)
    ensures var (dx', ax') := MinusTwo(dx, ax); Long(dx', ax') == (Long(dx, ax) - 2) % 0x1_0000_0000
  {
  }

  lemma PlusBaseIsExact(dx: word, ax: word, baseHi: word, baseLo: word)
    ensures var (dx', ax') := PlusBase(dx, ax, baseHi, baseLo);
            Long(dx', ax') == (Long(baseHi, baseLo) + Long(dx, ax)) % 0x1_0000_0000
  {
  }

  lemma SmallScale(s: nat)
    requires s <= 8
    ensures 1 <= Pow2(s) <= 0x100
  {
    Pow2Values(s);
  }

  lemma ComplementClears(x: word, mask: word)
    ensures And16(x, Not16(mask)) == x - And16(x, mask)
  {
    WordSize();
    AndComplement(x, mask, 16);
  }

  /** The mask and its complement split a word into its `s` low bits and the rest. */
  lemma MaskSplits(x: word, lo: nat, c: nat, s: nat, mask: word)
    requires x == lo + c && Low(lo, s) == 0 && c < Pow2(s) == mask + 1
    ensures And16(x, mask) == c && And16(x, Not16(mask)) == lo
  {
    LowOfParts(lo, c, s);
    AndLowMask(x, s);
    ComplementClears(x, mask);
  }

  lemma MergeAdds(x: word, c: word, s: nat)
    requires Low(x, s) == 0 && c < Pow2(s)
    ensures Or16(x, c) == x + c
  {
    OrDisjoint(x, c, s);
  }

  lemma ScaleOfParts(dx: word, ax: word, s: byte, mask: byte, hi: word, lo: word, c: word)
    requires Shl16(dx, s) == hi && Rol16(ax, s) == lo + c
    requires Low(hi, s) == 0 && Low(lo, s) == 0 && c < Pow2(s) == mask + 1
    requires hi + c < 0x1_0000
    ensures Scale(dx, ax, s, mask) == (hi + c, lo)
  {
    MaskSplits(lo + c, lo, c, s, mask);
    MergeAdds(hi, c, s);
  }

  /** The three parts after `s` steps: both words shifted, and the bits carried between them. */
  lemma ScaleInParts(dx: word, ax: word, s: byte, mask: byte) returns (hi: word, lo: word, c: word)
    requires s <= 8 && Pow2(s) == mask + 1
    ensures hi + c < 0x1_0000 && Scale(dx, ax, s, mask) == (hi + c, lo)
    ensures (hi + c) * 0x1_0000 + lo == Doubled(Long(dx, ax), s) % 0x1_0000_0000
  {
    ShiftAndRotate(dx, ax, s);
    hi, lo, c := Shift(dx, s), Shift(ax, s), Carried(ax, s);
    ShiftDouble(dx, ax, s);
    ScaleOfParts(dx, ax, s, mask, hi, lo, c);
  }

  lemma ScaleDoubles(dx: word, ax: word, s: byte, mask: byte)
    requires s <= 8 && Pow2(s) == mask + 1
    ensures var (dx', ax') := Scale(dx, ax, s, mask);
            Long(dx', ax') == Doubled(Long(dx, ax), s) % 0x1_0000_0000
  {
    var hi, lo, c := ScaleInParts(dx, ax, s, mask);
  }

  /** Shift, rotate, mask and merge multiply the register pair by 2^s. */
  lemma ScaleIsExact(dx: word, ax: word, s: nat)
    requires s <= 8
    ensures 1 <= Pow2(s) <= 0x100
    ensures var (dx', ax') := Scale(dx, ax, s, Pow2(s) - 1);
            Long(dx', ax') == Long(dx, ax) * Pow2(s) % 0x1_0000_0000
  {
    SmallScale(s);
    ScaleDoubles(dx, ax, s, Pow2(s) - 1);
    DoubledIsProduct(Long(dx, ax), s);
  }

  lemma SameModulo(a: int, b: int, n: int)
    requires a == b + n * 0x1_0000_0000
    ensures a % 0x1_0000_0000 == b % 0x1_0000_0000
  {
  }

  /** Working modulo 2^32 at each step changes nothing in the end. */
  lemma ModuloAtEachStep(base: dword, index: int, y: int, z: int, k: nat)
    requires y == (index - 2) % 0x1_0000_0000 && z == y * k % 0x1_0000_0000
    ensures (base + z) % 0x1_0000_0000 == ClusterLba(base, index, k)
  {
    var q, r := (index - 2) / 0x1_0000_0000, y * k / 0x1_0000_0000;
    assert y * k == z + r * 0x1_0000_0000;
    assert (q * 0x1_0000_0000 + y) * k == (q * k) * 0x1_0000_0000 + y * k;
    SameModulo(base + (index - 2) * k, base + z, q * k + r);
  }

  /** For every cluster number, scale up to 8 and matching mask, the loader's
      registers hold the kernel's sector number. */
  lemma LoaderLbaIsClusterLba(dx: word, ax: word, s: nat, baseHi: word, baseLo: word)
    requires s <= 8
    ensures 1 <= Pow2(s) <= 0x100
    ensures var (hi, lo) := LoaderLba(dx, ax, s, Pow2(s) - 1, baseHi, baseLo);
            Long(hi, lo) == ClusterLba(Long(baseHi, baseLo), Long(dx, ax), Pow2(s))
  {
    var (dx1, ax1) := MinusTwo(dx, ax);
    MinusTwoIsExact(dx, ax);
    ScaleIsExact(dx1, ax1, s);
    var (dx2, ax2) := Scale(dx1, ax1, s, Pow2(s) - 1);
    PlusBaseIsExact(dx2, ax2, baseHi, baseLo);
    ModuloAtEachStep(Long(baseHi, baseLo), Long(dx, ax), Long(dx1, ax1), Long(dx2, ax2), Pow2(s));
  }
}
