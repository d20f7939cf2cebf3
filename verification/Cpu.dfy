/** The 16-bit instructions the boot loader uses, on unsigned words. Bitwise
    operations are defined bit by bit; the lemmas say what the loader's shift,
    rotate and mask idiom amounts to in arithmetic. */
module Cpu {
  import opened Words

  function Pow2(n: nat): (p: nat)
    ensures p >= 1
  {
    if n == 0 then 1 else 2 * Pow2(n - 1)
  }

  function And(x: nat, y: nat): (r: nat)
    ensures r <= x && r <= y
  {
    if x == 0 || y == 0 then 0 else (if x % 2 == 1 && y % 2 == 1 then 1 else 0) + 2 * And(x / 2, y / 2)
  }

  function Or(x: nat, y: nat): (r: nat)
    ensures r <= x + y
  {
    if x == 0 && y == 0 then 0 else (if x % 2 == 1 || y % 2 == 1 then 1 else 0) + 2 * Or(x / 2, y / 2)
  }

  function Xor(x: nat, y: nat): (r: nat)
    ensures r == 0 <==> x == y
    ensures r <= x + y
  {
    if x == 0 && y == 0 then 0 else (if x % 2 != y % 2 then 1 else 0) + 2 * Xor(x / 2, y / 2)
  }

  function And16(x: word, y: word): word { And(x, y) }

  function Or16(x: word, y: word): word {
    WordSize();
    OrBelow(x, y, 16);
    Or(x, y)
  }

  /** On bytes: zero exactly for equal operands. */
  function Xor8(x: byte, y: byte): (r: byte)
    ensures r == 0 <==> x == y
  {
    Pow2Values(8);
    XorBelow(x, y, 8);
    Xor(x, y)
  }

  function Not16(x: word): word { 0xFFFF - x }

  function Add16(x: word, y: word, carry: bool): (r: (word, bool))
    ensures r.0 + (if r.1 then 0x1_0000 else 0) == x + y + if carry then 1 else 0
  {
    var s := x + y + if carry then 1 else 0;
    (s % 0x1_0000, s >= 0x1_0000)
  }

  function Sub16(x: word, y: word, borrow: bool): (r: (word, bool))
    ensures r.0 - (if r.1 then 0x1_0000 else 0) == x - y - if borrow then 1 else 0
  {
    var d := x - y - if borrow then 1 else 0;
    (d % 0x1_0000, d < 0)
  }

  /** The instruction `div`: %dx:%ax by a 16-bit divisor. With the high word below
      the divisor the quotient fits its register and there is no divide error. */
  function Div16(high: word, low: word, d: word): (r: (word, word))
    requires high < d
    ensures high * 0x1_0000 + low == r.0 * d + r.1 && r.1 < d
  {
    var dividend := high * 0x1_0000 + low;
    QuotientFits(dividend, d);
    (dividend / d, dividend % d)
  }

  lemma QuotientFits(dividend: nat, d: word)
    requires d > 0 && dividend < d * 0x1_0000
    ensures dividend / d < 0x1_0000
  {
  }

  /** One bit to the left; the highest is lost, or comes back as the lowest. */
  function ShiftOnce(x: word): word { 2 * x - if x >= 0x8000 then 0x1_0000 else 0 }

  function RotateOnce(x: word): word { ShiftOnce(x) + TopBit(x) }

  function TopBit(x: word): word { if x >= 0x8000 then 1 else 0 }

  function Shift(x: word, n: nat): word { if n == 0 then x else ShiftOnce(Shift(x, n - 1)) }

  function Rotate(x: word, n: nat): word { if n == 0 then x else RotateOnce(Rotate(x, n - 1)) }

  /** The processor takes shift counts modulo 32. */
  function Shl16(x: word, count: nat): word { Shift(x, count % 32) }

  function Rol16(x: word, count: nat): word { Rotate(x, count % 32) }

  function SignedWord(x: word): int { if x < 0x8000 then x else x - 0x1_0000 }

  // ---------------------------------------------------------------- bits and numbers

  lemma AtLeastOnce(a: int, d: int)
    requires a >= 1 && d >= 0
    ensures a * d >= d
  {
    assert (a - 1) * d >= 0;
  }

  lemma AtLeast(a: nat, b: nat, d: nat)
    requires a >= b
    ensures a * d >= b * d
  {
    assert (a - b) * d >= 0;
  }

  lemma QuotientUnique(d: int, q: int, r: int, q': int, r': int)
    requires 0 <= r < d && 0 <= r' < d && q * d + r == q' * d + r'
    ensures q == q' && r == r'
  {
    assert (q - q') * d == r' - r;
    if q > q' {
      AtLeastOnce(q - q', d);
    } else if q < q' {
      assert (q' - q) * d == r - r';
      AtLeastOnce(q' - q, d);
    }
  }

  lemma DivModUnique(x: int, d: int, q: int, r: int)
    requires 0 <= r < d && x == q * d + r
    ensures x / d == q && x % d == r
  {
    QuotientUnique(d, q, r, x / d, x % d);
  }

  lemma ModDouble(x: nat, m: nat)
    requires m > 0
    ensures x % (2 * m) == 2 * (x / 2 % m) + x % 2
  {
    var h := x / 2;
    assert h == h / m * m + h % m;
    calc {
      x;
      2 * (h / m * m + h % m) + x % 2;
      (h / m) * (2 * m) + (2 * (h % m) + x % 2);
    }
    DivModUnique(x, 2 * m, h / m, 2 * (h % m) + x % 2);
  }

  /** The `s` low bits of `x`. */
  function Low(x: nat, s: nat): nat {
    if s == 0 then 0 else x % 2 + 2 * Low(x / 2, s - 1)
  }

  lemma {:induction false} LowIsRemainder(x: nat, s: nat)
    ensures Low(x, s) == x % Pow2(s)
  {
    if s > 0 {
      LowIsRemainder(x / 2, s - 1);
      ModDouble(x, Pow2(s - 1));
    }
  }

  lemma {:induction false} LowOfSmall(x: nat, n: nat)
    requires x < Pow2(n)
    ensures Low(x, n) == x
  {
    if n > 0 {
      LowOfSmall(x / 2, n - 1);
    }
  }

  lemma {:induction false} LowOfZero(s: nat)
    ensures Low(0, s) == 0
  {
    if s > 0 {
      LowOfZero(s - 1);
    }
  }

  /** A mask of `s` ones picks the low bits. */
  lemma {:induction false} AndLowMask(x: nat, s: nat)
    ensures And(x, Pow2(s) - 1) == Low(x, s)
  {
    if x == 0 {
      LowOfZero(s);
    } else if s > 0 {
      AndLowMask(x / 2, s - 1);
      assert (Pow2(s) - 1) / 2 == Pow2(s - 1) - 1;
    }
  }

  /** A mask and its complement in `n` bits share the bits of `x` out. */
  lemma {:induction false} AndComplement(x: nat, mask: nat, n: nat)
    requires x < Pow2(n) && mask < Pow2(n)
    ensures And(x, Pow2(n) - 1 - mask) == x - And(x, mask)
  {
    if n > 0 {
      var m, half := Pow2(n) - 1 - mask, Pow2(n - 1) - 1 - mask / 2;
      AndComplement(x / 2, mask / 2, n - 1);
      assert m / 2 == half && m % 2 == 1 - mask % 2;
      AndUnfold(x, m);
      AndUnfold(x, mask);
    }
  }

  lemma AndUnfold(x: nat, y: nat)
    ensures And(x, y) == (if x % 2 == 1 && y % 2 == 1 then 1 else 0) + 2 * And(x / 2, y / 2)
  {
  }

  lemma {:induction false} OrZero(x: nat)
    ensures Or(x, 0) == x
  {
    if x > 0 {
      OrZero(x / 2);
    }
  }

  /** Or-ing bits into a place that is clear adds them. */
  lemma {:induction false} OrDisjoint(x: nat, y: nat, s: nat)
    requires Low(x, s) == 0 && y < Pow2(s)
    ensures Or(x, y) == x + y
  {
    if s == 0 {
      OrZero(x);
    } else {
      OrDisjoint(x / 2, y / 2, s - 1);
    }
  }

  lemma {:induction false} OrBelow(x: nat, y: nat, n: nat)
    requires x < Pow2(n) && y < Pow2(n)
    ensures Or(x, y) < Pow2(n)
  {
    if n > 0 {
      OrBelow(x / 2, y / 2, n - 1);
    }
  }

  lemma {:induction false} XorBelow(x: nat, y: nat, n: nat)
    requires x < Pow2(n) && y < Pow2(n)
    ensures Xor(x, y) < Pow2(n)
  {
    if n > 0 {
      XorBelow(x / 2, y / 2, n - 1);
    }
  }

  lemma WordSize()
    ensures Pow2(15) == 0x8000 && Pow2(16) == 0x1_0000
  {
    Pow2Values(15);
  }

  lemma Pow2Values(n: nat)
    requires n <= 16
    ensures Pow2(n) == [1, 2, 4, 8, 16, 32, 64, 128, 256, 512, 1024, 2048, 4096, 8192, 16384, 32768, 65536][n]
  {
    if n > 0 {
      Pow2Values(n - 1);
    }
  }

  // ------------------------------------------------------- numbers with low bits clear

  lemma {:induction false} LowOfSum(x: nat, s: nat, n: nat)
    requires s <= n
    ensures Low(x + Pow2(n), s) == Low(x, s)
  {
    if s > 0 {
      assert (x + Pow2(n)) / 2 == x / 2 + Pow2(n - 1);
      LowOfSum(x / 2, s - 1, n - 1);
    }
  }

  /** Below 2^n there is room for the low bits. */
  lemma {:induction false} RoomBelow(x: nat, s: nat, n: nat)
    requires s <= n && x < Pow2(n) && Low(x, s) == 0
    ensures x + Pow2(s) <= Pow2(n)
  {
    if s > 0 {
      RoomBelow(x / 2, s - 1, n - 1);
    }
  }

  lemma {:induction false} LowOfParts(x: nat, c: nat, s: nat)
    requires Low(x, s) == 0 && c < Pow2(s)
    ensures Low(x + c, s) == c
  {
    if s > 0 {
      assert (x + c) / 2 == x / 2 + c / 2;
      LowOfParts(x / 2, c / 2, s - 1);
    }
  }

  /** Doubling a word whose `s` low bits are clear clears one more. */
  lemma ShiftOnceClears(x: word, s: nat)
    requires Low(x, s) == 0 && s < 16
    ensures Low(ShiftOnce(x), s + 1) == 0
    ensures ShiftOnce(x) + Pow2(s + 1) <= 0x1_0000
  {
    WordSize();
    assert Low(2 * x, s + 1) == 2 * Low(x, s);
    if x >= 0x8000 {
      assert ShiftOnce(x) == 2 * x - 0x1_0000;
      LowOfSum(2 * x - 0x1_0000, s + 1, 16);
    }
    RoomBelow(ShiftOnce(x), s + 1, 16);
  }

  lemma {:induction false} ShiftClears(x: word, s: nat)
    requires s <= 16
    ensures Low(Shift(x, s), s) == 0 && Shift(x, s) + Pow2(s) <= 0x1_0000
  {
    WordSize();
    if s > 0 {
      ShiftClears(x, s - 1);
      ShiftOnceClears(Shift(x, s - 1), s - 1);
    }
  }

  /** What a rotation by `s` leaves: the word shifted, and below it the bits that
      were shifted out. */
  function Carried(x: word, s: nat): nat {
    if s == 0 then 0 else 2 * Carried(x, s - 1) + TopBit(Shift(x, s - 1))
  }

  /** The carried bits never reach the top bit. */
  lemma TopBitStays(lo: word, c: nat, s: nat)
    requires s < 15 && Low(lo, s) == 0 && c < Pow2(s) && lo + Pow2(s) <= 0x1_0000
    ensures lo + c < 0x1_0000 && TopBit(lo + c) == TopBit(lo)
  {
    WordSize();
    if lo < 0x8000 {
      RoomBelow(lo, s, 15);
    }
  }

  lemma RotateOnceParts(lo: word, c: nat, p: nat)
    requires c < p && lo + p <= 0x1_0000 && ShiftOnce(lo) + 2 * p <= 0x1_0000
    requires TopBit(lo + c) == TopBit(lo)
    ensures RotateOnce(lo + c) == ShiftOnce(lo) + (2 * c + TopBit(lo))
  {
  }

  lemma {:induction false} RotateParts(x: word, s: nat)
    requires s < 16
    ensures Carried(x, s) < Pow2(s)
    ensures Rotate(x, s) == Shift(x, s) + Carried(x, s)
  {
    if s > 0 {
      var lo, c := Shift(x, s - 1), Carried(x, s - 1);
      RotateParts(x, s - 1);
      ShiftClears(x, s - 1);
      ShiftOnceClears(lo, s - 1);
      TopBitStays(lo, c, s - 1);
      RotateOnceParts(lo, c, Pow2(s - 1));
    }
  }

  lemma ShiftAndRotate(hi: word, lo: word, s: nat)
    requires s < 16
    ensures Shl16(hi, s) == Shift(hi, s) && Low(Shift(hi, s), s) == 0
    ensures Rol16(lo, s) == Shift(lo, s) + Carried(lo, s) && Low(Shift(lo, s), s) == 0
    ensures Carried(lo, s) < Pow2(s) <= 0x1_0000
  {
    ShiftClears(hi, s);
    ShiftClears(lo, s);
    RotateParts(lo, s);
    assert s % 32 == s;
  }

  lemma DoubleModulo(y: nat, h: word, c: nat, l: word, p: nat)
    requires h + p <= 0x1_0000 && c < p && ShiftOnce(h) + 2 * p <= 0x1_0000
    requires y % 0x1_0000_0000 == (h + c) * 0x1_0000 + l
    ensures 2 * y % 0x1_0000_0000 == (ShiftOnce(h) + (2 * c + TopBit(l))) * 0x1_0000 + ShiftOnce(l)
  {
    var top: int, bit: int := TopBit(h), TopBit(l);
    var r := (2 * h - top * 0x1_0000 + 2 * c + bit) * 0x1_0000 + 2 * l - bit * 0x1_0000;
    var q := y / 0x1_0000_0000;
    assert y == q * 0x1_0000_0000 + (h + c) * 0x1_0000 + l;
    Remainder32(2 * y, 2 * q + top, r);
  }

  lemma Remainder32(z: int, q: int, r: int)
    requires z == q * 0x1_0000_0000 + r && 0 <= r < 0x1_0000_0000
    ensures z % 0x1_0000_0000 == r
  {
  }

  /** `t` doubled `s` times. */
  function Doubled(t: nat, s: nat): nat { if s == 0 then t else 2 * Doubled(t, s - 1) }

  lemma {:induction false} DoubledIsProduct(t: nat, s: nat)
    ensures Doubled(t, s) == t * Pow2(s)
  {
    if s > 0 {
      DoubledIsProduct(t, s - 1);
      assert t * (2 * Pow2(s - 1)) == 2 * (t * Pow2(s - 1));
    }
  }

  /** A shift that loses no bit is a product. */
  lemma ShiftWithin(x: word, s: nat)
    requires s < 32 && Doubled(x, s) < 0x1_0000
    ensures Shl16(x, s) == Doubled(x, s)
  {
    ShiftWithinWord(x, s);
  }

  lemma {:induction false} ShiftWithinWord(x: word, s: nat)
    requires Doubled(x, s) < 0x1_0000
    ensures Shift(x, s) == Doubled(x, s)
  {
    if s > 0 {
      ShiftWithinWord(x, s - 1);
    }
  }

  /** Shifting a double word left: the low word's carried bits enter the high word. */
  lemma {:induction false} ShiftDouble(hi: word, lo: word, s: nat)
    requires s < 16
    ensures Shift(hi, s) + Carried(lo, s) < 0x1_0000
    ensures (Shift(hi, s) + Carried(lo, s)) * 0x1_0000 + Shift(lo, s)
            == Doubled(hi * 0x1_0000 + lo, s) % 0x1_0000_0000
  {
    ShiftClears(hi, s);
    RotateParts(lo, s);
    if s > 0 {
      ShiftDouble(hi, lo, s - 1);
      RotateParts(lo, s - 1);
      ShiftClears(hi, s - 1);
      DoubleModulo(Doubled(hi * 0x1_0000 + lo, s - 1),
                   Shift(hi, s - 1), Carried(lo, s - 1), Shift(lo, s - 1), Pow2(s - 1));
    }
  }
}
