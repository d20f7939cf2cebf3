/** boot/div_32.s: a 32-bit by 16-bit division made of three 16-bit divides, and
    exactly which divisors it is right for. */
module Div32 {
  import opened Words
  import opened Cpu

  /** What the routine leaves in UPPER, LOWER and %dx. */
  datatype Quotient = Quotient(upper: word, lower: word, rem: word)

  /** The signed compare and the correction that follows it. `ax` is the third
      quotient, `dx` the sum of the remainders. */
  function Correct(ax: word, dx: word, cx: word): (word, word) {
    if SignedWord(dx) < SignedWord(cx) then (ax, dx)
    else (Add16(ax, 1, false).0, Sub16(dx, cx, false).0)
  }

  /** The carry of the last addition goes to UPPER. */
  function Combine(upper: word, low: word, more: word, rem: word): Quotient {
    var (lower, carry) := Add16(low, more, false);
    Quotient(if carry then Add16(upper, 1, false).0 else upper, lower, rem)
  }

  function Divide(dx: word, ax: word, cx: word): Quotient
    requires cx > 0
  {
    var (low, bx) := Div16(0, ax, cx);
    var (upper, high) := Div16(0, dx, cx);
    var (rest, sum) := Div16(high, 0, cx);
    var (more, rem) := Correct(rest, Add16(bx, sum, false).0, cx);
    Combine(upper, low, more, rem)
  }

  function Value(q: Quotient): nat { q.upper * 0x1_0000 + q.lower }

  /** The quotient and the remainder are the true ones. */
  ghost predicate Exact(dx: word, ax: word, cx: word)
    requires cx > 0
  {
    var q, dividend := Divide(dx, ax, cx), dx * 0x1_0000 + ax;
    Value(q) == dividend / cx && q.rem == dividend % cx
  }

  /** The three partial divisions add up. */
  lemma PartsAddUp(dx: word, ax: word, cx: word, low: nat, bx: nat, upper: nat, high: nat, rest: nat, sum: nat)
    requires ax == low * cx + bx && dx == upper * cx + high && high * 0x1_0000 == rest * cx + sum
    ensures dx * 0x1_0000 + ax == (upper * 0x1_0000 + rest + low) * cx + (sum + bx)
  {
    calc {
      dx * 0x1_0000 + ax;
      (upper * cx) * 0x1_0000 + high * 0x1_0000 + low * cx + bx;
      (upper * 0x1_0000) * cx + rest * cx + sum + low * cx + bx;
      (upper * 0x1_0000 + rest + low) * cx + (sum + bx);
    }
  }

  /** A true quotient is below 2^32, so adding up its parts wraps nowhere. */
  lemma CombineIsSum(upper: word, low: word, more: word, rem: word)
    requires upper * 0x1_0000 + low + more < 0x1_0000_0000
    ensures Value(Combine(upper, low, more, rem)) == upper * 0x1_0000 + low + more
  {
  }

  lemma QuotientBelow(q: nat, rem: nat, d: nat, dividend: nat)
    requires d >= 1 && dividend == q * d + rem
    ensures q <= dividend
  {
    AtLeast(d, 1, q);
  }

  lemma ExactForSmallDivisors(dx: word, ax: word, cx: word)
    requires 1 <= cx <= 16384
    ensures Exact(dx, ax, cx)
  {
    var dividend := dx * 0x1_0000 + ax;
    var (low, bx) := Div16(0, ax, cx);
    var (upper, high) := Div16(0, dx, cx);
    var (rest, sum) := Div16(high, 0, cx);
    PartsAddUp(dx, ax, cx, low, bx, upper, high, rest, sum);
    var q := upper * 0x1_0000 + rest + low;
    var (more, rem) := Correct(rest, sum + bx, cx);
    if sum + bx < cx {
      DivModUnique(dividend, cx, q, sum + bx);
      QuotientBelow(q, sum + bx, cx, dividend);
      CombineIsSum(upper, low, more, rem);
    } else {
      assert dividend == (q + 1) * cx + (sum + bx - cx);
      DivModUnique(dividend, cx, q + 1, sum + bx - cx);
      QuotientBelow(q + 1, sum + bx - cx, cx, dividend);
      RestBelow(high, rest, sum, cx);
      CombineIsSum(upper, low, more, rem);
    }
  }

  /** Incrementing the third quotient does not wrap. */
  lemma RestBelow(high: nat, rest: word, sum: nat, cx: word)
    requires high < cx <= 16384 && high * 0x1_0000 == rest * cx + sum
    ensures rest < 0xFFFF
  {
  }

  // ------------------------------------------------------- divisors above 16384

  /** Bezout: a common divisor of `a` and `b` that is a sum of multiples of them. */
  lemma {:induction false} Bezout(a: nat, b: nat) returns (g: nat, x: int, y: int, p: nat, q: nat)
    requires a > 0 || b > 0
    ensures g > 0 && g == x * a + y * b && a == p * g && b == q * g
    decreases b
  {
    if b == 0 {
      g, x, y, p, q := a, 1, 0, 1, 0;
    } else {
      var x', y', p', q';
      g, x', y', p', q' := Bezout(b, a % b);
      var k := a / b;
      x, y, p, q := y', x' - k * y', k * p' + q', p';
      calc {
        x * a + y * b;
        y' * a + (x' - k * y') * b;
        { assert a == k * b + a % b; }
        y' * (k * b + a % b) + x' * b - k * y' * b;
        y' * (k * b) + y' * (a % b) + x' * b - k * y' * b;
        { assert y' * (k * b) == k * y' * b; }
        g;
      }
      assert k * (p' * g) + q' * g == (k * p' + q') * g;
    }
  }

  /** An odd factor leaves the factor 2 of an even product to the other one. */
  lemma OddFactor(p: nat, g: nat, r: nat) returns (e: nat)
    requires p % 2 == 1 && p * g == 2 * r
    ensures g == 2 * e && p * e == r
  {
    var half := p / 2;
    calc {
      2 * r;
      (2 * half + 1) * g;
      2 * (half * g) + g;
    }
    e := g / 2;
    calc {
      2 * r;
      p * (2 * e);
      2 * (p * e);
    }
  }

  lemma ProductIsOne(p: nat, g: nat)
    requires p * g == 1
    ensures p == 1
  {
    if g >= 2 {
      AtLeast(g, 2, p);
    }
  }

  /** An odd divisor of a power of two is 1. */
  lemma {:induction false} OddDivisorOfPower(p: nat, g: nat, n: nat)
    requires p % 2 == 1 && p * g == Pow2(n)
    ensures p == 1
  {
    if n == 0 {
      ProductIsOne(p, g);
    } else {
      var e := OddFactor(p, g, Pow2(n - 1));
      OddDivisorOfPower(p, e, n - 1);
    }
  }

  lemma HalveDivisor(p: nat, g: nat, n: nat) returns (h: nat)
    requires n > 0 && p * g == Pow2(n) && p != 1
    ensures h * g == Pow2(n - 1)
  {
    h := p / 2;
    if p % 2 == 1 {
      OddDivisorOfPower(p, g, n);
    } else {
      assert p == 2 * h;
      assert p * g == 2 * (h * g);
    }
  }

  /** A divisor of 2^16 below 2^15 divides 2^14. */
  lemma DividesSixteenK(p: nat, g: nat) returns (k: nat)
    requires p * g == 0x1_0000 && g < 0x8000
    ensures k * g == 16384
  {
    Pow2Values(14);
    Pow2Values(15);
    Pow2Values(16);
    var h := HalveDivisor(p, g, 16);
    k := HalveDivisor(h, g, 15);
  }

  /** Some high word leaves a remainder close below the divisor. */
  lemma LargeRemainder(cx: word) returns (dx: word)
    requires 16384 < cx < 0x8000
    ensures dx < cx && dx * 0x1_0000 % cx + (cx - 1) >= 0x8000
  {
    var g, x, y, p, q := Bezout(0x1_0000, cx);
    AtLeastOnce(q, g);
    var k := DividesSixteenK(p, g);
    var excess := cx - 16384;
    assert excess == (q - k) * g;
    if q - k <= 0 {
      AtLeast(k, q, g);
    }
    AtLeastOnce(q - k, g);
    dx := -x % cx;
    var w := -x / cx;
    calc {
      dx * 0x1_0000;
      (-x - w * cx) * 0x1_0000;
      { assert x * 0x1_0000 == g - y * cx; }
      y * cx - g - w * cx * 0x1_0000;
      (y - w * 0x1_0000 - 1) * cx + (cx - g);
    }
    DivModUnique(dx * 0x1_0000, cx, y - w * 0x1_0000 - 1, cx - g);
  }

  /** The sum of the remainders passes 2^15: the compare takes it for negative. */
  lemma SumLooksNegative(dx: word, cx: word)
    requires dx < cx && 16384 < cx < 0x8000
    requires dx * 0x1_0000 % cx + (cx - 1) >= 0x8000
    ensures Divide(dx, cx - 1, cx).rem >= cx
  {
    var (low, bx) := Div16(0, cx - 1, cx);
    QuotientUnique(cx, low, bx, 0, cx - 1);
    var (upper, high) := Div16(0, dx, cx);
    QuotientUnique(cx, upper, high, 0, dx);
    var (rest, sum) := Div16(high, 0, cx);
    assert sum == dx * 0x1_0000 % cx;
    assert Correct(rest, sum + bx, cx).1 == sum + bx;
  }

  lemma InexactForLargeDivisors(cx: word) returns (dx: word, ax: word)
    requires cx > 16384
    ensures !Exact(dx, ax, cx)
  {
    if cx >= 0x8000 {
      dx, ax := 0, 0;
      assert Divide(0, 0, cx).rem != 0;
    } else {
      dx := LargeRemainder(cx);
      ax := cx - 1;
      SumLooksNegative(dx, cx);
    }
  }

  /** The routine divides every 32-bit number correctly by `cx` exactly when `cx`
      is at most 16384. */
  lemma ExactForEveryDividendIff(cx: word)
    requires cx > 0
    ensures (forall dx: word, ax: word :: Exact(dx, ax, cx)) <==> cx <= 16384
  {
    if cx <= 16384 {
      forall dx: word, ax: word ensures Exact(dx, ax, cx) {
        ExactForSmallDivisors(dx, ax, cx);
      }
    } else {
      var dx, ax := InexactForLargeDivisors(cx);
    }
  }

  /** By 128, as the loader divides: the shift and the mask of the kernel. */
  lemma DivideBy128(dx: word, ax: word)
    ensures var q, cluster := Divide(dx, ax, 128), dx * 0x1_0000 + ax;
            Value(q) == cluster / 128 && q.rem == cluster % 128
  {
    ExactForSmallDivisors(dx, ax, 128);
  }
}
