/**
 The parts of JavaScript's number arithmetic that the Wireguard class relies on.

 A `Float64Array` element is modelled by the type `Exact`: an integer of absolute value
 below 2^53. Every store into such an array and every product or sum that is named in the
 methods has this type, so verification shows that no floating-point operation ever rounds.

 Bitwise operators first convert their operands with `ToInt32` and then act on the
 two's complement digits.
 */
module JsNumbers {

  type Exact = x: int | -0x20_0000_0000_0000 < x < 0x20_0000_0000_0000

  type Byte = x: int | 0 <= x < 256

  /** The conversion every bitwise operator applies first: reduction to a signed 32-bit integer. */
  function ToInt32(x: int): (r: int)
    ensures -0x8000_0000 <= r < 0x8000_0000
    ensures -0x8000_0000 <= x < 0x8000_0000 ==> r == x
    ensures (x - r) % 0x1_0000_0000 == 0
  {
    var m := x % 0x1_0000_0000;
    if m < 0x8000_0000 then m else m - 0x1_0000_0000
  }

  /** Distance from the two fixed points 0 and -1 of halving; the measure of digit recursion. */
  function Magnitude(x: int): nat {
    if x >= 0 then x else -x - 1
  }

  /** Bitwise "and" of two's complement integers. */
  function AndBits(x: int, y: int): int
    decreases Magnitude(x) + Magnitude(y)
  {
    if x == 0 || y == 0 then 0
    else if x == -1 then y
    else if y == -1 then x
    else 2 * AndBits(x / 2, y / 2) + (if x % 2 == 1 && y % 2 == 1 then 1 else 0)
  }

  /** Bitwise "xor" of two's complement integers. */
  function XorBits(x: int, y: int): int
    decreases Magnitude(x) + Magnitude(y)
  {
    if x == 0 then y
    else if y == 0 then x
    else if x == -1 then -y - 1
    else if y == -1 then -x - 1
    else 2 * XorBits(x / 2, y / 2) + (if x % 2 == y % 2 then 0 else 1)
  }

  /** Bitwise "or" of two's complement integers. */
  function OrBits(x: int, y: int): int
    decreases Magnitude(x) + Magnitude(y)
  {
    if x == 0 then y
    else if y == 0 then x
    else if x == -1 || y == -1 then -1
    else 2 * OrBits(x / 2, y / 2) + (if x % 2 == 1 || y % 2 == 1 then 1 else 0)
  }

  // The operators &, ^, |, ~, >>, << and >>> as the language applies them to numbers.

  function And(x: int, y: int): int { AndBits(ToInt32(x), ToInt32(y)) }

  function Xor(x: int, y: int): int { XorBits(ToInt32(x), ToInt32(y)) }

  function Or(x: int, y: int): int { OrBits(ToInt32(x), ToInt32(y)) }

  function Not(x: int): int { -ToInt32(x) - 1 }

  function Pow2(n: nat): (r: nat)
    ensures r >= 1
  {
    if n == 0 then 1 else 2 * Pow2(n - 1)
  }

  function Sar(x: int, n: nat): int
    requires n < 32
  {
    ToInt32(x) / Pow2(n)
  }

  function Shl(x: int, n: nat): int
    requires n < 32
  {
    ToInt32(ToInt32(x) * Pow2(n))
  }

  function Shr(x: int, n: nat): int
    requires n < 32
  {
    (x % 0x1_0000_0000) / Pow2(n)
  }

  // ---- laws of the digit operators ----

  /** Masking with 2^n - 1 keeps the remainder modulo 2^n, for negative numbers too. */
  lemma {:induction false} AndMask(x: int, n: nat)
    ensures AndBits(x, Pow2(n) - 1) == x % Pow2(n)
    decreases n
  {
    if n == 0 {
    } else {
      var m := Pow2(n - 1);
      if x == 0 {
      } else if x == -1 {
        LastResidue(2 * m);
      } else {
        AndMask(x / 2, n - 1);
        assert (2 * m - 1) / 2 == m - 1 && (2 * m - 1) % 2 == 1;
        assert AndBits(x, 2 * m - 1) == 2 * AndBits(x / 2, m - 1) + x % 2 by {
          if m == 1 { assert AndBits(x / 2, 0) == 0; }
        }
        DoubleMod(x, m);
      }
    }
  }

  lemma LastResidue(m: int)
    requires m >= 1
    ensures -1 % m == m - 1
  {
    EuclidUnique(-1, m, -1, m - 1);
  }

  lemma DoubleMod(x: int, m: int)
    requires m >= 1
    ensures x % (2 * m) == 2 * (x / 2 % m) + x % 2
  {
    var h := x / 2;
    assert x == 2 * h + x % 2;
    assert h == m * (h / m) + h % m;
    assert x == (2 * m) * (h / m) + (2 * (h % m) + x % 2);
    EuclidUnique(x, 2 * m, h / m, 2 * (h % m) + x % 2);
  }

  /** Quotient and remainder are determined by the division equation. */
  lemma EuclidUnique(x: int, m: int, q: int, r: int)
    requires m >= 1 && x == m * q + r && 0 <= r < m
    ensures x / m == q && x % m == r
  {
    var q', r' := x / m, x % m;
    assert m * (q - q') == r' - r by {
      assert x == m * q' + r';
      assert m * (q - q') == m * q - m * q';
    }
    SmallMultiple(m, q - q');
  }

  lemma SmallMultiple(m: int, k: int)
    requires m >= 1 && -m < m * k < m
    ensures k == 0
  {
    if k >= 1 {
      assert m * k == m + m * (k - 1);
      MulNonneg(m, k - 1);
    } else if k <= -1 {
      assert m * k == -m - m * (-k - 1);
      MulNonneg(m, -k - 1);
    }
  }

  lemma MulNonneg(x: int, y: int)
    requires x >= 0 && y >= 0
    ensures x * y >= 0
  {
  }

  /** Flipping the bits in which two numbers differ turns the first into the second. */
  lemma {:induction false} XorCancels(x: int, y: int)
    ensures XorBits(x, XorBits(x, y)) == y
    ensures XorBits(y, XorBits(x, y)) == x
    decreases Magnitude(x) + Magnitude(y)
  {
    if x == 0 || x == -1 || y == 0 || y == -1 {
      XorSelf(x);
      XorSelf(y);
      XorComplement(x);
      XorComplement(y);
    } else {
      XorCancels(x / 2, y / 2);
      var z := XorBits(x, y);
      XorDigits(x, y);
      XorDigits(x, z);
      XorDigits(y, z);
    }
  }

  lemma {:induction false} XorSelf(x: int)
    ensures XorBits(x, x) == 0
    decreases Magnitude(x)
  {
    if x != 0 && x != -1 {
      XorSelf(x / 2);
    }
  }

  lemma {:induction false} XorComplement(x: int)
    ensures XorBits(x, -x - 1) == -1
    decreases Magnitude(x)
  {
    if x != 0 && x != -1 {
      XorComplement(x / 2);
      assert (-x - 1) / 2 == -(x / 2) - 1;
    }
  }

  /** Xor acts digit by digit, also where the definition stops early. */
  lemma XorDigits(x: int, y: int)
    ensures XorBits(x, y) / 2 == XorBits(x / 2, y / 2)
    ensures XorBits(x, y) % 2 == (if x % 2 == y % 2 then 0 else 1)
  {
    if x == -1 {
      assert (-y - 1) / 2 == -(y / 2) - 1;
    } else if y == -1 {
      assert (-x - 1) / 2 == -(x / 2) - 1;
    }
  }

  /** Xor never leaves the range of its operands. */
  lemma {:induction false} XorRange(x: int, y: int, n: nat)
    requires 0 <= x + Pow2(n) < 2 * Pow2(n) && 0 <= y + Pow2(n) < 2 * Pow2(n)
    ensures 0 <= XorBits(x, y) + Pow2(n) < 2 * Pow2(n)
    decreases n
  {
    if n > 0 && x != 0 && x != -1 && y != 0 && y != -1 {
      XorRange(x / 2, y / 2, n - 1);
    }
  }

  /** A mask whose n lowest bits are clear acts on the bits above them. */
  lemma {:induction false} AndShifted(x: nat, m: nat, n: nat)
    ensures AndBits(x, m * Pow2(n)) == AndBits(x / Pow2(n), m) * Pow2(n)
    decreases n
  {
    if n > 0 {
      var p := Pow2(n - 1);
      AndShifted(x / 2, m, n - 1);
      DoubleProduct(m, p);
      MulNonneg(m, p);
      AndEven(x, m * p);
      DoubleDiv(x, p);
      DoubleProduct(AndBits(x / 2 / p, m), p);
    }
  }

  /** "Or" with a number whose n lowest bits are clear leaves the n lowest bits alone. */
  lemma {:induction false} OrShifted(x: nat, m: nat, n: nat)
    ensures OrBits(x, m * Pow2(n)) == OrBits(x / Pow2(n), m) * Pow2(n) + x % Pow2(n)
    decreases n
  {
    if n > 0 {
      var p := Pow2(n - 1);
      OrShifted(x / 2, m, n - 1);
      DoubleProduct(m, p);
      MulNonneg(m, p);
      OrEven(x, m * p);
      DoubleDiv(x, p);
      DoubleMod(x, p);
      DoubleProduct(OrBits(x / 2 / p, m), p);
    }
  }

  /** Numbers without a common binary digit: "or" is addition. */
  lemma OrDisjoint(hi: nat, lo: nat, n: nat)
    requires lo < Pow2(n)
    ensures OrBits(hi * Pow2(n), lo) == hi * Pow2(n) + lo
  {
    hide OrBits;
    MulNonneg(hi, Pow2(n));
    OrCommutes(hi * Pow2(n), lo);
    OrShifted(lo, hi, n);
    EuclidUnique(lo, Pow2(n), 0, lo);
    OrZero(hi);
  }

  lemma OrZero(x: int)
    ensures OrBits(0, x) == x
  {
  }

  lemma DoubleProduct(x: int, p: int)
    ensures x * (2 * p) == 2 * (x * p)
  {
  }

  lemma DoubleDiv(x: int, m: int)
    requires m >= 1
    ensures x / (2 * m) == x / 2 / m
  {
    var h := x / 2;
    DoubleMod(x, m);
    assert h == m * (h / m) + h % m;
    DoubleProduct(h / m, m);
    EuclidUnique(x, 2 * m, h / m, 2 * (h % m) + x % 2);
  }

  lemma AndEven(x: nat, z: nat)
    ensures AndBits(x, 2 * z) == 2 * AndBits(x / 2, z)
  {
  }

  lemma OrEven(x: nat, z: nat)
    ensures OrBits(x, 2 * z) == 2 * OrBits(x / 2, z) + x % 2
  {
  }

  lemma {:induction false} OrCommutes(x: nat, y: nat)
    ensures OrBits(x, y) == OrBits(y, x)
    decreases x + y
  {
    if x > 0 && y > 0 {
      OrCommutes(x / 2, y / 2);
    }
  }

  lemma Pow2Values()
    ensures Pow2(0) == 1 && Pow2(1) == 2 && Pow2(2) == 4 && Pow2(3) == 8 && Pow2(4) == 16
    ensures Pow2(5) == 32 && Pow2(6) == 64 && Pow2(7) == 128 && Pow2(8) == 0x100
    ensures Pow2(16) == 0x1_0000 && Pow2(31) == 0x8000_0000
  {
    assert Pow2(8) == 0x100;
    Pow2Add(8, 8);
    Pow2Add(16, 15);
    Pow2Add(8, 7);
  }

  lemma {:induction false} Pow2Add(m: nat, n: nat)
    ensures Pow2(m + n) == Pow2(m) * Pow2(n)
    decreases m
  {
    if m > 0 {
      Pow2Add(m - 1, n);
      assert Pow2(m + n) == 2 * Pow2(m - 1 + n);
    }
  }
}
