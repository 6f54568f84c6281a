/**
 Arithmetic modulo the prime field order of Curve25519.  Nothing here needs P to be prime:
 inversion is stated as raising to the power P - 2, as in section 5 of RFC 7748.
 */
module Residues {
  import opened JsNumbers

  const P: int := 0x7fffffff_ffffffff_ffffffff_ffffffff_ffffffff_ffffffff_ffffffff_ffffffed

  function Pow(x: int, e: nat): int {
    if e == 0 then 1 else x * Pow(x, e - 1)
  }

  lemma Distribute(p: int, v: int, q: int)
    ensures p * (v + q) == p * v + p * q
  {
  }

  lemma ModShift(x: int, k: int, m: int)
    requires m >= 1
    ensures (x + k * m) % m == x % m
  {
    var q, r := x / m, x % m;
    assert x + k * m == m * (q + k) + r by {
      assert m * (q + k) == m * q + m * k;
    }
    EuclidUnique(x + k * m, m, q + k, r);
  }

  /** Congruent numbers differ by a multiple of the modulus. */
  lemma ModWitness(x: int, y: int, m: int) returns (k: int)
    requires m >= 1 && x % m == y % m
    ensures x == y + k * m
  {
    k := x / m - y / m;
    assert x == m * (x / m) + x % m && y == m * (y / m) + y % m;
    assert k * m == m * (x / m) - m * (y / m);
  }

  lemma ModAdd(x: int, x': int, y: int, y': int, m: int)
    requires m >= 1 && x % m == x' % m && y % m == y' % m
    ensures (x + y) % m == (x' + y') % m
    ensures (x - y) % m == (x' - y') % m
  {
    var i := ModWitness(x, x', m);
    var j := ModWitness(y, y', m);
    assert x + y == x' + y' + (i + j) * m && x - y == x' - y' + (i - j) * m;
    ModShift(x' + y', i + j, m);
    ModShift(x' - y', i - j, m);
  }

  lemma ModMul(x: int, x': int, y: int, y': int, m: int)
    requires m >= 1 && x % m == x' % m && y % m == y' % m
    ensures (x * y) % m == (x' * y') % m
  {
    var i := ModWitness(x, x', m);
    var j := ModWitness(y, y', m);
    MulExpand(x', i, y', j, m);
    ModShift(x' * y', i * y' + j * x' + i * j * m, m);
  }

  lemma MulExpand(x: int, i: int, y: int, j: int, m: int)
    ensures (x + i * m) * (y + j * m) == x * y + (i * y + j * x + i * j * m) * m
  {
    var p, q := i * m, j * m;
    assert (x + p) * (y + q) == x * y + x * q + p * y + p * q;
    assert p * y == (i * y) * m && x * q == (j * x) * m;
    assert p * q == (i * j * m) * m by { assert (i * m) * (j * m) == i * j * m * m; }
  }

  lemma ModMod(x: int, m: int)
    requires m >= 1
    ensures (x % m) % m == x % m
  {
    assert x == x % m + (x / m) * m;
    ModShift(x % m, x / m, m);
  }

  lemma {:induction false} PowAdd(x: int, d: nat, e: nat)
    ensures Pow(x, d + e) == Pow(x, d) * Pow(x, e)
    decreases d
  {
    if d > 0 {
      PowAdd(x, d - 1, e);
      assert Pow(x, d + e) == x * Pow(x, d - 1 + e);
      assert x * (Pow(x, d - 1) * Pow(x, e)) == x * Pow(x, d - 1) * Pow(x, e);
    }
  }

  lemma {:induction false} ModPow(x: int, y: int, e: nat, m: int)
    requires m >= 1 && x % m == y % m
    ensures Pow(x, e) % m == Pow(y, e) % m
    decreases e
  {
    if e > 0 {
      ModPow(x, y, e - 1, m);
      ModMul(x, y, Pow(x, e - 1), Pow(y, e - 1), m);
    }
  }

  /** Squaring forgets the sign of a difference. */
  lemma SquaredDifference(x: int, y: int, m: int)
    requires m >= 1
    ensures ((x - y) % m) * ((x - y) % m) % m == ((y - x) % m) * ((y - x) % m) % m
  {
    ModMod(x - y, m);
    ModMod(y - x, m);
    ModMul(x - y, (x - y) % m, x - y, (x - y) % m, m);
    ModMul(y - x, (y - x) % m, y - x, (y - x) % m, m);
    assert (x - y) * (x - y) == (y - x) * (y - x);
  }

  // The field operations on residues in [0, P).

  function FAdd(x: int, y: int): int { (x + y) % P }

  function FSub(x: int, y: int): int { (x - y) % P }

  function FMul(x: int, y: int): int { (x * y) % P }

  /** Reducing the operands first does not change a sum or a difference. */
  lemma SumOfResidues(x: int, y: int)
    ensures (x + y) % P == FAdd(x % P, y % P)
    ensures (x - y) % P == FSub(x % P, y % P)
  {
    ModMod(x, P);
    ModMod(y, P);
    ModAdd(x, x % P, y, y % P, P);
  }

  /** Reducing the operands first does not change a product. */
  lemma ProductOfResidues(x: int, y: int)
    ensures (x * y) % P == FMul(x % P, y % P)
  {
    ModMod(x, P);
    ModMod(y, P);
    ModMul(x, x % P, y, y % P, P);
  }
}
