/**
 The field operations of the Wireguard class, in place on arrays of sixteen limbs, with
 the aliasing the source uses: any of the arrays passed to one call may be the same.
 Each method is proved against the value of the limbs modulo P.
 */
module FieldOps {
  import opened JsNumbers
  import opened Residues
  import opened Limbs

  type Gf = array<Exact>

  /** The field element sixteen limbs stand for. */
  ghost function Elem(a: array<Exact>): int
    reads a
  {
    Val(a[..]) % P
  }

  ghost predicate IsReduced(a: Gf)
    reads a
  {
    Reduced(a[..])
  }

  ghost predicate IsInt32(a: Gf)
    reads a
  {
    FitsInt32(a[..])
  }

  /** A sum or difference of two reduced numbers, as `multmod` accepts it. */
  ghost predicate IsOperand(a: Gf)
    reads a
  {
    Within(a[..], OPERAND)
  }

  // ---- bit operations on limbs ----

  lemma MaskLow16(x: int)
    ensures And(x, 0xffff) == x % 65536
  {
    assert ToInt32(0xffff) == 0xffff;
    Pow2Values();
    AndMask(ToInt32(x), 16);
    ToInt32Low16(x);
  }

  lemma ToInt32Low16(x: int)
    ensures ToInt32(x) % 65536 == x % 65536
  {
    var d := (x - ToInt32(x)) / 0x1_0000_0000;
    assert x == ToInt32(x) + (65536 * d) * 65536;
    ModShift(ToInt32(x), 65536 * d, 65536);
  }

  /** The limbs after i iterations of `carry`. */
  function CarriedSoFar(s: seq<int>, i: nat): (r: seq<int>)
    requires |s| == 16 && i <= 16
    ensures |r| == 16
  {
    seq(16, k requires 0 <= k < 16 =>
      if k < i then CarriedLimb(s, k) + (if k == 0 && i == 16 then 38 * CarryOut(s, 15) else 0)
      else s[k] + (if k == i && 0 < i then CarryOut(s, i - 1) else 0))
  }

  /** One iteration: limb i keeps its low half, its carry goes to limb j. */
  lemma CarryStep(s: seq<int>, i: nat, j: nat)
    requires Within(s, 0x10_0000_0000_0000) && i < 16 && j == (if i < 15 then i + 1 else 0)
    ensures var r := CarriedSoFar(s, i);
      && r[i] / 65536 == CarryOut(s, i) && -0x20_0000_0000 <= CarryOut(s, i) <= 0x20_0000_0000
      && 0 <= And(r[i], 0xffff) < 65536 && -0x11_0000_0000_0000 <= r[j] <= 0x11_0000_0000_0000
      && CarriedSoFar(s, i + 1)
         == r[j := r[j] + (if i < 15 then 1 else 38) * CarryOut(s, i)][i := And(r[i], 0xffff)]
  {
    CarryOutWithin(s, 0x10_0000_0000_0000, i);
    MaskLow16(CarriedSoFar(s, i)[i]);
  }

  /** The loop starts with the limbs as they are and ends with the carried ones. */
  lemma CarryEnds(s: seq<int>)
    requires Within(s, 0x10_0000_0000_0000)
    ensures CarriedSoFar(s, 0) == s && CarriedSoFar(s, 16) == Carried(s)
  {
  }

  method Carry(o: Gf)
    requires Within(o[..], 0x10_0000_0000_0000)
    modifies o
    ensures o[..] == Carried(old(o[..]))
  {
    hide CarriedSoFar, Carried, CarryOut, And;
    ghost var s: seq<int> := o[..];
    CarryEnds(s);
    var i := 0;
    while i < 16
      invariant 0 <= i <= 16
      invariant o[..] == CarriedSoFar(s, i)
    {
      var j := (i + 1) % 16;
      assert j == if i < 15 then i + 1 else 0;
      ghost var r := CarriedSoFar(s, i);
      assert o[i] == r[i] && o[j] == r[j];
      CarryStep(s, i, j);
      var c: Exact := (if i < 15 then 1 else 38) * (o[i] / 65536);
      o[j] := o[j] + c;
      assert o[i] == r[i];
      o[i] := And(o[i], 0xffff);
      assert o[..] == r[j := r[j] + c][i := And(r[i], 0xffff)];
      i := i + 1;
    }
  }

  predicate FitsInt32(s: seq<int>) {
    forall k :: 0 <= k < |s| ==> -0x8000_0000 <= s[k] < 0x8000_0000
  }

  /** One limb pair of the branch-free swap. */
  lemma SwapStep(x: int, y: int, b: int)
    requires -0x8000_0000 <= x < 0x8000_0000 && -0x8000_0000 <= y < 0x8000_0000 && (b == 0 || b == 1)
    ensures var t := And(Not(b - 1), Xor(x, y));
      && Xor(x, t) == (if b == 1 then y else x)
      && Xor(y, t) == (if b == 1 then x else y)
  {
    Pow2Values();
    XorRange(x, y, 31);
    XorCancels(x, y);
  }

  /** The body of the swap loop on one pair of limbs. */
  method SwapLimb(x: Exact, y: Exact, c: int, ghost b: int) returns (u: Exact, v: Exact)
    requires -0x8000_0000 <= x < 0x8000_0000 && -0x8000_0000 <= y < 0x8000_0000
    requires (b == 0 || b == 1) && c == Not(b - 1)
    ensures u == (if b == 1 then y else x) && v == (if b == 1 then x else y)
  {
    SwapStep(x, y, b);
    var t := And(c, Xor(x, y));
    u, v := Xor(x, t), Xor(y, t);
  }

  method CSwap(p: Gf, q: Gf, b: int)
    requires p.Length == q.Length == 16 && (b == 0 || b == 1)
    requires IsInt32(p) && IsInt32(q)
    modifies p, q
    ensures p[..] == if b == 1 then old(q[..]) else old(p[..])
    ensures q[..] == if b == 1 then old(p[..]) else old(q[..])
  {
    var c := Not(b - 1);
    var i := 0;
    while i < 16
      invariant 0 <= i <= 16
      invariant forall k :: 0 <= k < i ==> p[k] == old(if b == 1 then q[k] else p[k])
      invariant forall k :: 0 <= k < i ==> q[k] == old(if b == 1 then p[k] else q[k])
      invariant forall k :: i <= k < 16 ==> p[k] == old(p[k]) && q[k] == old(q[k])
    {
      assert p[i] == old(p[..])[i] && q[i] == old(q[..])[i];
      var u, v := SwapLimb(p[i], q[i], c, b);
      p[i] := u;
      q[i] := v;
      i := i + 1;
    }
  }

  method Add(o: Gf, a: Gf, b: Gf)
    requires o.Length == 16 && a.Length == 16 && b.Length == 16 && IsInt32(a) && IsInt32(b)
    modifies o
    ensures forall k :: 0 <= k < 16 ==> o[k] == ToInt32(old(a[k]) + old(b[k]))
    ensures old(IsReduced(a) && IsReduced(b)) ==>
      IsOperand(o) && Elem(o) == FAdd(old(Elem(a)), old(Elem(b)))
  {
    ghost var sa: seq<int>, sb: seq<int> := a[..], b[..];
    var i := 0;
    while i < 16
      invariant 0 <= i <= 16
      invariant forall k :: 0 <= k < i ==> o[k] == ToInt32(old(a[k]) + old(b[k]))
      invariant forall k :: i <= k < 16 ==> a[k] == old(a[k]) && b[k] == old(b[k])
    {
      o[i] := Or(a[i] + b[i], 0);
      i := i + 1;
    }
    if Reduced(sa) && Reduced(sb) {
      SumOfReduced(o[..], sa, sb);
      SumOfResidues(Val(sa), Val(sb));
    }
  }

  method Subtract(o: Gf, a: Gf, b: Gf)
    requires o.Length == 16 && a.Length == 16 && b.Length == 16 && IsInt32(a) && IsInt32(b)
    modifies o
    ensures forall k :: 0 <= k < 16 ==> o[k] == ToInt32(old(a[k]) - old(b[k]))
    ensures old(IsReduced(a) && IsReduced(b)) ==>
      IsOperand(o) && Elem(o) == FSub(old(Elem(a)), old(Elem(b)))
  {
    ghost var sa: seq<int>, sb: seq<int> := a[..], b[..];
    var i := 0;
    while i < 16
      invariant 0 <= i <= 16
      invariant forall k :: 0 <= k < i ==> o[k] == ToInt32(old(a[k]) - old(b[k]))
      invariant forall k :: i <= k < 16 ==> a[k] == old(a[k]) && b[k] == old(b[k])
    {
      o[i] := Or(a[i] - b[i], 0);
      i := i + 1;
    }
    if Reduced(sa) && Reduced(sb) {
      DifferenceOfReduced(o[..], sa, sb);
      SumOfResidues(Val(sa), Val(sb));
    }
  }

  /** Sums and differences of reduced numbers neither wrap nor leave the operand range. */
  lemma SumOfReduced(r: seq<int>, a: seq<int>, b: seq<int>)
    requires Reduced(a) && Reduced(b) && |r| == 16
    requires forall k :: 0 <= k < 16 ==> r[k] == ToInt32(a[k] + b[k])
    ensures Within(r, OPERAND) && Val(r) == Val(a) + Val(b)
  {
    ValLinear(r, a, b, 1);
  }

  lemma DifferenceOfReduced(r: seq<int>, a: seq<int>, b: seq<int>)
    requires Reduced(a) && Reduced(b) && |r| == 16
    requires forall k :: 0 <= k < 16 ==> r[k] == ToInt32(a[k] - b[k])
    ensures Within(r, OPERAND) && Val(r) == Val(a) - Val(b)
  {
    ValLinear(r, a, b, -1);
  }

  // ---- multiplication ----

  /** Bound on one product of operand limbs. */
  const SQUARE: int := OPERAND * OPERAND

  /** Adding one product a[i] * b[j] into position i + j of the accumulator. */
  lemma AccumulateStep(t: seq<int>, a: seq<int>, b: seq<int>, i: nat, j: nat)
    requires i < |a| && j < |b| && i + j < |t|
    requires Val(t) == Val(a[..i]) * Val(b) + a[i] * Weight(i) * Val(b[..j])
    ensures Val(t[i + j := t[i + j] + a[i] * b[j]]) == Val(a[..i]) * Val(b) + a[i] * Weight(i) * Val(b[..j + 1])
  {
    var x, y, wi, wj := a[i], b[j], Weight(i), Weight(j);
    ValUpdate(t, i + j, t[i + j] + x * y);
    WeightAdd(i, j);
    ValPrefix(b, j);
    ProductOfWeighted(x, wi, y, wj, Val(b[..j]));
  }

  lemma ProductOfWeighted(x: int, wi: int, y: int, wj: int, v: int)
    ensures x * wi * (v + y * wj) == x * wi * v + x * y * (wi * wj)
  {
    Distribute(x * wi, v, y * wj);
    Interchange(x, wi, y, wj);
  }

  lemma Interchange(x: int, u: int, y: int, w: int)
    ensures x * u * (y * w) == x * y * (u * w)
  {
    assert x * u * (y * w) == x * (u * (y * w));
    assert u * (y * w) == y * (u * w);
  }

  /** One finished row of the schoolbook product. */
  lemma AccumulateRow(v: int, a: seq<int>, b: seq<int>, i: nat)
    requires i < |a| && v == Val(a[..i]) * Val(b) + a[i] * Weight(i) * Val(b)
    ensures v == Val(a[..i + 1]) * Val(b)
  {
    ValPrefix(a, i);
    Distribute(Val(b), Val(a[..i]), a[i] * Weight(i));
  }

  lemma ProductBound(x: int, y: int)
    requires -OPERAND <= x <= OPERAND && -OPERAND <= y <= OPERAND
    ensures -SQUARE <= x * y <= SQUARE
  {
    var u, v := if x < 0 then -x else x, if y < 0 then -y else y;
    MulBound(u, v, OPERAND);
    assert x * y == u * v || x * y == -(u * v);
  }

  lemma MulBound(x: int, y: int, m: int)
    requires 0 <= x <= m && 0 <= y <= m
    ensures 0 <= x * y <= m * m
  {
    MulNonneg(x, y);
    MulNonneg(m, m - y);
    MulNonneg(y, m - x);
    assert m * (m - y) == m * m - m * y;
    assert y * (m - x) == y * m - y * x;
  }

  /** One row of the schoolbook product: adds a[i] times every limb of b. */
  method AddRow(t: array<Exact>, a: Gf, b: Gf, i: int)
    requires t.Length == 31 && 0 <= i < 16 && t != a && t != b
    requires Within(a[..], OPERAND) && Within(b[..], OPERAND)
    requires Val(t[..]) == Val(a[..i]) * Val(b[..])
    requires forall k :: 0 <= k < 31 ==> -i * SQUARE <= t[k] <= i * SQUARE
    modifies t
    ensures Val(t[..]) == Val(a[..i + 1]) * Val(b[..])
    ensures forall k :: 0 <= k < 31 ==> -(i + 1) * SQUARE <= t[k] <= (i + 1) * SQUARE
  {
    hide Val, Weight;
    ghost var sa: seq<int>, sb: seq<int> := a[..], b[..];
    ValZero(sb[..0]);
    var j := 0;
    while j < 16
      invariant 0 <= j <= 16
      invariant Val(t[..]) == Val(sa[..i]) * Val(sb) + sa[i] * Weight(i) * Val(sb[..j])
      invariant forall k :: 0 <= k < i + j ==> -(i + 1) * SQUARE <= t[k] <= (i + 1) * SQUARE
      invariant forall k :: i + j <= k < 31 ==> -i * SQUARE <= t[k] <= i * SQUARE
    {
      AccumulateStep(t[..], sa, sb, i, j);
      ProductBound(sa[i], sb[j]);
      ghost var s := t[..];
      var product: Exact := a[i] * b[j];
      t[i + j] := t[i + j] + product;
      assert t[..] == s[i + j := s[i + j] + sa[i] * sb[j]];
      j := j + 1;
    }
    assert sb[..16] == sb && a[..i + 1] == sa[..i + 1];
    AccumulateRow(Val(t[..]), sa, sb, i);
  }

  method Products(a: Gf, b: Gf) returns (t: Gf)
    requires Within(a[..], OPERAND) && Within(b[..], OPERAND)
    ensures fresh(t) && t.Length == 31
    ensures Val(t[..]) == Val(a[..]) * Val(b[..])
    ensures forall k :: 0 <= k < 31 ==> -16 * SQUARE <= t[k] <= 16 * SQUARE
  {
    hide Val, Weight;
    t := new Exact[31](_ => 0);
    ghost var sa: seq<int> := a[..];
    ValZero(t[..]);
    ValZero(sa[..0]);
    var i := 0;
    while i < 16
      invariant 0 <= i <= 16
      invariant Val(t[..]) == Val(sa[..i]) * Val(b[..])
      invariant forall k :: 0 <= k < 31 ==> -i * SQUARE <= t[k] <= i * SQUARE
    {
      assert a[..i] == sa[..i] && a[..i + 1] == sa[..i + 1];
      AddRow(t, a, b, i);
      i := i + 1;
    }
    assert sa[..16] == sa;
  }

  /** Folding the upper fifteen positions back 38-fold keeps the residue. */
  lemma FoldValue(t: seq<int>, r: seq<int>)
    requires |t| == 31 && |r| == 16
    requires forall k :: 0 <= k < 15 ==> r[k] == t[k] + 38 * t[k + 16]
    requires r[15] == t[15]
    ensures Val(r) % P == Val(t) % P
  {
    var lo, up := t[..16], t[16..];
    assert t == lo + up;
    ValAppend(lo, up);
    FoldLimbs(lo, up, r);
    Weight16();
    FoldResidue(Val(lo), Val(up), Val(t), Val(r), Weight(|lo|), P);
  }

  lemma FoldLimbs(lo: seq<int>, up: seq<int>, r: seq<int>)
    requires |lo| == |r| == |up| + 1
    requires forall k :: 0 <= k < |up| ==> r[k] == lo[k] + 38 * up[k]
    requires r[|up|] == lo[|up|]
    ensures Val(r) == Val(lo) + 38 * Val(up)
  {
    ValPadded(up);
    ValLinear(r, lo, up + [0], 38);
  }

  lemma ValPadded(s: seq<int>)
    ensures Val(s + [0]) == Val(s)
  {
    ValAppend(s, [0]);
    assert Val([0]) == 0;
  }

  lemma FoldResidue(lo: int, hi: int, t: int, r: int, w: int, p: int)
    requires t == lo + w * hi && r == lo + 38 * hi && w == 2 * p + 38 && p >= 1
    ensures r % p == t % p
  {
    assert (2 * p + 38) * hi == (2 * hi) * p + 38 * hi;
    assert t == r + (2 * hi) * p;
    ModShift(r, 2 * hi, p);
  }

  method FoldUpper(t: Gf)
    requires t.Length == 31
    requires forall k :: 0 <= k < 31 ==> -16 * SQUARE <= t[k] <= 16 * SQUARE
    modifies t
    ensures Within(t[..16], 0x1000_0000_0000)
    ensures Val(t[..16]) % P == old(Val(t[..])) % P
  {
    ghost var s := t[..];
    var i := 0;
    while i < 15
      invariant 0 <= i <= 15
      invariant forall k :: 0 <= k < i ==> t[k] == s[k] + 38 * s[k + 16]
      invariant forall k :: i <= k < 31 ==> t[k] == s[k]
    {
      var folded: Exact := 38 * t[i + 16];
      t[i] := t[i] + folded;
      i := i + 1;
    }
    forall k | 0 <= k < 16
      ensures -0x1000_0000_0000 <= t[k] <= 0x1000_0000_0000
    {
      assert t[k] == if k < 15 then s[k] + 38 * s[k + 16] else s[k];
    }
    FoldValue(s, t[..16]);
  }

  /** The copying loops of `multmod`, `invert` and `pack`. */
  method CopyLimbs(o: Gf, t: Gf)
    requires o.Length == 16 && t.Length >= 16 && o != t
    modifies o
    ensures o[..] == t[..16]
  {
    var i := 0;
    while i < 16
      invariant 0 <= i <= 16
      invariant forall k :: 0 <= k < i ==> o[k] == t[k]
    {
      o[i] := t[i];
      i := i + 1;
    }
  }

  /** The two carry passes that end a multiplication. */
  lemma TwoCarries(s: seq<int>)
    requires Within(s, 0x1000_0000_0000)
    ensures Within(Carried(s), 0x10_0000_0000_0000)
    ensures Reduced(Carried(Carried(s)))
    ensures Val(Carried(Carried(s))) % P == Val(s) % P
  {
    FirstCarry(s);
    CarriedValue(s);
    SecondCarry(Carried(s));
    CarriedValue(Carried(s));
  }

  /** Multiplication; `o` may be `a`, `b` or both. */
  method MultMod(o: Gf, a: Gf, b: Gf)
    requires o.Length == 16 && IsOperand(a) && IsOperand(b)
    modifies o
    ensures IsReduced(o) && IsOperand(o) && IsInt32(o)
    ensures Elem(o) == FMul(old(Elem(a)), old(Elem(b)))
  {
    ProductOfResidues(Val(a[..]), Val(b[..]));
    var t := Products(a, b);
    FoldUpper(t);
    CopyLimbs(o, t);
    TwoCarries(o[..]);
    Carry(o);
    Carry(o);
  }
}
