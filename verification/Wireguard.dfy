/**
 The rest of the Wireguard class: inversion, packing and public-key derivation, each proved
 against section 5 of RFC 7748.
 */
module Wireguard {
  import opened JsNumbers
  import opened Residues
  import opened Limbs
  import opened FieldOps
  import opened Rfc7748

  /** `gf(init)`: sixteen limbs, the given ones first, zeros after. */
  method NewGf(init: seq<Exact>) returns (r: Gf)
    requires |init| <= 16
    ensures fresh(r) && r.Length == 16
    ensures forall k :: 0 <= k < 16 ==> r[k] == if k < |init| then init[k] else 0
    ensures r[..] == init + seq(16 - |init|, _ => 0)
  {
    r := new Exact[16](_ => 0);
    var i := 0;
    while i < |init|
      invariant 0 <= i <= |init|
      invariant forall k :: 0 <= k < i ==> r[k] == init[k]
      invariant forall k :: i <= k < 16 ==> r[k] == 0
    {
      r[i] := init[i];
      i := i + 1;
    }
  }

  // ---- inversion ----

  /** The exponent accumulated once the loop has processed every index down to a. */
  function InvertExponent(a: nat): nat
    requires a <= 254
    decreases 254 - a
  {
    if a == 254 then 1
    else 2 * InvertExponent(a + 1) + if a != 2 && a != 4 then 1 else 0
  }

  lemma NextExponent(a: nat)
    requires a <= 253
    ensures InvertExponent(254) == 1
    ensures InvertExponent(a) == 2 * InvertExponent(a + 1) + if a != 2 && a != 4 then 1 else 0
  {
  }

  /** Above index 4 the exponent is a run of ones. */
  lemma {:induction false} InvertExponentRun(a: nat)
    requires 5 <= a <= 254
    ensures InvertExponent(a) == Pow2(255 - a) - 1
    decreases 254 - a
  {
    if a == 254 {
      assert Pow2(1) == 2;
    } else {
      InvertExponentRun(a + 1);
    }
  }

  lemma FieldExponent()
    ensures Pow2(255) == P + 19 && Pow2(254) == (P + 19) / 2
  {
    Pow2Values();
    Pow2Add(16, 16);
    Pow2Add(32, 32);
    Pow2Add(64, 64);
    Pow2Add(128, 64);
    Pow2Add(192, 32);
    Pow2Add(224, 16);
    Pow2Add(240, 8);
    Pow2Add(248, 6);
    Pow2Add(254, 1);
  }

  /** Skipping the multiplication at indices 2 and 4 gives exactly P - 2. */
  lemma InvertExponentValue()
    ensures InvertExponent(0) == P - 2
  {
    InvertExponentRun(5);
    FieldExponent();
    Pow2Add(250, 5);
    assert Pow2(5) == 32;
    var e5 := InvertExponent(5);
    var e4 := InvertExponent(4);
    assert e4 == 2 * e5;
    var e3 := InvertExponent(3);
    assert e3 == 2 * e4 + 1;
    var e2 := InvertExponent(2);
    assert e2 == 2 * e3;
    var e1 := InvertExponent(1);
    assert e1 == 2 * e2 + 1;
    assert InvertExponent(0) == 2 * e1 + 1;
  }

  /** The residue of a power, kept as one term. */
  function PowerResidue(x: int, e: nat): int {
    Pow(x, e) % P
  }

  lemma SquarePower(x: int, e: nat)
    ensures FMul(PowerResidue(x, e), PowerResidue(x, e)) == PowerResidue(x, 2 * e)
  {
    ProductOfResidues(Pow(x, e), Pow(x, e));
    PowAdd(x, e, e);
  }

  lemma PowNext(x: int, e: nat)
    ensures Pow(x, e + 1) == Pow(x, e) * x
  {
  }

  lemma FirstPower(x: int)
    ensures PowerResidue(x, 1) == x % P
  {
    assert Pow(x, 1) == x * Pow(x, 0);
  }

  /** Raises to the power P - 2; `o` and `x` may be the same array. */
  method Invert(o: Gf, x: Gf)
    requires o.Length == 16 && x.Length == 16 && IsReduced(x)
    modifies o
    ensures IsReduced(o) && IsOperand(o) && IsInt32(o)
    ensures Elem(o) == Pow(old(Elem(x)), P - 2) % P
  {
    hide Pow, FMul, InvertExponent;
    ghost var v := Elem(x);
    var c := NewGf([]);
    CopyLimbs(c, x);
    assert x[..16] == x[..];
    ModMod(Val(x[..]), P);
    FirstPower(v);
    NextExponent(253);
    var a := 253;
    while a >= 0
      invariant -1 <= a <= 253
      invariant c.Length == 16 && IsReduced(c) && IsOperand(c) && IsOperand(x)
      invariant Elem(x) == v == v % P
      invariant Elem(c) == PowerResidue(v, InvertExponent(a + 1))
      decreases a + 1
    {
      ghost var e := InvertExponent(a + 1);
      NextExponent(a);
      SquarePower(v, e);
      PowNext(v, 2 * e);
      ProductOfResidues(Pow(v, 2 * e), v);
      MultMod(c, c, c);
      if a != 2 && a != 4 {
        MultMod(c, c, x);
      }
      a := a - 1;
    }
    InvertExponentValue();
    CopyLimbs(o, c);
    assert c[..16] == c[..];
  }

  // ---- packing ----

  /** The limbs of P. */
  function PrimeLimb(i: nat): int {
    if i == 0 then 0xffed else if i < 15 then 0xffff else 0x7fff
  }

  /** The borrow that limb i has to give to the limb below. */
  function BorrowInto(t: seq<int>, i: nat): (b: int)
    requires i <= |t|
    ensures b == 0 || b == 1
  {
    if i == 0 then 0
    else if t[i - 1] - PrimeLimb(i - 1) - BorrowInto(t, i - 1) < 0 then 1 else 0
  }

  /** Limb i of t - P before it borrows from the limb above. */
  function Difference(t: seq<int>, i: nat): int
    requires i < |t|
  {
    t[i] - PrimeLimb(i) - BorrowInto(t, i)
  }

  /** Limb i of t - P, normalised. */
  function DifferenceLimb(t: seq<int>, i: nat): int
    requires i < |t|
  {
    Difference(t, i) + 65536 * BorrowInto(t, i + 1)
  }

  lemma DifferenceRange(t: seq<int>, i: nat)
    requires Normal(t) && i < 16
    ensures -65536 <= Difference(t, i) < 65536
    ensures DifferenceLimb(t, i) == Difference(t, i) % 65536
  {
  }

  /** The source reads the borrow off bit 16 of the difference. */
  lemma BorrowBit(x: int)
    requires -65536 <= x < 65536
    ensures And(Sar(x, 16), 1) == if x < 0 then 1 else 0
  {
    Pow2Values();
  }

  lemma {:induction false} DifferencePrefix(t: seq<int>, r: seq<int>, p: seq<int>, i: nat)
    requires |t| == |r| == |p| && i <= |t|
    requires forall k :: 0 <= k < |t| ==> r[k] == DifferenceLimb(t, k)
    requires forall k :: 0 <= k < |t| ==> p[k] == PrimeLimb(k)
    ensures Val(t[..i]) == Val(r[..i]) + Val(p[..i]) - BorrowInto(t, i) * Weight(i)
    decreases i
  {
    if i > 0 {
      DifferencePrefix(t, r, p, i - 1);
      ValPrefix(t, i - 1);
      ValPrefix(r, i - 1);
      ValPrefix(p, i - 1);
      ScaleDifference(t[i - 1], r[i - 1], p[i - 1], BorrowInto(t, i - 1), BorrowInto(t, i), Weight(i - 1));
    }
  }

  lemma ScaleDifference(x: int, y: int, z: int, b: int, c: int, w: int)
    requires x == y + z + b - 65536 * c
    ensures x * w - b * w == y * w + z * w - c * (65536 * w)
  {
    Distribute(w, y + z, b - 65536 * c);
    Distribute(w, y, z);
    assert w * (b - 65536 * c) == w * b - w * (65536 * c);
  }

  lemma PrimeValue(p: seq<int>)
    requires |p| == 16 && forall k :: 0 <= k < 16 ==> p[k] == PrimeLimb(k)
    ensures Val(p) == P
  {
    var q := seq(16, _ => 65535);
    AllOnes(q);
    Weight16();
    ValUpdate(q, 0, 0xffed);
    ValUpdate(q[0 := 0xffed], 15, 0x7fff);
    assert p == q[0 := 0xffed][15 := 0x7fff];
    assert Weight(16) == 65536 * Weight(15) && Weight(0) == 1;
  }

  lemma {:induction false} AllOnes(q: seq<int>)
    requires forall k :: 0 <= k < |q| ==> q[k] == 65535
    ensures Val(q) == Weight(|q|) - 1
    decreases |q|
  {
    if q != [] {
      AllOnes(q[1..]);
    }
  }

  /** The borrow out of the top limb tells whether t is below P; without it r is t - P. */
  lemma DifferenceValue(t: seq<int>, r: seq<int>)
    requires Normal(t) && |r| == 16
    requires forall k :: 0 <= k < 16 ==> r[k] == DifferenceLimb(t, k)
    ensures BorrowInto(t, 16) == 1 <==> Val(t) < P
    ensures BorrowInto(t, 16) == 0 ==> Normal(r) && Val(r) == Val(t) - P
  {
    DifferenceNormal(t, r);
    DifferenceTotal(t, r);
    ValRange(r);
    var top := |r|;
    BorrowOut(Val(t), Val(r), P, BorrowInto(t, 16), Weight(top));
  }

  lemma BorrowOut(t: int, r: int, p: int, b: int, w: int)
    requires t == r + p - b * w && 0 <= r < w && (b == 0 || b == 1)
    ensures b == 1 <==> t < p
    ensures b == 0 ==> r == t - p
  {
  }

  lemma DifferenceNormal(t: seq<int>, r: seq<int>)
    requires Normal(t) && |r| == 16
    requires forall k :: 0 <= k < 16 ==> r[k] == DifferenceLimb(t, k)
    ensures Normal(r)
  {
    forall k | 0 <= k < 16
      ensures 0 <= r[k] < 65536
    {
      DifferenceRange(t, k);
    }
  }

  lemma DifferenceTotal(t: seq<int>, r: seq<int>)
    requires |t| == |r| == 16
    requires forall k :: 0 <= k < 16 ==> r[k] == DifferenceLimb(t, k)
    ensures Val(t) == Val(r) + P - BorrowInto(t, 16) * Weight(16)
  {
    hide Val, BorrowInto, DifferenceLimb, Weight;
    var p, n := seq(16, k requires 0 <= k < 16 => PrimeLimb(k)), |t|;
    DifferencePrefix(t, r, p, n);
    assert t[..n] == t && r[..n] == r && p[..n] == p;
    PrimeValue(p);
  }

  /** One round of the j-loop of `pack`: m becomes t - P and replaces t unless it is negative. */
  method SubtractPrimeOnce(t: Gf, m: Gf)
    requires t != m && t.Length == m.Length == 16 && Normal(t[..])
    modifies t, m
    ensures Normal(t[..])
    ensures Val(t[..]) == old(Val(t[..])) - if old(Val(t[..])) < P then 0 else P
  {
    hide And, Sar;
    ghost var s: seq<int> := t[..];
    m[0] := t[0] - 0xffed;
    var i := 1;
    while i < 15
      invariant 1 <= i <= 15
      invariant t[..] == s
      invariant m[i - 1] == Difference(s, i - 1)
      invariant forall k :: 0 <= k < i - 1 ==> m[k] == DifferenceLimb(s, k)
    {
      DifferenceRange(s, i - 1);
      DifferenceRange(s, i);
      BorrowBit(m[i - 1]);
      MaskLow16(m[i - 1]);
      m[i] := t[i] - 0xffff - And(Sar(m[i - 1], 16), 1);
      m[i - 1] := And(m[i - 1], 0xffff);
      i := i + 1;
    }
    DifferenceRange(s, 14);
    DifferenceRange(s, 15);
    BorrowBit(m[14]);
    m[15] := t[15] - 0x7fff - And(Sar(m[14], 16), 1);
    BorrowBit(m[15]);
    var b := And(Sar(m[15], 16), 1);
    MaskLow16(m[14]);
    m[14] := And(m[14], 0xffff);
    ghost var r := seq(16, k requires 0 <= k < 16 => DifferenceLimb(s, k));
    DifferenceValue(s, r);
    assert b == 0 ==> m[..] == r;
    CSwap(t, m, 1 - b);
  }

  lemma MaskLow8(x: int)
    requires 0 <= x < 65536
    ensures And(x, 0xff) == x % 256 && Sar(x, 8) == x / 256
  {
    Pow2Values();
    AndMask(x, 8);
  }

  function TwoBytes(lo: int, hi: int): int { lo + 256 * hi }

  lemma {:induction false} BytesOfLimbs(o: seq<Byte>, t: seq<int>)
    requires |o| == 2 * |t|
    requires forall k :: 0 <= k < |t| ==> t[k] == TwoBytes(o[2 * k], o[2 * k + 1])
    ensures LittleEndian(o) == Val(t)
    decreases |t|
  {
    if t != [] {
      var o', t' := o[2..], t[1..];
      forall k | 0 <= k < |t'|
        ensures t'[k] == TwoBytes(o'[2 * k], o'[2 * k + 1])
      {
        assert t'[k] == t[k + 1] && o'[2 * k] == o[2 * (k + 1)] && o'[2 * k + 1] == o[2 * (k + 1) + 1];
      }
      BytesOfLimbs(o', t');
      assert o[1..][1..] == o';
      assert t[0] == TwoBytes(o[2 * 0], o[2 * 0 + 1]);
    }
  }

  method WriteBytes(o: array<Byte>, t: Gf)
    requires o.Length == 32 && t.Length == 16 && Normal(t[..])
    modifies o
    ensures LittleEndian(o[..]) == Val(t[..])
  {
    ghost var s: seq<int> := t[..];
    var i := 0;
    while i < 16
      invariant 0 <= i <= 16
      invariant t[..] == s
      invariant forall k :: 0 <= k < i ==> s[k] == TwoBytes(o[2 * k], o[2 * k + 1])
    {
      assert t[i] == s[i];
      MaskLow8(t[i]);
      o[2 * i] := And(t[i], 0xff);
      o[2 * i + 1] := Sar(t[i], 8);
      i := i + 1;
    }
    BytesOfLimbs(o[..], s);
  }

  /** Three carry passes turn any accumulated limbs into normal ones of the same residue. */
  lemma ThreeCarries(s: seq<int>)
    requires Within(s, 0x1000_0000_0000)
    ensures var r := Carried(Carried(Carried(s)));
      Within(Carried(Carried(s)), 0x10_0000_0000_0000) && Normal(r) && Val(r) % P == Val(s) % P
  {
    TwoCarries(s);
    ThirdCarry(Carried(Carried(s)));
    CarriedValue(Carried(Carried(s)));
  }

  /** The value after j conditional subtractions of P. */
  function AfterSubtractions(v: int, j: nat): int {
    if j == 0 then v
    else
      var u := AfterSubtractions(v, j - 1);
      u - if u < P then 0 else P
  }

  /** Two subtractions suffice: sixteen normal limbs are below 3 P. */
  lemma TwoSubtractions(v: int)
    requires 0 <= v < Weight(16)
    ensures AfterSubtractions(v, 2) == v % P
  {
    Weight16();
    assert AfterSubtractions(v, 1) == v - if v < P then 0 else P;
    EuclidUnique(v, P, if v < P then 0 else if v < 2 * P then 1 else 2, AfterSubtractions(v, 2));
  }

  method CarryThrice(t: Gf)
    requires t.Length == 16 && Within(t[..], 0x1000_0000_0000)
    modifies t
    ensures Normal(t[..]) && Elem(t) == old(Elem(t))
  {
    TwoCarries(t[..]);
    ThreeCarries(t[..]);
    Carry(t);
    Carry(t);
    Carry(t);
  }

  lemma NextSubtraction(v: int, j: nat)
    ensures AfterSubtractions(v, 0) == v
    ensures var u := AfterSubtractions(v, j); AfterSubtractions(v, j + 1) == u - if u < P then 0 else P
  {
  }

  method SubtractPrimeTwice(t: Gf, m: Gf)
    requires t != m && t.Length == m.Length == 16 && Normal(t[..])
    modifies t, m
    ensures Normal(t[..]) && Val(t[..]) == old(Elem(t))
  {
    hide AfterSubtractions, Val, Weight;
    ghost var v := Val(t[..]);
    ValRange(t[..]);
    hide Normal;
    TwoSubtractions(v);
    NextSubtraction(v, 0);
    var j := 0;
    while j < 2
      invariant 0 <= j <= 2
      invariant Normal(t[..]) && Val(t[..]) == AfterSubtractions(v, j)
    {
      NextSubtraction(v, j);
      SubtractPrimeOnce(t, m);
      j := j + 1;
    }
  }

  /** Writes the little-endian bytes of the representative in [0, P). */
  method Pack(o: array<Byte>, n: Gf)
    requires o.Length == 32 && n.Length == 16 && Within(n[..], 0x1000_0000_0000)
    modifies o
    ensures LittleEndian(o[..]) == Elem(n)
  {
    var m := NewGf([]);
    var t := NewGf([]);
    CopyLimbs(t, n);
    assert n[..16] == n[..];
    CarryThrice(t);
    SubtractPrimeTwice(t, m);
    WriteBytes(o, t);
  }

  // ---- public key ----

  lemma ClearBit7(x: Byte)
    ensures And(x, 127) == x % 128
  {
    Pow2Values();
    AndMask(x, 7);
  }

  lemma SetBit6(y: Byte)
    requires y < 128
    ensures Or(y, 64) == 64 + y % 64
  {
    Pow2Values();
    OrShifted(y, 1, 6);
  }

  lemma ClampBottom(x: Byte)
    ensures And(x, 248) == x / 8 * 8
  {
    ClearLowBits(x);
    KeepFiveBits(x / 8);
  }

  lemma ClearLowBits(x: nat)
    ensures AndBits(x, 248) == AndBits(x / 8, 31) * 8
  {
    Pow2Values();
    AndShifted(x, 31, 3);
  }

  lemma KeepFiveBits(x: nat)
    requires x < 32
    ensures AndBits(x, 31) == x
  {
    hide AndBits;
    Pow2Values();
    AndMask(x, 5);
  }

  /** `clamp` is decodeScalar25519 before the bytes are read as a number. */
  lemma ClampDecodes(z: seq<Byte>, y: seq<Byte>)
    requires |z| == |y| == 32 && y[1..31] == z[1..31]
    requires y[0] == z[0] / 8 * 8 && y[31] == 64 + z[31] % 64
    ensures LittleEndian(y) == DecodeScalar(z)
  {
    var mid := z[1..31];
    SplitEnds(z, mid);
    SplitEnds(y, mid);
    LittleEndianRange(mid);
    ClampArithmetic(z[0], LittleEndian(mid), z[31]);
  }

  const TWO240: nat := 0x10000_00000000_00000000_00000000_00000000_00000000_00000000_00000000

  lemma Two240(n: nat)
    requires n == 240
    ensures Pow2(n) == TWO240
  {
    FieldExponent();
    Pow2Add(n, 14);
    Pow2Add(8, 6);
    Pow2Values();
  }

  lemma SplitEnds(z: seq<Byte>, mid: seq<Byte>)
    requires |z| == 32 && mid == z[1..31]
    ensures LittleEndian(z) == (z[0] as int) + 256 * (LittleEndian(mid) + TWO240 * z[31])
    ensures LittleEndian(mid) < TWO240
  {
    assert z[1..] == mid + [z[31]];
    LittleEndianAppend(mid, [z[31]]);
    LittleEndianRange(mid);
    Two240(8 * |mid|);
    assert LittleEndian([z[31]]) == z[31];
  }

  lemma ClampArithmetic(lo: Byte, m: nat, hi: Byte)
    requires m < TWO240
    ensures TWO254 + ((lo as int) + 256 * (m + TWO240 * hi)) % TWO254 / 8 * 8
      == lo / 8 * 8 + 256 * (m + TWO240 * (64 + hi % 64))
  {
    var h, l := hi / 64, hi % 64;
    DropHighBits((lo as int) + 256 * m, h, l);
    KeepOctets(lo, m + TWO240 * l);
  }

  lemma DropHighBits(x: nat, h: nat, l: nat)
    requires x < 256 * TWO240 && l < 64
    ensures (x + 256 * TWO240 * (64 * h + l)) % TWO254 == x + 256 * TWO240 * l
  {
    EuclidUnique(x + 256 * TWO240 * (64 * h + l), TWO254, h, x + 256 * TWO240 * l);
  }

  lemma KeepOctets(lo: nat, y: nat)
    ensures (lo + 256 * y) / 8 * 8 == lo / 8 * 8 + 256 * y
  {
  }

  method Clamp(z: array<Byte>)
    requires z.Length == 32
    modifies z
    ensures LittleEndian(z[..]) == DecodeScalar(old(z[..]))
  {
    hide And, Or;
    ghost var s := z[..];
    ClearBit7(z[31]);
    ClampBottom(z[0]);
    var top := And(z[31], 127);
    SetBit6(top);
    z[31] := Or(top, 64);
    z[0] := And(z[0], 248);
    ClampDecodes(s, z[..]);
  }

  /** The ladder variables held by four limb arrays. */
  ghost function LadderOf(a: Gf, b: Gf, c: Gf, d: Gf): Ladder
    reads a, b, c, d
  {
    Ladder(Elem(a), Elem(c), Elem(b), Elem(d))
  }

  lemma ReducedIsOperand(a: Gf)
    requires IsReduced(a)
    ensures IsOperand(a) && FitsInt32(a[..])
  {
  }

  /** First half of the loop body: from the ladder variables to DA + CB, DA - CB, AA and BB. */
  method RoundFirstHalf(a: Gf, b: Gf, c: Gf, d: Gf, e: Gf, f: Gf)
    requires a != b && a != c && a != d && a != e && a != f
    requires b != c && b != d && b != e && b != f
    requires c != d && c != e && c != f
    requires d != e && d != f
    requires e != f
    requires a.Length == 16 && b.Length == 16 && c.Length == 16 && d.Length == 16 && e.Length == 16 && f.Length == 16
    requires IsReduced(a) && IsReduced(b) && IsReduced(c) && IsReduced(d)
    requires IsInt32(a) && IsInt32(b) && IsInt32(c) && IsInt32(d)
    modifies a, b, c, d, e, f
    ensures IsReduced(d) && IsReduced(f) && IsReduced(a) && IsReduced(c)
    ensures IsInt32(d) && IsInt32(f) && IsInt32(a) && IsInt32(c) && IsOperand(d) && IsOperand(f)
    ensures Elem(d) == old(var s := FAdd(Elem(a), Elem(c)); FMul(s, s))
    ensures Elem(f) == old(var s := FSub(Elem(a), Elem(c)); FMul(s, s))
    ensures Elem(a) == old(FMul(FAdd(Elem(b), Elem(d)), FSub(Elem(a), Elem(c))))
    ensures Elem(c) == old(FMul(FSub(Elem(b), Elem(d)), FAdd(Elem(a), Elem(c))))
  {
    hide *;
    Add(e, a, c);
    Subtract(a, a, c);
    Add(c, b, d);
    Subtract(b, b, d);
    MultMod(d, e, e);
    MultMod(f, a, a);
    MultMod(a, c, a);
    MultMod(c, b, e);
  }

  /** Second half: from CB, DA, AA and BB to the next ladder variables. */
  method RoundSecondHalf(a: Gf, b: Gf, c: Gf, d: Gf, e: Gf, f: Gf, a24: Gf, nine: Gf)
    requires a != b && a != c && a != d && a != e && a != f
    requires b != c && b != d && b != e && b != f
    requires c != d && c != e && c != f
    requires d != e && d != f
    requires e != f
    requires a24 != a && a24 != b && a24 != c && a24 != d && a24 != e && a24 != f
    requires nine != a && nine != b && nine != c && nine != d && nine != e && nine != f
    requires a.Length == b.Length == c.Length == d.Length == e.Length == f.Length == 16
    requires IsReduced(a) && IsReduced(c) && IsReduced(d) && IsReduced(f)
    requires IsInt32(a) && IsInt32(c) && IsInt32(d) && IsInt32(f)
    requires IsOperand(d) && IsOperand(f) && IsOperand(a24) && IsOperand(nine)
    modifies a, b, c, d, e, f
    ensures IsReduced(a) && IsReduced(b) && IsReduced(c) && IsReduced(d)
    ensures IsInt32(a) && IsInt32(b) && IsInt32(c) && IsInt32(d)
    ensures Elem(a) == old(FMul(Elem(d), Elem(f)))
    ensures Elem(b) == old(var s := FAdd(Elem(a), Elem(c)); FMul(s, s))
    ensures Elem(c) == old(var g := FSub(Elem(d), Elem(f)); FMul(g, FAdd(FMul(g, Elem(a24)), Elem(d))))
    ensures Elem(d) == old(var s := FSub(Elem(a), Elem(c)); FMul(FMul(s, s), Elem(nine)))
  {
    hide *;
    Add(e, a, c);
    Subtract(a, a, c);
    MultMod(b, a, a);
    Subtract(c, d, f);
    MultMod(a, c, a24);
    Add(a, a, d);
    MultMod(c, c, a);
    MultMod(a, d, f);
    MultMod(d, b, nine);
    MultMod(b, e, e);
  }

  /** Four ladder arrays ready for a round. */
  ghost predicate LadderArrays(a: Gf, b: Gf, c: Gf, d: Gf)
    reads a, b, c, d
  {
    && a.Length == 16 && b.Length == 16 && c.Length == 16 && d.Length == 16
    && IsReduced(a) && IsReduced(b) && IsReduced(c) && IsReduced(d)
    && IsInt32(a) && IsInt32(b) && IsInt32(c) && IsInt32(d)
  }

  /** The two halves compute one round of the RFC. */
  lemma HalvesMakeRound(x2: int, z2: int, x3: int, z3: int, x1: int, aa: int, bb: int, cb: int, da: int)
    requires aa == FMul(FAdd(x2, z2), FAdd(x2, z2)) && bb == FMul(FSub(x2, z2), FSub(x2, z2))
    requires cb == FMul(FAdd(x3, z3), FSub(x2, z2)) && da == FMul(FSub(x3, z3), FAdd(x2, z2))
    ensures var e := FSub(aa, bb);
      Round(x1, Ladder(x2, z2, x3, z3)) == Ladder(
        FMul(aa, bb),
        FMul(e, FAdd(FMul(e, A24), aa)),
        FMul(FAdd(cb, da), FAdd(cb, da)),
        FMul(FMul(FSub(cb, da), FSub(cb, da)), x1))
  {
    SquaredDifference(cb, da, P);
    assert FMul(FSub(cb, da), FSub(cb, da)) == FMul(FSub(da, cb), FSub(da, cb));
    hide FAdd, FSub, FMul;
    var e := FSub(aa, bb);
    FieldCommutes(e, A24);
    FieldCommutes(FMul(A24, e), aa);
    FieldCommutes(cb, da);
    var t := FSub(da, cb);
    FieldCommutes(FMul(t, t), x1);
  }

  lemma FieldCommutes(x: int, y: int)
    ensures FAdd(x, y) == FAdd(y, x) && FMul(x, y) == FMul(y, x)
  {
  }

  /** One iteration of the ladder: swap by the key bit, one round, swap back. */
  method LadderStep(a: Gf, b: Gf, c: Gf, d: Gf, e: Gf, f: Gf, a24: Gf, nine: Gf, r: int)
    requires a != b && a != c && a != d && a != e && a != f
    requires b != c && b != d && b != e && b != f
    requires c != d && c != e && c != f
    requires d != e && d != f
    requires e != f
    requires a24 != a && a24 != b && a24 != c && a24 != d && a24 != e && a24 != f
    requires nine != a && nine != b && nine != c && nine != d && nine != e && nine != f
    requires e.Length == 16 && f.Length == 16 && (r == 0 || r == 1)
    requires LadderArrays(a, b, c, d)
    requires IsOperand(a24) && Elem(a24) == A24 && IsOperand(nine)
    modifies a, b, c, d, e, f
    ensures LadderArrays(a, b, c, d)
    ensures LadderOf(a, b, c, d) == old(CondSwap(r, Round(Elem(nine), CondSwap(r, LadderOf(a, b, c, d)))))
  {
    hide FAdd, FSub, FMul, Round;
    ghost var st := CondSwap(r, LadderOf(a, b, c, d));
    SwapPairs(a, b, c, d, r);
    RoundFirstHalf(a, b, c, d, e, f);
    HalvesMakeRound(st.x2, st.z2, st.x3, st.z3, Elem(nine), Elem(d), Elem(f), Elem(a), Elem(c));
    RoundSecondHalf(a, b, c, d, e, f, a24, nine);
    SwapPairs(a, b, c, d, r);
  }

  /** The two conditional swaps that open and close every iteration. */
  method SwapPairs(a: Gf, b: Gf, c: Gf, d: Gf, r: int)
    requires a != b && a != c && a != d && b != c && b != d && c != d
    requires LadderArrays(a, b, c, d) && (r == 0 || r == 1)
    modifies a, b, c, d
    ensures LadderArrays(a, b, c, d)
    ensures LadderOf(a, b, c, d) == old(CondSwap(r, LadderOf(a, b, c, d)))
  {
    CSwap(a, b, r);
    CSwap(c, d, r);
  }

  /** The source's bit extraction reads bit t of the scalar. */
  lemma KeyBit(z: seq<Byte>, t: nat)
    requires |z| == 32 && t < 256
    ensures Shr(t, 3) == t / 8 && And(t, 7) == t % 8
    ensures And(Shr(z[t / 8], t % 8), 1) == Bit(LittleEndian(z), t)
  {
    hide AndBits, LittleEndian;
    Pow2Values();
    AndMask(t, 3);
    ByteBit(z[t / 8], t % 8);
    LittleEndianBit(z, t);
  }

  lemma ByteBit(x: Byte, n: nat)
    requires n < 8
    ensures And(Shr(x, n), 1) == Bit(x, n)
  {
    hide AndBits;
    Pow2Values();
    QuotientSmall(x, Pow2(n));
    AndMask(x / Pow2(n), 1);
  }

  lemma QuotientSmall(x: Byte, d: nat)
    requires d >= 1
    ensures 0 <= x / d < 256
  {
    var q := x / d;
    assert x == d * q + x % d;
    if q >= 256 {
      assert d * q == q + (d - 1) * q;
      MulNonneg(d - 1, q);
    }
  }

  /** The value of `gf(init)`. */
  lemma GfValue(s: seq<int>, init: seq<int>)
    requires |init| <= |s| && s[..|init|] == init && forall k :: |init| <= k < |s| ==> s[k] == 0
    ensures Val(s) == Val(init)
  {
    hide Val, Weight;
    var zeros := s[|init|..];
    assert s == init + zeros;
    ValAppend(init, zeros);
    ValZero(zeros);
    TimesZero(Weight(|init|), Val(zeros));
  }

  lemma TimesZero(w: int, v: int)
    requires v == 0
    ensures w * v == 0
  {
  }

  /** A small constant as limbs, ready for the ladder. */
  method SmallGf(lo: Exact, hi: Exact) returns (r: Gf)
    requires 0 <= lo < 65536 && 0 <= hi < 65536
    ensures fresh(r) && r.Length == 16
    ensures IsReduced(r) && IsOperand(r) && IsInt32(r)
    ensures Elem(r) == lo + 65536 * hi
  {
    r := NewGf([lo, hi]);
    GfValue(r[..], [lo, hi]);
    assert Val([hi]) == hi && [lo, hi][1..] == [hi];
  }

  method CopyBytes(z: array<Byte>, privateKey: array<Byte>)
    requires z.Length == privateKey.Length == 32 && z != privateKey
    modifies z
    ensures z[..] == privateKey[..]
  {
    var i := 0;
    while i < 32
      invariant 0 <= i <= 32
      invariant forall k :: 0 <= k < i ==> z[k] == privateKey[k]
    {
      z[i] := privateKey[i];
      i := i + 1;
    }
  }

  /** The loop over the key bits, from bit 254 down. */
  method RunLadder(a: Gf, b: Gf, c: Gf, d: Gf, e: Gf, f: Gf, a24: Gf, nine: Gf, z: array<Byte>)
    requires a != b && a != c && a != d && a != e && a != f
    requires b != c && b != d && b != e && b != f
    requires c != d && c != e && c != f
    requires d != e && d != f
    requires e != f
    requires a24 != a && a24 != b && a24 != c && a24 != d && a24 != e && a24 != f
    requires nine != a && nine != b && nine != c && nine != d && nine != e && nine != f
    requires z.Length == 32 && e.Length == 16 && f.Length == 16
    requires LadderArrays(a, b, c, d)
    requires IsOperand(a24) && Elem(a24) == A24 && IsOperand(nine)
    modifies a, b, c, d, e, f
    ensures LadderArrays(a, b, c, d)
    ensures LadderOf(a, b, c, d) == old(EagerRounds(LittleEndian(z[..]), Elem(nine), 255, LadderOf(a, b, c, d)))
  {
    hide *;
    ghost var bytes := z[..];
    ghost var k, x1 := LittleEndian(bytes), Elem(nine);
    ghost var total := EagerRounds(k, x1, 255, LadderOf(a, b, c, d));
    var i := 254;
    while i >= 0
      invariant -1 <= i <= 254
      invariant z[..] == bytes
      invariant LadderArrays(a, b, c, d)
      invariant IsOperand(a24) && Elem(a24) == A24 && IsOperand(nine) && Elem(nine) == x1
      invariant EagerRounds(k, x1, i + 1, LadderOf(a, b, c, d)) == total
      decreases i + 1
    {
      KeyBit(bytes, i);
      BitRange(k, i);
      EagerUnfold(k, x1, i + 1, LadderOf(a, b, c, d));
      assert z[i / 8] == bytes[i / 8];
      var r := And(Shr(z[Shr(i, 3)], And(i, 7)), 1);
      LadderStep(a, b, c, d, e, f, a24, nine, r);
      i := i - 1;
    }
    EagerDone(k, x1, LadderOf(a, b, c, d));
  }

  /** X25519 of the clamped private key and the base point u = 9. */
  method GeneratePublicKey(privateKey: array<Byte>) returns (z: array<Byte>)
    requires privateKey.Length == 32
    ensures fresh(z) && z.Length == 32
    ensures LittleEndian(z[..]) == X25519(DecodeScalar(privateKey[..]), 9)
  {
    hide *;
    z := ClampedCopy(privateKey);
    var a, b, c, d := StartArrays();
    var e := SmallGf(0, 0);
    var f := SmallGf(0, 0);
    var a24 := SmallGf(0xdb41, 1);
    var nine := SmallGf(9, 0);
    ghost var k := LittleEndian(z[..]);
    A24Value();
    FinishLadder(k, LadderOf(a, b, c, d));
    RunLadder(a, b, c, d, e, f, a24, nine, z);
    WriteQuotient(z, a, b, c, d);
  }

  method ClampedCopy(privateKey: array<Byte>) returns (z: array<Byte>)
    requires privateKey.Length == 32
    ensures fresh(z) && z.Length == 32 && LittleEndian(z[..]) == DecodeScalar(privateKey[..])
  {
    hide *;
    z := new Byte[32](_ => 0);
    CopyBytes(z, privateKey);
    Clamp(z);
  }

  /** The limbs 0xdb41 and 1 spell the RFC's constant. */
  lemma A24Value()
    ensures A24 == 0xdb41 + 65536 * 1
  {
  }

  method StartArrays() returns (a: Gf, b: Gf, c: Gf, d: Gf)
    ensures fresh(a) && fresh(b) && fresh(c) && fresh(d)
    ensures a != b && a != c && a != d && b != c && b != d && c != d
    ensures LadderArrays(a, b, c, d) && LadderOf(a, b, c, d) == LadderStart(9)
  {
    hide Elem, IsReduced, IsInt32, IsOperand;
    a := SmallGf(1, 0);
    b := SmallGf(9, 0);
    c := SmallGf(0, 0);
    d := SmallGf(1, 0);
  }

  /** The affine coordinate x_2 / z_2, packed. */
  method WriteQuotient(z: array<Byte>, a: Gf, ghost b: Gf, c: Gf, ghost d: Gf)
    requires a != c && z.Length == 32 && LadderArrays(a, b, c, d)
    modifies z, a, c
    ensures LittleEndian(z[..]) == old(Quotient(LadderOf(a, b, c, d)))
  {
    hide Elem, FMul, Pow, LittleEndian;
    Invert(c, c);
    ReducedIsOperand(a);
    MultMod(a, a, c);
    PackableProduct(a);
    Pack(z, a);
  }

  lemma BitRange(k: nat, t: nat)
    ensures Bit(k, t) == 0 || Bit(k, t) == 1
  {
  }

  lemma EagerDone(k: nat, x1: int, st: Ladder)
    ensures EagerRounds(k, x1, 0, st) == st
  {
  }

  lemma EagerUnfold(k: nat, x1: int, t: nat, st: Ladder)
    requires t > 0
    ensures EagerRounds(k, x1, t, st)
      == EagerRounds(k, x1, t - 1, CondSwap(Bit(k, t - 1), Round(x1, CondSwap(Bit(k, t - 1), st))))
  {
  }

  lemma FinishLadder(k: nat, start: Ladder)
    requires start == LadderStart(9)
    ensures Quotient(EagerRounds(k, 9, 255, start)) == X25519(k, 9)
  {
    hide Round, Pow, FMul;
    var n := 255;
    EagerEqualsDeferred(k, 9, n, start, 0);
  }

  lemma PackableProduct(a: Gf)
    requires a.Length == 16 && IsReduced(a)
    ensures Within(a[..], 0x1000_0000_0000)
  {
  }
}
