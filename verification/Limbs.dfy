/**
 Numbers written as little-endian sequences of 16-bit limbs, and what one carry pass over
 sixteen limbs does to them.
 */
module Limbs {
  import opened Residues

  function Weight(n: nat): (w: int)
    ensures w >= 1
  {
    if n == 0 then 1 else 65536 * Weight(n - 1)
  }

  function Val(s: seq<int>): int {
    if |s| == 0 then 0 else s[0] + 65536 * Val(s[1..])
  }

  lemma {:induction false} WeightAdd(m: nat, n: nat)
    ensures Weight(m + n) == Weight(m) * Weight(n)
    decreases m
  {
    if m > 0 {
      WeightAdd(m - 1, n);
      assert Weight(m + n) == 65536 * Weight(m - 1 + n);
      var u, v := Weight(m - 1), Weight(n);
      assert 65536 * (u * v) == (65536 * u) * v;
    }
  }

  /** Two to the 256: the weight just above sixteen limbs, congruent to 38 modulo P. */
  lemma Weight16()
    ensures Weight(16) == 2 * P + 38
  {
    assert Weight(4) == 0x1_0000_0000_0000_0000;
    WeightAdd(4, 4);
    WeightAdd(8, 8);
  }

  lemma {:induction false} ValAppend(s: seq<int>, t: seq<int>)
    ensures Val(s + t) == Val(s) + Weight(|s|) * Val(t)
    decreases |s|
  {
    if s == [] {
      assert s + t == t;
    } else {
      assert (s + t)[1..] == s[1..] + t;
      ValAppend(s[1..], t);
    }
  }

  lemma ValPrefix(s: seq<int>, i: nat)
    requires i < |s|
    ensures Val(s[..i + 1]) == Val(s[..i]) + s[i] * Weight(i)
  {
    assert s[..i + 1] == s[..i] + [s[i]];
    ValAppend(s[..i], [s[i]]);
    assert Val([s[i]]) == s[i];
  }

  lemma {:induction false} ValUpdate(s: seq<int>, i: nat, v: int)
    requires i < |s|
    ensures Val(s[i := v]) == Val(s) + (v - s[i]) * Weight(i)
    decreases i
  {
    var t := s[i := v];
    if i == 0 {
      assert t[1..] == s[1..];
    } else {
      assert t[1..] == s[1..][i - 1 := v];
      ValUpdate(s[1..], i - 1, v);
      assert 65536 * ((v - s[i]) * Weight(i - 1)) == (v - s[i]) * Weight(i);
    }
  }

  /** A limb-wise linear combination has the combined value. */
  lemma {:induction false} ValLinear(r: seq<int>, a: seq<int>, b: seq<int>, c: int)
    requires |r| == |a| == |b|
    requires forall k :: 0 <= k < |r| ==> r[k] == a[k] + c * b[k]
    ensures Val(r) == Val(a) + c * Val(b)
    decreases |r|
  {
    if r != [] {
      ValLinear(r[1..], a[1..], b[1..], c);
      assert c * (b[0] + 65536 * Val(b[1..])) == c * b[0] + 65536 * (c * Val(b[1..]));
    }
  }

  lemma {:induction false} ValZero(s: seq<int>)
    requires forall k :: 0 <= k < |s| ==> s[k] == 0
    ensures Val(s) == 0
    decreases |s|
  {
    if s != [] {
      ValZero(s[1..]);
    }
  }

  /** Limbs in their own range give a value in the range of the whole. */
  lemma {:induction false} ValRange(s: seq<int>)
    requires forall k :: 0 <= k < |s| ==> 0 <= s[k] < 65536
    ensures 0 <= Val(s) < Weight(|s|)
    decreases |s|
  {
    if s != [] {
      ValRange(s[1..]);
    }
  }

  // ---- ranges ----

  /** All limbs at most `bound` in absolute value. */
  predicate Within(s: seq<int>, bound: int) {
    |s| == 16 && forall k :: 0 <= k < 16 ==> -bound <= s[k] <= bound
  }

  predicate HighLimbsNormal(s: seq<int>) {
    |s| == 16 && forall k :: 1 <= k < 16 ==> 0 <= s[k] < 65536
  }

  /** The range every field operation leaves its result in. */
  predicate Reduced(s: seq<int>) {
    HighLimbsNormal(s) && -38 <= s[0] <= 65573
  }

  predicate Normal(s: seq<int>) {
    HighLimbsNormal(s) && 0 <= s[0] < 65536
  }

  /** Sums and differences of two reduced numbers: what `multmod` is given. */
  const OPERAND: int := 131146

  // ---- one carry pass, in closed form ----

  /** The carry that leaves limb i. */
  function CarryOut(s: seq<int>, i: nat): int
    requires i < |s|
  {
    (s[i] + if i == 0 then 0 else CarryOut(s, i - 1)) / 65536
  }

  /** The limbs after one pass: the carry out of the top limb comes back 38-fold at the bottom. */
  function Carried(s: seq<int>): (r: seq<int>)
    requires |s| == 16
    ensures |r| == 16 && HighLimbsNormal(r)
  {
    seq(16, i requires 0 <= i < 16 =>
      CarriedLimb(s, i) + if i == 0 then 38 * CarryOut(s, 15) else 0)
  }

  /** Limb i once the carry from below is added and its own carry has left. */
  function CarriedLimb(s: seq<int>, i: nat): (r: int)
    requires i < |s|
    ensures r == s[i] + (if i == 0 then 0 else CarryOut(s, i - 1)) - 65536 * CarryOut(s, i)
  {
    (s[i] + if i == 0 then 0 else CarryOut(s, i - 1)) % 65536
  }

  lemma {:induction false} CarriedPrefix(s: seq<int>, r: seq<int>, i: nat)
    requires |s| == |r| && i <= |s|
    requires forall k :: 0 <= k < |s| ==> r[k] == CarriedLimb(s, k)
    ensures Val(s[..i]) == Val(r[..i]) + (if i == 0 then 0 else CarryOut(s, i - 1)) * Weight(i)
    decreases i
  {
    if i > 0 {
      CarriedPrefix(s, r, i - 1);
      ValPrefix(s, i - 1);
      ValPrefix(r, i - 1);
      var c := if i == 1 then 0 else CarryOut(s, i - 2);
      var x, d := s[i - 1], CarryOut(s, i - 1);
      assert r[i - 1] == CarriedLimb(s, i - 1) == x + c - 65536 * d;
      ScaleDivision(x, c, r[i - 1], d, Weight(i - 1));
    }
  }

  lemma ScaleDivision(x: int, c: int, y: int, d: int, w: int)
    requires y == x + c - 65536 * d
    ensures x * w + c * w == y * w + d * (65536 * w)
  {
    assert x * w + c * w == (x + c) * w;
    assert (y + 65536 * d) * w == y * w + (65536 * d) * w;
  }

  /** A carry pass subtracts a multiple of 2 P, so it keeps the residue. */
  lemma CarriedValue(s: seq<int>)
    requires |s| == 16
    ensures Val(Carried(s)) == Val(s) - CarryOut(s, 15) * (2 * P)
    ensures Val(Carried(s)) % P == Val(s) % P
  {
    var top := 15;
    var c := CarryOut(s, top);
    var v := CarriedWrapped(s, c);
    Weight16();
    WrapAround(c, Val(s), v, Val(Carried(s)), Weight(top + 1), P);
  }

  lemma CarriedWrapped(s: seq<int>, c: int) returns (v: int)
    requires |s| == 16 && c == CarryOut(s, 15)
    ensures Val(Carried(s)) == v + 38 * c
    ensures Val(s) == v + c * Weight(16)
  {
    var r := seq(16, i requires 0 <= i < 16 => CarriedLimb(s, i));
    v := Val(r);
    CarriedPrefix(s, r, |s|);
    assert s[..|s|] == s && r[..|s|] == r;
    CarriedBottom(s, r, c);
  }

  lemma CarriedBottom(s: seq<int>, r: seq<int>, c: int)
    requires |s| == |r| == 16 && c == CarryOut(s, 15)
    requires forall k :: 0 <= k < 16 ==> r[k] == CarriedLimb(s, k)
    ensures Val(Carried(s)) == Val(r) + 38 * c
  {
    var low := r[0] + 38 * c;
    assert Carried(s) == r[0 := low];
    ValUpdate(r, 0, low);
    assert Weight(0) == 1;
  }

  lemma WrapAround(c: int, vs: int, vr: int, v: int, w: int, p: int)
    requires vs == vr + c * w && v == vr + 38 * c && w == 2 * p + 38 && p >= 1
    ensures v == vs - c * (2 * p) && v % p == vs % p
  {
    assert c * (2 * p + 38) == c * (2 * p) + 38 * c;
    assert v == vs + (-2 * c) * p;
    ModShift(vs, -2 * c, p);
  }

  lemma {:induction false} CarryOutWithin(s: seq<int>, bound: int, i: nat)
    requires Within(s, bound) && i < 16 && 0 <= bound <= 0x10_0000_0000_0000
    ensures -(bound / 65535) - 1 <= CarryOut(s, i) <= bound / 65535 + 1
    decreases i
  {
    if i > 0 {
      CarryOutWithin(s, bound, i - 1);
    }
  }

  /** First pass of a multiplication: any accumulated limbs become normal except the lowest. */
  lemma FirstCarry(s: seq<int>)
    requires Within(s, 0x1000_0000_0000)
    ensures HighLimbsNormal(Carried(s)) && -0x4_0000_0000 <= Carried(s)[0] <= 0x4_0000_0000
  {
    CarryOutWithin(s, 0x1000_0000_0000, 15);
  }

  lemma {:induction false} CarryOutSettles(s: seq<int>, i: nat)
    requires HighLimbsNormal(s) && -0x4_0000_0000 <= s[0] <= 0x4_0000_0000 && i < 16
    ensures -0x4_0000 <= CarryOut(s, i) <= 0x4_0000
    ensures i >= 1 ==> -5 <= CarryOut(s, i) <= 5
    ensures i >= 2 ==> -1 <= CarryOut(s, i) <= 1
    decreases i
  {
    if i > 0 {
      CarryOutSettles(s, i - 1);
    }
  }

  /** Second pass: the number is reduced. */
  lemma SecondCarry(s: seq<int>)
    requires HighLimbsNormal(s) && -0x4_0000_0000 <= s[0] <= 0x4_0000_0000
    ensures Reduced(Carried(s))
  {
    CarryOutSettles(s, 15);
  }

  lemma {:induction false} CarryOutUnit(s: seq<int>, i: nat)
    requires Reduced(s) && i < 16
    ensures CarryOut(s, 0) == -1 || CarryOut(s, 0) == 0 || CarryOut(s, 0) == 1
    ensures CarryOut(s, i) == 0 || CarryOut(s, i) == CarryOut(s, 0)
    decreases i
  {
    if i > 0 {
      CarryOutUnit(s, i - 1);
    }
  }

  /** Third pass: every limb, the lowest included, lies in its own range. */
  lemma ThirdCarry(s: seq<int>)
    requires Reduced(s)
    ensures Normal(Carried(s))
  {
    CarryOutUnit(s, 15);
  }
}
