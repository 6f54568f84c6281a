/**
 X25519 as section 5 of RFC 7748 defines it, on residues modulo P, and the lemma that the
 ladder may swap before and after every step instead of deferring the swap to the next one.
 */
module Rfc7748 {
  import opened JsNumbers
  import opened Residues

  /** The ladder variables x_2, z_2, x_3 and z_3. */
  datatype Ladder = Ladder(x2: int, z2: int, x3: int, z3: int)

  function CondSwap(swap: int, st: Ladder): Ladder {
    if swap == 1 then Ladder(st.x3, st.z3, st.x2, st.z2) else st
  }

  const A24: int := 121665

  /** The arithmetic of one round. */
  function Round(x1: int, st: Ladder): Ladder {
    var a := FAdd(st.x2, st.z2);
    var aa := FMul(a, a);
    var b := FSub(st.x2, st.z2);
    var bb := FMul(b, b);
    var e := FSub(aa, bb);
    var c := FAdd(st.x3, st.z3);
    var d := FSub(st.x3, st.z3);
    var da := FMul(d, a);
    var cb := FMul(c, b);
    var s := FAdd(da, cb);
    var t := FSub(da, cb);
    Ladder(FMul(aa, bb), FMul(e, FAdd(aa, FMul(A24, e))), FMul(s, s), FMul(x1, FMul(t, t)))
  }

  function Bit(k: nat, t: nat): int {
    k / Pow2(t) % 2
  }

  /** The rounds for bits t - 1 down to 0, with the deferred swap of the RFC. */
  function Rounds(k: nat, x1: int, t: nat, st: Ladder, swap: int): (Ladder, int)
    decreases t
  {
    if t == 0 then (st, swap)
    else
      var bit := Bit(k, t - 1);
      var both := (swap + bit) % 2;
      Rounds(k, x1, t - 1, Round(x1, CondSwap(both, st)), bit)
  }

  function LadderStart(u: int): Ladder {
    Ladder(1, 0, u, 1)
  }

  function Quotient(st: Ladder): int {
    FMul(st.x2, Pow(st.z2, P - 2) % P)
  }

  function X25519(k: nat, u: int): (r: int)
    ensures 0 <= r < P
  {
    var (st, swap) := Rounds(k, u, 255, LadderStart(u), 0);
    Quotient(CondSwap(swap, st))
  }

  /** The same rounds with a swap before and after each. */
  function EagerRounds(k: nat, x1: int, t: nat, st: Ladder): Ladder
    decreases t
  {
    if t == 0 then st
    else
      var bit := Bit(k, t - 1);
      EagerRounds(k, x1, t - 1, CondSwap(bit, Round(x1, CondSwap(bit, st))))
  }

  lemma {:induction false} EagerEqualsDeferred(k: nat, x1: int, t: nat, st: Ladder, swap: int)
    requires swap == 0 || swap == 1
    ensures EagerRounds(k, x1, t, CondSwap(swap, st))
      == CondSwap(Rounds(k, x1, t, st, swap).1, Rounds(k, x1, t, st, swap).0)
    decreases t
  {
    if t > 0 {
      var bit := Bit(k, t - 1);
      var both := (swap + bit) % 2;
      assert CondSwap(bit, CondSwap(swap, st)) == CondSwap(both, st);
      EagerEqualsDeferred(k, x1, t - 1, Round(x1, CondSwap(both, st)), bit);
    }
  }

  // ---- encodings ----

  /** decodeLittleEndian. */
  function LittleEndian(b: seq<Byte>): (r: nat) {
    if |b| == 0 then 0 else b[0] + 256 * LittleEndian(b[1..])
  }

  const TWO254: nat := 0x40000000_00000000_00000000_00000000_00000000_00000000_00000000_00000000

  /** decodeScalar25519, as arithmetic: bit 255 and the three lowest bits cleared, bit 254 set. */
  function DecodeScalar(b: seq<Byte>): nat
    requires |b| == 32
  {
    TWO254 + LittleEndian(b) % TWO254 / 8 * 8
  }

  /** Equal little-endian values of the same length come from equal bytes. */
  lemma {:induction false} LittleEndianInjective(a: seq<Byte>, b: seq<Byte>)
    requires |a| == |b| && LittleEndian(a) == LittleEndian(b)
    ensures a == b
  {
    if a != [] {
      assert LittleEndian(a) % 256 == a[0] && LittleEndian(b) % 256 == b[0];
      LittleEndianInjective(a[1..], b[1..]);
      assert a == [a[0]] + a[1..] && b == [b[0]] + b[1..];
    }
  }

  lemma {:induction false} LittleEndianAppend(a: seq<Byte>, b: seq<Byte>)
    ensures LittleEndian(a + b) == LittleEndian(a) + Pow2(8 * |a|) * LittleEndian(b)
    decreases |a|
  {
    if a == [] {
      assert a + b == b;
    } else {
      assert (a + b)[1..] == a[1..] + b;
      LittleEndianAppend(a[1..], b);
      Pow2Values();
      Pow2Add(8, 8 * |a[1..]|);
      Scale256(Pow2(8 * |a[1..]|), LittleEndian(b));
    }
  }

  lemma Scale256(x: int, y: int)
    ensures 256 * (x * y) == (256 * x) * y
  {
  }

  lemma {:induction false} LittleEndianRange(b: seq<Byte>)
    ensures LittleEndian(b) < Pow2(8 * |b|)
    decreases |b|
  {
    if b != [] {
      LittleEndianRange(b[1..]);
      Pow2Values();
      Pow2Add(8, 8 * |b[1..]|);
    }
  }

  /** Bit t of the number is bit t mod 8 of byte t / 8. */
  lemma {:induction false} LittleEndianBit(b: seq<Byte>, t: nat)
    requires t < 8 * |b|
    ensures Bit(LittleEndian(b), t) == Bit(b[t / 8], t % 8)
    decreases |b|
  {
    if t < 8 {
      FirstByteBit(b[0], LittleEndian(b[1..]), t);
    } else {
      LittleEndianBit(b[1..], t - 8);
      LaterByteBit(b[0], LittleEndian(b[1..]), t - 8);
      assert (t - 8) / 8 == t / 8 - 1 && (t - 8) % 8 == t % 8;
    }
  }

  lemma FirstByteBit(x: Byte, rest: nat, t: nat)
    requires t < 8
    ensures Bit((x as int) + 256 * rest, t) == Bit(x, t)
  {
    Pow2Values();
    Pow2Add(t, 8 - t);
    Pow2Add(1, 7 - t);
    LowBit(x, rest, Pow2(t), Pow2(7 - t));
  }

  lemma LaterByteBit(x: Byte, rest: nat, t: nat)
    ensures Bit((x as int) + 256 * rest, t + 8) == Bit(rest, t)
  {
    Pow2Values();
    Pow2Add(8, t);
    HighBit(x, rest, Pow2(t));
  }

  lemma LowBit(x: int, rest: int, d: int, e: int)
    requires d >= 1 && 256 == d * (2 * e)
    ensures (x + 256 * rest) / d % 2 == x / d % 2
  {
    var k := (2 * e) * rest;
    assert 256 * rest == d * k by { assert d * (2 * e) * rest == d * ((2 * e) * rest); }
    assert x + 256 * rest == d * (x / d + k) + x % d by { Distribute(d, x / d, k); }
    EuclidUnique(x + 256 * rest, d, x / d + k, x % d);
    assert k == (e * rest) * 2 by { assert (2 * e) * rest == 2 * (e * rest); }
    ModShift(x / d, e * rest, 2);
  }

  lemma HighBit(x: int, rest: nat, d: int)
    requires 0 <= x < 256 && d >= 1
    ensures (x + 256 * rest) / (256 * d) == rest / d
  {
    var q, r := rest / d, rest % d;
    assert rest == d * q + r;
    assert x + 256 * rest == (256 * d) * q + (x + 256 * r) by { Scale256(d, q); }
    EuclidUnique(x + 256 * rest, 256 * d, q, x + 256 * r);
  }
}
