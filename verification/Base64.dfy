/**
 The branch-free base64 encoder of the Wireguard class against section 4 of RFC 4648.
 */
module Base64 {
  import opened Options
  import opened JsNumbers

  // ---- RFC 4648, section 4 ----

  /** The base64 alphabet: A-Z, a-z, 0-9, + and /. */
  function Symbol(v: int): char
    requires 0 <= v < 64
  {
    if v < 26 then 'A' + v as char
    else if v < 52 then 'a' + (v - 26) as char
    else if v < 62 then '0' + (v - 52) as char
    else if v == 62 then '+'
    else '/'
  }

  function Group(b0: Byte, b1: Byte, b2: Byte): (s: string)
    ensures |s| == 4
  {
    var n := 65536 * b0 + 256 * b1 + b2;
    [Symbol(n / 262144), Symbol(n / 4096 % 64), Symbol(n / 64 % 64), Symbol(n % 64)]
  }

  /** The encoding of any byte string, with one or two padding characters at the end. */
  function Encode(b: seq<Byte>): string {
    if |b| == 0 then ""
    else if |b| == 1 then Group(b[0], 0, 0)[..2] + "=="
    else if |b| == 2 then Group(b[0], b[1], 0)[..3] + "="
    else Group(b[0], b[1], b[2]) + Encode(b[3..])
  }

  function Position(c: char): (p: Option<int>)
    ensures p.Some? ==> 0 <= p.value < 64 && Symbol(p.value) == c
  {
    if 'A' <= c <= 'Z' then Some(c as int - 'A' as int)
    else if 'a' <= c <= 'z' then Some(c as int - 'a' as int + 26)
    else if '0' <= c <= '9' then Some(c as int - '0' as int + 52)
    else if c == '+' then Some(62)
    else if c == '/' then Some(63)
    else None
  }

  /** A strict decoder: alphabet characters in fours, padding only at the very end. */
  function Decode(s: string): Option<seq<Byte>> {
    if |s| == 0 then Some([])
    else if |s| < 4 then None
    else
      var p0, p1, p2, p3 := Position(s[0]), Position(s[1]), Position(s[2]), Position(s[3]);
      if p0 == None || p1 == None then None
      else if s[2..] == "==" then
        if p1.value % 16 != 0 then None else Some([p0.value * 4 + p1.value / 16])
      else if p2 == None then None
      else if s[3..] == "=" then
        if p2.value % 4 != 0 then None
        else Some([p0.value * 4 + p1.value / 16, p1.value % 16 * 16 + p2.value / 4])
      else if p3 == None then None
      else match Decode(s[4..])
        case None => None
        case Some(rest) =>
          Some([p0.value * 4 + p1.value / 16, p1.value % 16 * 16 + p2.value / 4, p2.value % 4 * 64 + p3.value] + rest)
  }

  lemma SymbolPosition(v: int)
    requires 0 <= v < 64
    ensures Position(Symbol(v)) == Some(v) && Symbol(v) != '='
  {
  }

  lemma DecodeOne(b0: Byte)
    ensures Decode(Group(b0, 0, 0)[..2] + "==") == Some([b0])
  {
    hide Group, Position, Symbol;
    GroupDecodes(b0, 0, 0);
    var s := Group(b0, 0, 0)[..2] + "==";
    assert s[2..] == "==";
  }

  lemma DecodeTwo(b0: Byte, b1: Byte)
    ensures Decode(Group(b0, b1, 0)[..3] + "=") == Some([b0, b1])
  {
    hide Group, Position, Symbol;
    GroupDecodes(b0, b1, 0);
    var s := Group(b0, b1, 0)[..3] + "=";
    assert s[2..][0] != '=' && s[3..] == "=";
  }

  /** A full group in front of text that decodes. */
  lemma DecodeFull(b0: Byte, b1: Byte, b2: Byte, text: string, rest: seq<Byte>)
    requires Decode(text) == Some(rest)
    ensures Decode(Group(b0, b1, b2) + text) == Some([b0, b1, b2] + rest)
  {
    hide Group, Position, Symbol;
    GroupDecodes(b0, b1, b2);
    var s := Group(b0, b1, b2) + text;
    assert s[2..][0] != '=' && s[3..][0] != '=' && s[4..] == text;
  }

  /** The decoder undoes the encoder, for byte strings of every length. */
  lemma {:induction false} DecodeEncode(b: seq<Byte>)
    ensures Decode(Encode(b)) == Some(b)
    decreases |b|
  {
    hide Group;
    if b == [] {
    } else if |b| == 1 {
      DecodeOne(b[0]);
      assert b == [b[0]];
    } else if |b| == 2 {
      DecodeTwo(b[0], b[1]);
      assert b == [b[0], b[1]];
    } else {
      DecodeEncode(b[3..]);
      DecodeFull(b[0], b[1], b[2], Encode(b[3..]), b[3..]);
      assert b == [b[0], b[1], b[2]] + b[3..];
    }
  }

  /** Each symbol of a group decodes to its digit, and the digits give the bytes back. */
  lemma GroupDecodes(b0: Byte, b1: Byte, b2: Byte)
    ensures var v0, v1, v2, v3 := b0 / 4, b0 % 4 * 16 + b1 / 16, b1 % 16 * 4 + b2 / 64, b2 % 64;
      && Group(b0, b1, b2) == [Symbol(v0), Symbol(v1), Symbol(v2), Symbol(v3)]
      && Position(Symbol(v0)) == Some(v0) && Position(Symbol(v1)) == Some(v1)
      && Position(Symbol(v2)) == Some(v2) && Position(Symbol(v3)) == Some(v3)
      && Symbol(v2) != '=' && Symbol(v3) != '='
      && v0 * 4 + v1 / 16 == b0 && v1 % 16 * 16 + v2 / 4 == b1 && v2 % 4 * 64 + v3 == b2
      && (b1 == 0 ==> v1 % 16 == 0) && (b2 == 0 ==> v2 % 4 == 0)
  {
    hide Symbol, Position;
    var v0, v1, v2, v3 := b0 / 4, b0 % 4 * 16 + b1 / 16, b1 % 16 * 4 + b2 / 64, b2 % 64;
    GroupDigits(b0, b1, b2);
    SymbolPosition(v0);
    SymbolPosition(v1);
    SymbolPosition(v2);
    SymbolPosition(v3);
    EuclidUnique(v1, 16, b0 % 4, b1 / 16);
    EuclidUnique(v2, 4, b1 % 16, b2 / 64);
  }

  /** The four digits of a group, byte by byte. */
  lemma GroupDigits(b0: Byte, b1: Byte, b2: Byte)
    ensures Group(b0, b1, b2)
      == [Symbol(b0 / 4), Symbol(b0 % 4 * 16 + b1 / 16), Symbol(b1 % 16 * 4 + b2 / 64), Symbol(b2 % 64)]
  {
    hide Symbol;
    var n := 65536 * b0 + 256 * b1 + b2;
    var q0, r0, q1, r1, q2, r2 := b0 / 4, b0 % 4, b1 / 16, b1 % 16, b2 / 64, b2 % 64;
    EuclidUnique(n, 262144, q0, 65536 * r0 + 256 * b1 + b2);
    EuclidUnique(n, 4096, 16 * b0 + q1, 256 * r1 + b2);
    EuclidUnique(16 * b0 + q1, 64, q0, 16 * r0 + q1);
    EuclidUnique(n, 64, 1024 * b0 + 4 * b1 + q2, r2);
    EuclidUnique(1024 * b0 + 4 * b1 + q2, 64, 16 * b0 + q1, 4 * r1 + q2);
  }

  // ---- the encoder of the source ----

  /** Reading past the end of a typed array yields `undefined`, which the operators take as 0. */
  function At(b: seq<Byte>, i: nat): Byte {
    if i < |b| then b[i] else 0
  }

  function FirstDigit(b0: Byte): int { And(Sar(b0, 2), 63) }

  function SecondDigit(b0: Byte, b1: Byte): int { And(Or(Shl(b0, 4), Sar(b1, 4)), 63) }

  function ThirdDigit(b1: Byte, b2: Byte): int { And(Or(Shl(b1, 2), Sar(b2, 6)), 63) }

  function FourthDigit(b2: Byte): int { And(b2, 63) }

  /** The branch-free map from a digit to its character code. */
  function DigitCode(v: int): int {
    v + 65 + And(Sar(25 - v, 8), 6) - And(Sar(51 - v, 8), 75) - And(Sar(61 - v, 8), 15) + And(Sar(62 - v, 8), 3)
  }

  lemma SignMask(x: int, m: int)
    requires -256 <= x < 256 && 0 <= m < 256
    ensures And(Sar(x, 8), m) == if x < 0 then m else 0
  {
    Pow2Values();
  }

  lemma DigitCodeIsSymbol(v: int)
    requires 0 <= v < 64
    ensures DigitCode(v) == Symbol(v) as int
  {
    hide And, Sar;
    SignMask(25 - v, 6);
    SignMask(51 - v, 75);
    SignMask(61 - v, 15);
    SignMask(62 - v, 3);
  }

  lemma SixBits(x: int)
    requires 0 <= x < 0x8000_0000
    ensures And(x, 63) == x % 64
  {
    hide AndBits;
    Pow2Values();
    AndMask(x, 6);
  }

  /** Shifting b up by n and taking the top bits of c below it. */
  lemma JoinBits(b: Byte, c: nat, n: nat)
    requires n <= 6 && c < Pow2(n)
    ensures Or(Shl(b, n), c) == b * Pow2(n) + c
    ensures 0 <= b * Pow2(n) + c < 0x8000_0000
  {
    hide OrBits;
    Pow2Values();
    Pow2Small(n);
    ScaledByte(b, Pow2(n));
    OrDisjoint(b, c, n);
  }

  lemma Pow2Small(n: nat)
    requires n <= 6
    ensures Pow2(n) <= 64
  {
    Pow2Values();
    Pow2Add(n, 6 - n);
    MulBelow(Pow2(n), Pow2(6 - n));
  }

  lemma MulBelow(x: nat, y: nat)
    requires y >= 1
    ensures x <= x * y
  {
    MulNonneg(x, y - 1);
    assert x * y == x + x * (y - 1);
  }

  lemma ScaledByte(b: Byte, p: nat)
    requires p <= 64
    ensures 0 <= b * p <= 255 * 64
  {
    MulNonneg(b, 64 - p);
    MulNonneg(b, p);
    assert b * 64 == b * p + b * (64 - p);
  }

  lemma DigitsOfGroup(b0: Byte, b1: Byte, b2: Byte)
    ensures FirstDigit(b0) == b0 / 4 && SecondDigit(b0, b1) == b0 % 4 * 16 + b1 / 16
    ensures ThirdDigit(b1, b2) == b1 % 16 * 4 + b2 / 64 && FourthDigit(b2) == b2 % 64
  {
    hide And, Or, Shl;
    Pow2Values();
    SixBits(b0 / 4);
    JoinBits(b0, b1 / 16, 4);
    SixBits((b0 as int) * 16 + b1 / 16);
    JoinBits(b1, b2 / 64, 2);
    SixBits((b1 as int) * 4 + b2 / 64);
    SixBits(b2);
    EuclidUnique((b0 as int) * 16 + b1 / 16, 64, b0 / 4, b0 % 4 * 16 + b1 / 16);
    EuclidUnique((b1 as int) * 4 + b2 / 64, 64, b1 / 16, b1 % 16 * 4 + b2 / 64);
  }

  /** `encodeBase64(dest.subarray(to), src)`: writes beyond the end have no effect. */
  method EncodeBase64(dest: array<Byte>, to: nat, src: seq<Byte>)
    requires to <= dest.Length
    modifies dest
    ensures forall k :: 0 <= k < dest.Length && !(to <= k < to + 4) ==> dest[k] == old(dest[k])
    ensures forall k :: to <= k < dest.Length && k < to + 4 ==>
      dest[k] == Group(At(src, 0), At(src, 1), At(src, 2))[k - to] as int
  {
    hide Group, FirstDigit, SecondDigit, ThirdDigit, FourthDigit, DigitCode, Symbol;
    var b0, b1, b2 := At(src, 0), At(src, 1), At(src, 2);
    DigitsOfGroup(b0, b1, b2);
    GroupDigits(b0, b1, b2);
    var input := [FirstDigit(b0), SecondDigit(b0, b1), ThirdDigit(b1, b2), FourthDigit(b2)];
    var i := 0;
    while i < 4
      invariant 0 <= i <= 4
      invariant forall k :: 0 <= k < dest.Length && !(to <= k < to + i) ==> dest[k] == old(dest[k])
      invariant forall k :: to <= k < dest.Length && k < to + i ==> dest[k] == Symbol(input[k - to]) as int
    {
      DigitCodeIsSymbol(input[i]);
      SymbolIsByte(input[i]);
      if to + i < dest.Length {
        dest[to + i] := DigitCode(input[i]);
      }
      i := i + 1;
    }
  }

  lemma SymbolIsByte(v: int)
    requires 0 <= v < 64
    ensures 0 <= Symbol(v) as int < 256
  {
  }

  /** Where the i-th full group and the padded tail stand in the encoding. */
  lemma {:induction false} EncodeLayout(b: seq<Byte>, i: nat)
    requires |b| % 3 == 2
    ensures |Encode(b)| == (|b| / 3 + 1) * 4
    ensures i < |b| / 3 ==> Encode(b)[4 * i..4 * i + 4] == Group(b[3 * i], b[3 * i + 1], b[3 * i + 2])
    ensures i == |b| / 3 ==> Encode(b)[4 * i..] == Group(b[3 * i], b[3 * i + 1], 0)[..3] + "="
    decreases |b|
  {
    hide Group;
    if |b| > 2 {
      var c, j := b[3..], if i > 0 then i - 1 else 0;
      assert |c| % 3 == 2 && |c| / 3 == |b| / 3 - 1;
      EncodeLayout(c, j);
      var g := Group(b[0], b[1], b[2]);
      assert Encode(b) == g + Encode(c);
      if i > 0 {
        if i < |b| / 3 {
          assert Encode(b)[4 * i..4 * i + 4] == Encode(c)[4 * j..4 * j + 4];
        } else if i == |b| / 3 {
          assert Encode(b)[4 * i..] == Encode(c)[4 * j..];
        }
      }
    }
  }

  /** The character code the k-th position holds before the padding is written. */
  function Unpadded(key: seq<Byte>, k: nat): int
    requires |key| == 32 && k < 44
  {
    Group(key[3 * (k / 4)], key[3 * (k / 4) + 1], At(key, 3 * (k / 4) + 2))[k % 4] as int
  }

  lemma UnpaddedEncode(key: seq<Byte>, k: nat)
    requires |key| == 32 && k < 44
    ensures |Encode(key)| == 44
    ensures k < 43 ==> Encode(key)[k] as int == Unpadded(key, k)
    ensures k == 43 ==> Encode(key)[k] == '='
  {
    hide Group;
    var i := k / 4;
    EncodeLayout(key, i);
    if i < 10 {
      assert Encode(key)[k] == Encode(key)[4 * i..4 * i + 4][k % 4];
    } else {
      assert Encode(key)[k] == Encode(key)[4 * i..][k % 4];
    }
  }

  /** The key as 43 alphabet characters and one `=`: its encoding by section 4 of RFC 4648. */
  method KeyToBase64(key: array<Byte>) returns (s: string)
    requires key.Length == 32
    ensures s == Encode(key[..])
  {
    hide Group, Encode;
    var base64 := new Byte[44](_ => 0);
    ghost var bytes := key[..];
    var i := 0;
    while 3 * i < 32
      invariant 0 <= i <= 11
      invariant forall k :: 0 <= k < 4 * i ==> base64[k] == Unpadded(bytes, k)
    {
      var src := key[3 * i..];
      assert At(src, 0) == bytes[3 * i] && At(src, 1) == bytes[3 * i + 1] && At(src, 2) == At(bytes, 3 * i + 2);
      EncodeBase64(base64, 4 * i, src);
      forall k | 4 * i <= k < 4 * i + 4
        ensures base64[k] == Unpadded(bytes, k)
      {
        assert k / 4 == i && k % 4 == k - 4 * i;
      }
      i := i + 1;
    }
    EncodeBase64(base64, 4 * i, [0, 0, 0]);
    base64[43] := 61;
    forall k | 0 <= k < 44
      ensures |Encode(bytes)| == 44 && base64[k] == Encode(bytes)[k] as int
    {
      UnpaddedEncode(bytes, k);
    }
    s := seq(44, k requires 0 <= k < 44 reads base64 => base64[k] as char);
  }

  /** A standard decoder recovers the key. */
  lemma KeyRoundTrip(key: seq<Byte>)
    requires |key| == 32
    ensures Decode(Encode(key)) == Some(key)
    ensures |Encode(key)| == 44 && Encode(key)[43] == '='
    ensures forall k :: 0 <= k < 43 ==> Position(Encode(key)[k]).Some?
  {
    hide Group, Encode, Decode;
    DecodeEncode(key);
    UnpaddedEncode(key, 43);
    forall k | 0 <= k < 43
      ensures Position(Encode(key)[k]).Some?
    {
      UnpaddedEncode(key, k);
      GroupIsAlphabetic(key[3 * (k / 4)], key[3 * (k / 4) + 1], At(key, 3 * (k / 4) + 2), k % 4);
    }
  }

  lemma GroupIsAlphabetic(b0: Byte, b1: Byte, b2: Byte, j: nat)
    requires j < 4
    ensures Position(Group(b0, b1, b2)[j]).Some?
  {
    GroupDecodes(b0, b1, b2);
  }
}
