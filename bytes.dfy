/** Bytes, powers of two, two's complement wrap-around and the little-endian
    layout that BinaryReader.ReadInt32/ReadInt16 and BinaryWriter.Write use. */
module Bytes {

  /** An unsigned 8-bit value (C# `byte`). */
  type Byte = x: int | 0 <= x < 256

  const TWO_15: int := 0x8000
  const TWO_16: int := 0x1_0000
  const TWO_31: int := 0x8000_0000
  const TWO_32: int := 0x1_0000_0000

  predicate IsInt32(x: int) { -TWO_31 <= x < TWO_31 }
  predicate IsInt16(x: int) { -TWO_15 <= x < TWO_15 }

  function Min(a: int, b: int): int { if a <= b then a else b }

  function Pow2(n: nat): (r: nat)
    ensures r >= 1
  {
    if n == 0 then 1 else 2 * Pow2(n - 1)
  }

  function Pow256(n: nat): (r: nat)
    ensures r >= 1
  {
    if n == 0 then 1 else 256 * Pow256(n - 1)
  }

  /** The value an unchecked C# Int32 operation leaves for the exact result x. */
  function Wrap32(x: int): (r: int)
    ensures IsInt32(r)
    ensures (x - r) % TWO_32 == 0
    ensures IsInt32(x) ==> r == x
  {
    var m := (x + TWO_31) % TWO_32;
    DivModUnique(x + TWO_31, TWO_32, (x + TWO_31) / TWO_32, m);
    m - TWO_31
  }

  /** The value a C# `(short)` cast leaves for x. */
  function Wrap16(x: int): (r: int)
    ensures IsInt16(r)
    ensures (x - r) % TWO_16 == 0
    ensures IsInt16(x) ==> r == x
  {
    var m := (x + TWO_15) % TWO_16;
    DivModUnique(x + TWO_15, TWO_16, (x + TWO_15) / TWO_16, m);
    m - TWO_15
  }

  /** Division truncating toward zero, as C#'s `/` on Int32 does: the remainder
      a - q * d has the sign of the dividend and is smaller than the divisor. */
  function TruncDiv(a: int, d: int): (q: int)
    requires d > 0
    ensures a >= 0 ==> 0 <= a - q * d < d
    ensures a < 0 ==> -d < a - q * d <= 0
  {
    if a >= 0 then a / d else -((-a) / d)
  }

  /** For a non-negative dividend the truncating quotient is the floor quotient. */
  lemma TruncDivOfNonNegative(a: int, d: int)
    requires a >= 0 && d > 0
    ensures TruncDiv(a, d) == a / d
  {
    var q := TruncDiv(a, d);
    DivModUnique(a, d, q, a - q * d);
  }

  /** Truncation is symmetric about zero: negating the dividend negates the quotient. */
  lemma TruncDivNegate(a: int, d: int)
    requires d > 0
    ensures TruncDiv(-a, d) == -TruncDiv(a, d)
  {
  }

  /** Unsigned little-endian value of a byte sequence: s[0] is the least significant byte. */
  function LeValue(s: seq<Byte>): (r: nat)
    ensures r < Pow256(|s|)
  {
    if s == [] then 0 else s[0] + 256 * LeValue(s[1..])
  }

  /** BinaryReader.ReadInt32 over four bytes: little-endian two's complement. */
  function Int32Of(s: seq<Byte>): (r: int)
    requires |s| == 4
    ensures IsInt32(r)
    ensures (LeValue(s) - r) % TWO_32 == 0
  {
    Wrap32(LeValue(s))
  }

  /** BinaryReader.ReadInt16 over two bytes: little-endian two's complement. */
  function Int16Of(s: seq<Byte>): (r: int)
    requires |s| == 2
    ensures IsInt16(r)
    ensures (LeValue(s) - r) % TWO_16 == 0
  {
    Wrap16(LeValue(s))
  }

  /** The n low-order bytes of v, least significant first. */
  function LeBytes(v: nat, n: nat): (r: seq<Byte>)
    ensures |r| == n
    ensures LeValue(r) == v % Pow256(n)
  {
    if n == 0 then []
    else
      var rest := LeBytes(v / 256, n - 1);
      assert LeValue([v % 256] + rest) == v % 256 + 256 * LeValue(rest) by {
        assert ([v % 256] + rest)[1..] == rest;
      }
      ModOfProduct(v, 256, Pow256(n - 1));
      [v % 256] + rest
  }

  /** BinaryWriter.Write(Int32): four bytes, little-endian. */
  function EncodeInt32(v: int): (r: seq<Byte>)
    ensures |r| == 4
  {
    LeBytes(v % TWO_32, 4)
  }

  /** BinaryWriter.Write((short)v): the low 16 bits, little-endian. */
  function EncodeInt16(v: int): (r: seq<Byte>)
    ensures |r| == 2
  {
    LeBytes(v % TWO_16, 2)
  }

  /** Reading back a written Int32 gives the value written. */
  lemma Int32RoundTrip(v: int)
    requires IsInt32(v)
    ensures Int32Of(EncodeInt32(v)) == v
  {
    Pow256Words();
    var u := v % TWO_32;
    assert LeValue(EncodeInt32(v)) == u % Pow256(4);
    ModIsResidue(v, TWO_32);
    WrapUnique32(u, v);
  }

  /** Reading back a written short gives the value of the `(short)` cast. */
  lemma Int16RoundTrip(v: int)
    ensures Int16Of(EncodeInt16(v)) == Wrap16(v)
  {
    Pow256Words();
    var u := v % TWO_16;
    assert LeValue(EncodeInt16(v)) == u % Pow256(2);
    var w := Wrap16(v);
    ModIsResidue(v, TWO_16);
    CongruentTrans(u, v, w, TWO_16);
    WrapUnique16(u, w);
  }

  lemma Pow256Words()
    ensures Pow256(2) == TWO_16 && Pow256(4) == TWO_32
  {
  }

  /** x % m differs from x by a multiple of m. */
  lemma ModIsResidue(x: int, m: int)
    requires m > 0
    ensures (x % m - x) % m == 0
  {
    DivModUnique(x % m - x, m, -(x / m), 0);
  }

  lemma CongruentTrans(a: int, b: int, c: int, m: int)
    requires m > 0
    requires (a - b) % m == 0 && (b - c) % m == 0
    ensures (a - c) % m == 0
  {
    var p := (a - b) / m;
    var q := (b - c) / m;
    assert a - c == (p + q) * m;
    DivModUnique(a - c, m, p + q, 0);
  }

  /** Wrap32 is determined by the residue of its argument. */
  lemma WrapUnique32(x: int, r: int)
    requires IsInt32(r) && (x - r) % TWO_32 == 0
    ensures Wrap32(x) == r
  {
    var w := Wrap32(x);
    assert (x - w) % TWO_32 == 0;
    var p := (x - r) / TWO_32;
    var q := (x - w) / TWO_32;
    assert r - w == (q - p) * TWO_32;
  }

  lemma WrapUnique16(x: int, r: int)
    requires IsInt16(r) && (x - r) % TWO_16 == 0
    ensures Wrap16(x) == r
  {
    var w := Wrap16(x);
    var p := (x - r) / TWO_16;
    var q := (x - w) / TWO_16;
    assert r - w == (q - p) * TWO_16;
  }

  /** Numbers that differ by a multiple of m leave the same remainder. */
  lemma SameResidue(a: int, b: int, m: int)
    requires m > 0 && (a - b) % m == 0
    ensures a % m == b % m
  {
    var k := (a - b) / m;
    assert a - b == k * m;
    assert a == (b / m + k) * m + b % m;
    DivModUnique(a, m, b / m + k, b % m);
  }

  /** Writing an Int32 or a short depends only on the low 32 or 16 bits of the value. */
  lemma EncodeWrapped(x: int)
    ensures EncodeInt32(Wrap32(x)) == EncodeInt32(x)
    ensures EncodeInt16(Wrap16(x)) == EncodeInt16(x)
  {
    SameResidue(x, Wrap32(x), TWO_32);
    SameResidue(x, Wrap16(x), TWO_16);
  }

  /** Quotient and remainder are determined by n == q * d + r with 0 <= r < d. */
  lemma DivModUnique(n: int, d: int, q: int, r: int)
    requires d > 0 && 0 <= r < d && n == q * d + r
    ensures n / d == q && n % d == r
  {
    var q' := n / d;
    assert n == q' * d + n % d;
    if q' < q {
      MulMonotone(d, q' + 1, q);
    } else if q < q' {
      MulMonotone(d, q + 1, q');
    }
  }

  lemma MulMonotone(d: int, a: int, b: int)
    requires d >= 0 && a <= b
    ensures a * d <= b * d
  {
    assert b * d - a * d == (b - a) * d;
  }

  /** Dividing by a and then by b is dividing by a * b. */
  lemma DivDiv(x: nat, a: nat, b: nat)
    requires a > 0 && b > 0
    ensures x / a / b == x / (a * b)
  {
    var q := x / a;
    DigitSplit(x, a, b);
    DivModUnique(x, a * b, q / b, a * (q % b) + x % a);
  }

  /** The residue modulo a * b splits into the residue modulo a and the next digit. */
  lemma ModOfProduct(x: nat, a: nat, b: nat)
    requires a > 0 && b > 0
    ensures x % (a * b) == x % a + a * ((x / a) % b)
  {
    var q := x / a;
    DigitSplit(x, a, b);
    DivModUnique(x, a * b, q / b, a * (q % b) + x % a);
  }

  /** x written in the mixed radix (a, b): x == (a * b) * hi + (a * mid + lo). */
  lemma DigitSplit(x: nat, a: nat, b: nat)
    requires a > 0 && b > 0
    ensures x == (a * b) * (x / a / b) + (a * ((x / a) % b) + x % a)
    ensures 0 <= a * ((x / a) % b) + x % a < a * b
  {
    var q, lo := x / a, x % a;
    var hi, mid := q / b, q % b;
    assert x == a * q + lo;
    assert q == b * hi + mid;
    assert a * q == (a * b) * hi + a * mid by {
      assert a * (b * hi + mid) == a * (b * hi) + a * mid;
      assert a * (b * hi) == (a * b) * hi;
    }
    MulMonotone(a, mid, b - 1);
    assert (b - 1) * a == a * b - a;
  }

  lemma {:induction false} Pow2Add(a: nat, b: nat)
    ensures Pow2(a) * Pow2(b) == Pow2(a + b)
  {
    if b > 0 {
      Pow2Add(a, b - 1);
      assert Pow2(a + b) == 2 * Pow2(a + b - 1);
    }
  }

  lemma Pow2Small()
    ensures Pow2(0) == 1 && Pow2(1) == 2 && Pow2(2) == 4 && Pow2(3) == 8 && Pow2(4) == 16
    ensures Pow2(5) == 32 && Pow2(6) == 64 && Pow2(7) == 128 && Pow2(8) == 256
  {
  }

  lemma Pow2Short()
    ensures Pow2(16) == TWO_16
  {
    assert Pow2(8) == 256;
    Pow2Add(8, 8);
  }

  lemma Pow2Int()
    ensures Pow2(32) == TWO_32
  {
    Pow2Short();
    Pow2Add(16, 16);
  }

  /** Shifting right by a and then by b is shifting right by a + b. */
  lemma ShiftShift(x: nat, a: nat, b: nat)
    ensures x / Pow2(a) / Pow2(b) == x / Pow2(a + b)
  {
    DivDiv(x, Pow2(a), Pow2(b));
    Pow2Add(a, b);
  }

  /** The bytes of an ASCII literal. */
  function Ascii(s: string): (r: seq<Byte>)
    requires forall i :: 0 <= i < |s| ==> s[i] as int < 256
    ensures |r| == |s|
    ensures forall i :: 0 <= i < |s| ==> r[i] == s[i] as int
  {
    seq(|s|, i requires 0 <= i < |s| => s[i] as int)
  }
}
