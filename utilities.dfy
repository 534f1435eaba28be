/** The bit helpers of the Utilities class: bit-field extraction, the ARGB 1-5-5-5
    colour unpacker and the two binary-string formatters. */
module Utilities {
  import opened Bytes

  /** An ARGB colour, each channel an 8-bit value (System.Drawing.Color). */
  datatype Argb = Argb(a: Byte, r: Byte, g: Byte, b: Byte)

  /** GetBits: the count bits of b that start offset bits from the right. The result
      is the count-bit field of b: below it lie the offset low bits, above it the
      bits from offset + count upwards. C# masks shift counts to five bits, hence the bound. */
  function GetBits(b: Byte, offset: nat, count: nat): (r: nat)
    requires offset < 32 && count < 32
    ensures r < Pow2(count)
    ensures b / Pow2(offset) == b / Pow2(offset + count) * Pow2(count) + r
  {
    ShiftShift(b, offset, count);
    (b / Pow2(offset)) % Pow2(count)
  }

  /** The worked example of the GetBits documentation: 00{1101}00 gives 13. */
  lemma GetBitsExample()
    ensures GetBits(0x35, 2, 4) == 13
  {
  }

  /** GetColorFrom2Bytes: the bytes one, two hold A RRRRR GG | GGG BBBBB; each 5-bit
      channel is shifted left by 3 and the alpha bit becomes 0 or 255. Read back, the
      channels reassemble the 16-bit word one * 256 + two. The source's `>= 248` test
      has an empty body and is not represented. */
  function GetColorFrom2Bytes(one: Byte, two: Byte): (c: Argb)
    ensures c.a == 0 || c.a == 255
    ensures c.r % 8 == 0 && c.g % 8 == 0 && c.b % 8 == 0
    ensures c.r <= 248 && c.g <= 248 && c.b <= 248
    ensures one * 256 + two == c.a / 255 * 0x8000 + c.r / 8 * 0x400 + c.g / 8 * 0x20 + c.b / 8
  {
    Pow2Small();
    var r5 := GetBits(one, 2, 5);
    var gHigh := GetBits(one, 0, 2);
    var gLow := GetBits(two, 5, 3);
    var b5 := GetBits(two, 0, 5);
    var a1 := GetBits(one, 7, 1);
    assert one / 256 == 0 && two / 256 == 0;
    assert one == a1 * 128 + r5 * 4 + gHigh;
    assert two == gLow * 32 + b5;
    var r := r5 * 8;
    var g := gHigh * 64 + gLow * 8;
    var b := b5 * 8;
    var a := a1 * 255;
    Argb(a, r, g, b)
  }

  /** The shift-and-mask reading of the diagram over the word v = one * 256 + two:
      red is bits 14..10, green bits 9..5, blue bits 4..0, alpha bit 15. */
  lemma ColorFromWord(one: Byte, two: Byte)
    ensures var v := one * 256 + two;
            var c := GetColorFrom2Bytes(one, two);
            && c.r == v / 0x400 % 32 * 8
            && c.g == v / 0x20 % 32 * 8
            && c.b == v % 32 * 8
            && c.a == v / 0x8000 * 255
  {
    var c := GetColorFrom2Bytes(one, two);
    ChannelMultiples(c);
    WordFields(c.a / 255, c.r / 8, c.g / 8, c.b / 8);
  }

  /** The fields of a word made of an alpha bit and three 5-bit channels. */
  lemma WordFields(a1: nat, r5: nat, g5: nat, b5: nat)
    requires a1 < 2 && r5 < 32 && g5 < 32 && b5 < 32
    ensures var v := a1 * 0x8000 + r5 * 0x400 + g5 * 0x20 + b5;
            v / 0x400 % 32 == r5 && v / 0x20 % 32 == g5 && v % 32 == b5 && v / 0x8000 == a1
  {
    var v := a1 * 0x8000 + r5 * 0x400 + g5 * 0x20 + b5;
    DivModUnique(v, 0x8000, a1, r5 * 0x400 + g5 * 0x20 + b5);
    DivModUnique(v, 0x400, a1 * 32 + r5, g5 * 0x20 + b5);
    DivModUnique(a1 * 32 + r5, 32, a1, r5);
    DivModUnique(v, 0x20, (a1 * 32 + r5) * 32 + g5, b5);
    DivModUnique((a1 * 32 + r5) * 32 + g5, 32, a1 * 32 + r5, g5);
    DivModUnique(v, 32, (a1 * 32 + r5) * 32 + g5, b5);
  }

  /** The inverse of the unpacker: the two bytes that hold an alpha bit and three 5-bit channels. */
  function Pack1555(a1: nat, r5: nat, g5: nat, b5: nat): (bytes: (Byte, Byte))
    requires a1 < 2 && r5 < 32 && g5 < 32 && b5 < 32
    ensures bytes.0 * 256 + bytes.1 == a1 * 0x8000 + r5 * 0x400 + g5 * 0x20 + b5
  {
    (a1 * 128 + r5 * 4 + g5 / 8, g5 % 8 * 32 + b5)
  }

  /** Unpacking packed channels gives each channel shifted left by 3 and the alpha bit times 255. */
  lemma UnpackPack(a1: nat, r5: nat, g5: nat, b5: nat)
    requires a1 < 2 && r5 < 32 && g5 < 32 && b5 < 32
    ensures var (one, two) := Pack1555(a1, r5, g5, b5);
            GetColorFrom2Bytes(one, two) == Argb(a1 * 255, r5 * 8, g5 * 8, b5 * 8)
  {
    var (one, two) := Pack1555(a1, r5, g5, b5);
    var c := GetColorFrom2Bytes(one, two);
    ChannelMultiples(c);
    WordDigitsUnique(c.a / 255, c.r / 8, c.g / 8, c.b / 8, a1, r5, g5, b5);
  }

  /** A colour whose alpha is 0 or 255 and whose channels are multiples of 8 below 256
      is its alpha bit times 255 and its 5-bit channels times 8. */
  lemma ChannelMultiples(c: Argb)
    requires (c.a == 0 || c.a == 255) && c.r % 8 == 0 && c.g % 8 == 0 && c.b % 8 == 0
    ensures c.a / 255 < 2 && c.r / 8 < 32 && c.g / 8 < 32 && c.b / 8 < 32
    ensures c == Argb(c.a / 255 * 255, c.r / 8 * 8, c.g / 8 * 8, c.b / 8 * 8)
  {
  }

  /** The unpacker loses nothing: packing its channels back gives the original bytes. */
  lemma PackUnpack(one: Byte, two: Byte)
    ensures var c := GetColorFrom2Bytes(one, two);
            Pack1555(c.a / 255, c.r / 8, c.g / 8, c.b / 8) == (one, two)
  {
    var c := GetColorFrom2Bytes(one, two);
    ChannelMultiples(c);
    PackDigits(one, two, c.a / 255, c.r / 8, c.g / 8, c.b / 8);
  }

  /** Two bytes whose word is made of given digits are what Pack1555 builds from them. */
  lemma PackDigits(one: Byte, two: Byte, a1: nat, r5: nat, g5: nat, b5: nat)
    requires a1 < 2 && r5 < 32 && g5 < 32 && b5 < 32
    requires one * 256 + two == a1 * 0x8000 + r5 * 0x400 + g5 * 0x20 + b5
    ensures Pack1555(a1, r5, g5, b5) == (one, two)
  {
    var p := Pack1555(a1, r5, g5, b5);
    DivModUnique(one * 256 + two, 256, p.0, p.1);
    DivModUnique(one * 256 + two, 256, one, two);
  }

  lemma WordDigitsUnique(a1: nat, r5: nat, g5: nat, b5: nat, a1': nat, r5': nat, g5': nat, b5': nat)
    requires a1 < 2 && r5 < 32 && g5 < 32 && b5 < 32
    requires a1' < 2 && r5' < 32 && g5' < 32 && b5' < 32
    requires a1 * 0x8000 + r5 * 0x400 + g5 * 0x20 + b5 == a1' * 0x8000 + r5' * 0x400 + g5' * 0x20 + b5'
    ensures a1 == a1' && r5 == r5' && g5 == g5' && b5 == b5'
  {
    var v := a1 * 0x8000 + r5 * 0x400 + g5 * 0x20 + b5;
    DivModUnique(v, 32, a1 * 0x400 + r5 * 32 + g5, b5);
    DivModUnique(v, 32, a1' * 0x400 + r5' * 32 + g5', b5');
    var w := a1 * 0x400 + r5 * 32 + g5;
    DivModUnique(w, 32, a1 * 32 + r5, g5);
    DivModUnique(w, 32, a1' * 32 + r5', g5');
    DivModUnique(a1 * 32 + r5, 32, a1, r5);
    DivModUnique(a1 * 32 + r5, 32, a1', r5');
  }

  /** The digits of u in base 2, most significant first, width digits long. */
  function BinaryDigits(u: nat, width: nat): (s: seq<char>)
    ensures |s| == width
  {
    if width == 0 then [] else BinaryDigits(u / 2, width - 1) + [if u % 2 == 1 then '1' else '0']
  }

  /** The number a string of binary digits denotes, most significant first. */
  function BinaryValue(s: seq<char>): nat
  {
    if s == [] then 0 else 2 * BinaryValue(s[..|s| - 1]) + (if s[|s| - 1] == '1' then 1 else 0)
  }

  /** Reading the digits back gives u reduced to width bits. */
  lemma {:induction false} BinaryDigitsRoundTrip(u: nat, width: nat)
    ensures BinaryValue(BinaryDigits(u, width)) == u % Pow2(width)
  {
    if width > 0 {
      var s := BinaryDigits(u, width);
      assert s[..|s| - 1] == BinaryDigits(u / 2, width - 1);
      BinaryDigitsRoundTrip(u / 2, width - 1);
      ModOfProduct(u, 2, Pow2(width - 1));
    }
  }

  /** Digit i from the right of the string is bit i of u. */
  lemma {:induction false} BinaryDigitAt(u: nat, width: nat, i: nat)
    requires i < width
    ensures BinaryDigits(u, width)[width - 1 - i] == if u / Pow2(i) % 2 == 1 then '1' else '0'
  {
    if i > 0 {
      BinaryDigitAt(u / 2, width - 1, i - 1);
      ShiftShift(u, 1, i - 1);
    }
  }

  /** Whether bit i of n is set: the test `(n & (1 << i)) != 0` on a non-negative n. */
  predicate BitSet(n: nat, i: nat)
  {
    n / Pow2(i) % 2 == 1
  }

  /** Fills a char array of width digits from the last position down, one bit per
      step: digit i from the right is bit i of u, and the digits denote u reduced to width bits. */
  method FillBinaryDigits(u: nat, width: nat) returns (s: seq<char>)
    ensures |s| == width && BinaryValue(s) == u % Pow2(width)
    ensures forall i :: 0 <= i < width ==> (s[width - 1 - i] == '1') == BitSet(u, i)
    ensures forall c :: c in s ==> c == '0' || c == '1'
  {
    var b := new char[width];
    var pos := width - 1;
    var i := 0;
    while i < width
      invariant 0 <= i <= width && pos == width - 1 - i
      invariant forall j :: 0 <= j < i ==> b[width - 1 - j] == if BitSet(u, j) then '1' else '0'
      invariant forall k :: pos < k < width ==> b[k] == '0' || b[k] == '1'
    {
      if BitSet(u, i) {
        b[pos] := '1';
      } else {
        b[pos] := '0';
      }
      pos := pos - 1;
      i := i + 1;
    }
    s := b[..];
    forall k | 0 <= k < width
      ensures s[k] == BinaryDigits(u, width)[k]
    {
      var j := width - 1 - k;
      assert b[width - 1 - j] == if BitSet(u, j) then '1' else '0';
      BinaryDigitAt(u, width, j);
    }
    assert s == BinaryDigits(u, width);
    BinaryDigitsRoundTrip(u, width);
  }

  /** GetIntBinaryString: the 32 bits of an Int32, most significant first; a negative
      n gives its two's complement bits. */
  method GetIntBinaryString(n: int) returns (s: seq<char>)
    requires IsInt32(n)
    ensures |s| == 32
    ensures BinaryValue(s) == n % TWO_32
    ensures forall c :: c in s ==> c == '0' || c == '1'
  {
    var u := n % TWO_32;
    s := FillBinaryDigits(u, 32);
    Pow2Int();
  }

  /** GetInt16BinaryString: the 16 bits of an Int16, most significant first. */
  method GetInt16BinaryString(n: int) returns (s: seq<char>)
    requires IsInt16(n)
    ensures |s| == 16
    ensures BinaryValue(s) == n % TWO_16
    ensures forall c :: c in s ==> c == '0' || c == '1'
  {
    var u := n % TWO_16;
    s := FillBinaryDigits(u, 16);
    Pow2Short();
  }
}
