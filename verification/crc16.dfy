/**
  `crc16_ccitt` of the Habitat upload helpers: the CRC-16 parameter set
  crcmod calls `crc-ccitt-false` (initial value 0xFFFF, polynomial 0x1021,
  most significant bit first, no reflection, no final XOR), rendered the
  way the source renders it: `hex(crc)[2:].upper().zfill(4)`.
*/
module Crc16 {
  import opened Wrappers

  type Byte = bv8

  const Init: bv16 := 0xFFFF
  const Poly: bv16 := 0x1021

  /** One shift of the CRC register, folding in the polynomial when the top bit falls out. */
  function ShiftBit(crc: bv16): bv16
  {
    if crc & 0x8000 != 0 then (crc << 1) ^ Poly else crc << 1
  }

  /** `n` shifts of the register, one per bit fed; the inner loop of `ComputeCrc` counts these. */
  function ShiftBits(crc: bv16, n: nat): bv16
  {
    if n == 0 then crc else ShiftBit(ShiftBits(crc, n - 1))
  }

  /**
    `ShiftBits(crc, 8)` written out without recursion, so that the solver
    treats a byte step as one bit-vector term; `ShiftBitsEight` proves the
    two forms agree.
  */
  function Shift8(crc: bv16): bv16
  {
    ShiftBit(ShiftBit(ShiftBit(ShiftBit(ShiftBit(ShiftBit(ShiftBit(ShiftBit(crc))))))))
  }

  lemma ShiftBitsEight(crc: bv16)
    ensures ShiftBits(crc, 8) == Shift8(crc)
  {
    assert ShiftBits(crc, 1) == ShiftBit(crc);
    assert ShiftBits(crc, 2) == ShiftBit(ShiftBit(crc));
    assert ShiftBits(crc, 4) == ShiftBit(ShiftBit(ShiftBits(crc, 2)));
    assert ShiftBits(crc, 6) == ShiftBit(ShiftBit(ShiftBits(crc, 4)));
  }

  /** Feed one byte, high bit first: XOR it into the top of the register, then shift eight times. */
  function UpdateByte(crc: bv16, b: Byte): bv16
  {
    Shift8(crc ^ ((b as bv16) << 8))
  }

  /** The register after feeding `data` to a register holding `seed`. */
  function CrcFrom(seed: bv16, data: seq<Byte>): bv16
  {
    if |data| == 0 then seed
    else UpdateByte(CrcFrom(seed, data[..|data| - 1]), data[|data| - 1])
  }

  /** The checksum proper: no final XOR. */
  function Crc(data: seq<Byte>): bv16
  {
    CrcFrom(Init, data)
  }

  /** Feeding two pieces one after the other is feeding their concatenation. */
  lemma {:induction false} CrcFromConcat(seed: bv16, a: seq<Byte>, b: seq<Byte>)
    ensures CrcFrom(seed, a + b) == CrcFrom(CrcFrom(seed, a), b)
    decreases |b|
  {
    if |b| > 0 {
      var ab := a + b;
      assert ab[..|ab| - 1] == a + b[..|b| - 1];
      assert ab[|ab| - 1] == b[|b| - 1];
      CrcFromConcat(seed, a, b[..|b| - 1]);
    } else {
      assert a + b == a;
    }
  }

  /**
    The bitwise algorithm as a loop over the bytes and, inside, over the
    eight bits of each byte; it computes `Crc`.
  */
  method ComputeCrc(data: seq<Byte>) returns (crc: bv16)
    ensures crc == Crc(data)
  {
    crc := Init;
    var i := 0;
    while i < |data|
      invariant 0 <= i <= |data|
      invariant crc == CrcFrom(Init, data[..i])
    {
      crc := crc ^ ((data[i] as bv16) << 8);
      ghost var start := crc;
      var k := 0;
      while k < 8
        invariant 0 <= k <= 8
        invariant crc == ShiftBits(start, k)
      {
        if crc & 0x8000 != 0 {
          crc := (crc << 1) ^ Poly;
        } else {
          crc := crc << 1;
        }
        k := k + 1;
      }
      ShiftBitsEight(start);
      assert data[..i + 1][..i] == data[..i];
      i := i + 1;
    }
    assert data[..|data|] == data;
  }

  /** The high and low bytes of a register value. */
  function HighByte(c: bv16): Byte { (c >> 8) as Byte }
  function LowByte(c: bv16): Byte { (c & 0xFF) as Byte }

  lemma ResidueStep(c: bv16)
    ensures UpdateByte(UpdateByte(c, HighByte(c)), LowByte(c)) == 0
  {
  }

  /**
    A message followed by its own checksum, high byte first, leaves the
    register at zero: the standard receiver-side test of this CRC.
  */
  lemma CrcResidue(data: seq<Byte>)
    ensures Crc(data + [HighByte(Crc(data)), LowByte(Crc(data))]) == 0
  {
    var c := Crc(data);
    CrcFromConcat(Init, data, [HighByte(c), LowByte(c)]);
    var two := [HighByte(c), LowByte(c)];
    assert two[..1] == [HighByte(c)];
    assert [HighByte(c)][..0] == [];
    assert CrcFrom(c, [HighByte(c)]) == UpdateByte(c, HighByte(c));
    assert CrcFrom(c, two) == UpdateByte(UpdateByte(c, HighByte(c)), LowByte(c));
    ResidueStep(c);
  }

  /** The catalogue check value of `crc-ccitt-false`: CRC of ASCII "123456789" is 0x29B1. */
  lemma CheckValue()
    ensures Crc([]) == 0xFFFF
    ensures Crc([0x31, 0x32, 0x33, 0x34, 0x35, 0x36, 0x37, 0x38, 0x39]) == 0x29B1
  {
    var d: seq<Byte> := [0x31, 0x32, 0x33, 0x34, 0x35, 0x36, 0x37, 0x38, 0x39];
    assert UpdateByte(0xFFFF, 0x31) == 0xC782;
    assert UpdateByte(0xC782, 0x32) == 0x3DBA;
    assert UpdateByte(0x3DBA, 0x33) == 0x5BCE;
    assert UpdateByte(0x5BCE, 0x34) == 0x5349;
    assert UpdateByte(0x5349, 0x35) == 0x4560;
    assert UpdateByte(0x4560, 0x36) == 0x2EF4;
    assert UpdateByte(0x2EF4, 0x37) == 0x7718;
    assert UpdateByte(0x7718, 0x38) == 0xA12B;
    assert UpdateByte(0xA12B, 0x39) == 0x29B1;
    assert d[..0] == [];
    assert d[..1][..0] == [];
    assert d[..2][..1] == d[..1];
    assert d[..3][..2] == d[..2];
    assert d[..4][..3] == d[..3];
    assert d[..5][..4] == d[..4];
    assert d[..6][..5] == d[..5];
    assert d[..7][..6] == d[..6];
    assert d[..8][..7] == d[..7];
    assert d[..9] == d;
    assert CrcFrom(Init, d[..1]) == 0xC782;
    assert CrcFrom(Init, d[..2]) == 0x3DBA;
    assert CrcFrom(Init, d[..3]) == 0x5BCE;
    assert CrcFrom(Init, d[..4]) == 0x5349;
    assert CrcFrom(Init, d[..5]) == 0x4560;
    assert CrcFrom(Init, d[..6]) == 0x2EF4;
    assert CrcFrom(Init, d[..7]) == 0x7718;
    assert CrcFrom(Init, d[..8]) == 0xA12B;
  }

  const LowerDigits: string := "0123456789abcdef"
  const UpperDigits: string := "0123456789ABCDEF"

  /** An upper-case hexadecimal digit, as `crc16_ccitt` emits them. */
  predicate IsHexDigit(c: char)
  {
    '0' <= c <= '9' || 'A' <= c <= 'F'
  }

  /** `hex(n)[2:]`: lower-case digits, no leading zeros, "0" for zero. */
  function HexLower(n: nat): (s: string)
    ensures |s| >= 1
  {
    if n < 16 then [LowerDigits[n]] else HexLower(n / 16) + [LowerDigits[n % 16]]
  }

  function UpperChar(c: char): char
  {
    if 'a' <= c <= 'z' then (c as int - 32) as char else c
  }

  /** `str.upper()` on ASCII text. */
  function ToUpper(s: string): (u: string)
    ensures |u| == |s|
  {
    if |s| == 0 then [] else ToUpper(s[..|s| - 1]) + [UpperChar(s[|s| - 1])]
  }

  function Zeros(n: nat): (z: string)
    ensures |z| == n
  {
    if n == 0 then [] else Zeros(n - 1) + ['0']
  }

  /** `str.zfill(width)` on a string without a sign. */
  function ZFill(s: string, width: nat): (z: string)
    ensures |z| == if |s| < width then width else |s|
  {
    if |s| < width then Zeros(width - |s|) + s else s
  }

  /** `hex(n)[2:].upper().zfill(4)`. */
  function Render4(n: nat): string
  {
    ZFill(ToUpper(HexLower(n)), 4)
  }

  /** For a 16-bit value the rendering is four upper-case digits that read back to it. */
  lemma Render4Sound(n: nat)
    requires n < 0x1_0000
    ensures |Render4(n)| == 4
    ensures forall i :: 0 <= i < 4 ==> IsHexDigit(Render4(n)[i])
    ensures ParseHex(Render4(n)) == Some(n)
  {
    assert Pow16(4) == 0x1_0000 by {
      assert Pow16(1) == 16;
      assert Pow16(2) == 256;
      assert Pow16(3) == 4096;
    }
    HexLowerShort(n, 4);
    var u := ToUpper(HexLower(n));
    HexUpperRoundTrip(n);
    var m := 4 - |u|;
    ZerosParse(m, u);
    var r := Zeros(m) + u;
    assert Render4(n) == r;
    forall i | 0 <= i < 4 ensures IsHexDigit(r[i]) {
      if i < m {
        ZerosAreZero(m, i);
        assert r[i] == Zeros(m)[i];
        assert UpperDigits[0] == '0';
      } else {
        assert r[i] == u[i - m];
      }
    }
  }

  lemma {:induction false} ZerosAreZero(m: nat, i: nat)
    requires i < m
    ensures Zeros(m)[i] == '0'
  {
    if i < m - 1 {
      ZerosAreZero(m - 1, i);
      assert Zeros(m)[i] == Zeros(m - 1)[i];
    }
  }

  /** `crc16_ccitt(data)`: the checksum as text. */
  function CrcHex(data: seq<Byte>): (h: string)
    ensures |h| == 4
    ensures forall i :: 0 <= i < |h| ==> IsHexDigit(h[i])
    ensures ParseHex(h) == Some(Crc(data) as nat)
  {
    Render4Sound(Crc(data) as nat);
    Render4(Crc(data) as nat)
  }

  function DigitValue(c: char): Option<nat>
  {
    if '0' <= c <= '9' then Some(c as int - '0' as int)
    else if 'A' <= c <= 'F' then Some(c as int - 'A' as int + 10)
    else None
  }

  /** Reading an upper-case hex numeral back; `None` on any other character. */
  function ParseHex(s: string): Option<nat>
  {
    if |s| == 0 then Some(0)
    else match (ParseHex(s[..|s| - 1]), DigitValue(s[|s| - 1]))
      case (Some(v), Some(d)) => Some(v * 16 + d)
      case _ => None
  }

  function Pow16(k: nat): nat
  {
    if k == 0 then 1 else 16 * Pow16(k - 1)
  }

  lemma {:induction false} HexLowerShort(n: nat, k: nat)
    requires 1 <= k && n < Pow16(k)
    ensures |HexLower(n)| <= k
  {
    if n >= 16 {
      assert k >= 2;
      HexLowerShort(n / 16, k - 1);
    }
  }

  lemma DigitRoundTrip(d: nat)
    requires d < 16
    ensures UpperChar(LowerDigits[d]) == UpperDigits[d]
    ensures IsHexDigit(UpperDigits[d])
    ensures DigitValue(UpperDigits[d]) == Some(d)
  {
  }

  /** `ToUpper` works character by character, so it distributes over appending one. */
  lemma ToUpperSnoc(p: string, c: char)
    ensures ToUpper(p + [c]) == ToUpper(p) + [UpperChar(c)]
  {
    assert (p + [c])[..|p|] == p;
  }

  lemma HexUpperSmall(n: nat)
    requires n < 16
    ensures ToUpper(HexLower(n)) == [UpperDigits[n]]
  {
    DigitRoundTrip(n);
    ToUpperSnoc([], LowerDigits[n]);
  }

  lemma HexUpperLarge(n: nat)
    requires n >= 16
    ensures ToUpper(HexLower(n)) == ToUpper(HexLower(n / 16)) + [UpperDigits[n % 16]]
  {
    DigitRoundTrip(n % 16);
    ToUpperSnoc(HexLower(n / 16), LowerDigits[n % 16]);
  }

  /** Upper-cased `hex()` output consists of hexadecimal digits. */
  lemma {:induction false} HexUpperDigits(n: nat)
    ensures forall i :: 0 <= i < |HexLower(n)| ==> IsHexDigit(ToUpper(HexLower(n))[i])
  {
    DigitRoundTrip(n % 16);
    if n < 16 {
      HexUpperSmall(n);
    } else {
      var p := ToUpper(HexLower(n / 16));
      var u := ToUpper(HexLower(n));
      HexUpperDigits(n / 16);
      HexUpperLarge(n);
      forall i | 0 <= i < |u| ensures IsHexDigit(u[i]) {
        if i < |p| { assert u[i] == p[i]; }
      }
    }
  }

  lemma ParseHexSnoc(p: string, c: char)
    ensures ParseHex(p + [c]) ==
      if ParseHex(p).Some? && DigitValue(c).Some? then Some(ParseHex(p).value * 16 + DigitValue(c).value)
      else None
  {
    assert (p + [c])[..|p|] == p;
  }

  /** Upper-cased `hex()` output reads back to the number it renders. */
  lemma {:induction false} HexUpperValue(n: nat)
    ensures ParseHex(ToUpper(HexLower(n))) == Some(n)
  {
    if n < 16 {
      HexUpperValueDigit(n);
    } else {
      HexUpperValue(n / 16);
      HexUpperValueStep(n, ToUpper(HexLower(n / 16)));
    }
  }

  lemma HexUpperValueDigit(n: nat)
    requires n < 16
    ensures ParseHex(ToUpper(HexLower(n))) == Some(n)
  {
    DigitRoundTrip(n);
    HexUpperSmall(n);
    ParseHexDigitAppended([], UpperDigits[n], 0, n);
    assert [] + [UpperDigits[n]] == [UpperDigits[n]];
  }

  lemma HexUpperValueStep(n: nat, p: string)
    requires n >= 16 && p == ToUpper(HexLower(n / 16)) && ParseHex(p) == Some(n / 16)
    ensures ParseHex(ToUpper(HexLower(n))) == Some(n)
  {
    var c := UpperDigits[n % 16];
    HexUpperLarge(n);
    DigitRoundTrip(n % 16);
    ParseHexDigitAppended(p, c, n / 16, n % 16);
    DivMod16(n);
  }

  lemma DivMod16(n: nat)
    ensures (n / 16) * 16 + n % 16 == n
  {
  }

  lemma ParseHexDigitAppended(p: string, c: char, v: nat, d: nat)
    requires ParseHex(p) == Some(v) && DigitValue(c) == Some(d)
    ensures ParseHex(p + [c]) == Some(v * 16 + d)
  {
    ParseHexSnoc(p, c);
  }

  lemma HexUpperRoundTrip(n: nat)
    ensures forall i :: 0 <= i < |HexLower(n)| ==> IsHexDigit(ToUpper(HexLower(n))[i])
    ensures ParseHex(ToUpper(HexLower(n))) == Some(n)
  {
    HexUpperDigits(n);
    HexUpperValue(n);
  }

  /** Leading zeros do not change the value read back. */
  lemma {:induction false} ZerosParse(m: nat, s: string)
    ensures ParseHex(Zeros(m) + s) == ParseHex(s)
    decreases |s|, m
  {
    if |s| == 0 {
      assert Zeros(m) + s == Zeros(m);
      if m > 0 {
        ZerosParse(m - 1, []);
        assert Zeros(m)[..m - 1] == Zeros(m - 1) + [];
      }
    } else {
      var zs := Zeros(m) + s;
      assert zs[..|zs| - 1] == Zeros(m) + s[..|s| - 1];
      assert zs[|zs| - 1] == s[|s| - 1];
      ZerosParse(m, s[..|s| - 1]);
    }
  }

  /** `crc16_ccitt("")` is "FFFF" and `crc16_ccitt("123456789")` is "29B1". */
  lemma CrcHexCheckValues()
    ensures CrcHex([]) == "FFFF"
    ensures CrcHex([0x31, 0x32, 0x33, 0x34, 0x35, 0x36, 0x37, 0x38, 0x39]) == "29B1"
  {
    CheckValue();
    assert ParseHex("FFFF") == Some(0xFFFF) by {
      assert "FFFF"[..3] == "FFF" && "FFF"[..2] == "FF" && "FF"[..1] == "F" && "F"[..0] == "";
    }
    assert ParseHex("29B1") == Some(0x29B1) by {
      assert "29B1"[..3] == "29B" && "29B"[..2] == "29" && "29"[..1] == "2" && "2"[..0] == "";
    }
    CrcHexOfValue([], "FFFF");
    CrcHexOfValue([0x31, 0x32, 0x33, 0x34, 0x35, 0x36, 0x37, 0x38, 0x39], "29B1");
  }

  /** The rendered checksum is the one four-digit numeral with the checksum's value. */
  lemma CrcHexOfValue(data: seq<Byte>, t: string)
    requires |t| == 4 && forall i :: 0 <= i < |t| ==> IsHexDigit(t[i])
    requires ParseHex(t) == Some(Crc(data) as nat)
    ensures CrcHex(data) == t
  {
    HexDigitsDetermined(CrcHex(data), t);
  }

  lemma DigitValueInjective(a: char, b: char)
    requires IsHexDigit(a) && IsHexDigit(b)
    ensures DigitValue(a).Some? && DigitValue(a).value < 16
    ensures DigitValue(a) == DigitValue(b) ==> a == b
  {
  }

  /** Equal-length upper-case numerals with the same value are the same text. */
  lemma {:induction false} HexDigitsDetermined(s: string, t: string)
    requires |s| == |t|
    requires forall i :: 0 <= i < |s| ==> IsHexDigit(s[i])
    requires forall i :: 0 <= i < |t| ==> IsHexDigit(t[i])
    requires ParseHex(s) == ParseHex(t)
    ensures s == t
  {
    if |s| > 0 {
      var n := |s|;
      DigitValueInjective(s[n - 1], t[n - 1]);
      DigitValueInjective(t[n - 1], s[n - 1]);
      HexDigitsParse(s[..n - 1]);
      HexDigitsParse(t[..n - 1]);
      Base16Unique(ParseHex(s[..n - 1]).value, DigitValue(s[n - 1]).value,
                   ParseHex(t[..n - 1]).value, DigitValue(t[n - 1]).value);
      HexDigitsDetermined(s[..n - 1], t[..n - 1]);
      assert s == s[..n - 1] + [s[n - 1]];
      assert t == t[..n - 1] + [t[n - 1]];
    }
  }

  lemma Base16Unique(v1: nat, d1: nat, v2: nat, d2: nat)
    requires d1 < 16 && d2 < 16 && v1 * 16 + d1 == v2 * 16 + d2
    ensures v1 == v2 && d1 == d2
  {
  }

  lemma {:induction false} HexDigitsParse(s: string)
    requires forall i :: 0 <= i < |s| ==> IsHexDigit(s[i])
    ensures ParseHex(s).Some?
  {
    if |s| > 0 {
      HexDigitsParse(s[..|s| - 1]);
      DigitValueInjective(s[|s| - 1], s[|s| - 1]);
    }
  }
}
