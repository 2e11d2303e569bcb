/** How the Java generator writes Slice constant literals: a byte constant
    becomes a Java byte, and a universal character name in a string
    constant becomes a Java escape, with a surrogate pair above U+FFFF. */
module Constants {

  // ---------------------------------------------------------------------
  // Byte constants
  // ---------------------------------------------------------------------

  /** A Slice byte (0..255) as a Java byte (-128..127): values above 127
      lose 256. */
  function JavaByte(i: int): (r: int)
    ensures 0 <= i <= 255 ==> -128 <= r <= 127
    ensures (r - i) % 256 == 0
    ensures 0 <= i <= 127 ==> r == i
  {
    if i > 127 then i - 256 else i
  }

  /** Different Slice bytes give different Java bytes. */
  lemma JavaByteInjective(i: int, j: int)
    requires 0 <= i <= 255 && 0 <= j <= 255 && i != j
    ensures JavaByte(i) != JavaByte(j)
  {
  }

  // ---------------------------------------------------------------------
  // u16CodePoint
  // ---------------------------------------------------------------------

  /** A lower-case hexadecimal digit, as the stream writes it. */
  function HexDigit(d: nat): (c: char)
    requires d < 16
    ensures IsHexDigit(c) && DigitValue(c) == d
  {
    if d < 10 then ('0' as int + d) as char else ('a' as int + d - 10) as char
  }

  predicate IsHexDigit(c: char)
  {
    '0' <= c <= '9' || 'a' <= c <= 'f'
  }

  function DigitValue(c: char): nat
    requires IsHexDigit(c)
  {
    if c <= '9' then c as int - '0' as int else c as int - 'a' as int + 10
  }

  /** The value of a string of hexadecimal digits. */
  function HexValue(s: string): nat
    requires forall k | 0 <= k < |s| :: IsHexDigit(s[k])
    decreases |s|
  {
    if s == [] then 0 else HexValue(s[..|s| - 1]) * 16 + DigitValue(s[|s| - 1])
  }

  /** n in hexadecimal, without leading zeros ("0" for zero). */
  function ToHex(n: nat): (s: string)
    ensures 0 < |s|
    ensures forall k | 0 <= k < |s| :: IsHexDigit(s[k])
    ensures n < 0x100 ==> |s| <= 2
    ensures n < 0x1000 ==> |s| <= 3
    ensures n < 0x10000 ==> |s| <= 4
  {
    if n < 16 then [HexDigit(n)] else ToHex(n / 16) + [HexDigit(n % 16)]
  }

  /** The digits read back give the number. */
  lemma {:induction false} HexValueToHex(n: nat)
    ensures HexValue(ToHex(n)) == n
  {
    var s := ToHex(n);
    if n >= 16 {
      HexValueToHex(n / 16);
      assert s[..|s| - 1] == ToHex(n / 16);
    }
  }

  /** Leading zeros add nothing to the value. */
  lemma {:induction false} HexValueZeros(z: nat, s: string)
    requires forall k | 0 <= k < |s| :: IsHexDigit(s[k])
    ensures var t := Zeros(z) + s;
      (forall k | 0 <= k < |t| :: IsHexDigit(t[k])) && HexValue(t) == HexValue(s)
    decreases |s|
  {
    var t := Zeros(z) + s;
    if s == [] {
      assert t == Zeros(z);
      ZerosValue(z);
    } else {
      var init := s[..|s| - 1];
      HexValueZeros(z, init);
      assert t[..|t| - 1] == Zeros(z) + init;
    }
  }

  function Zeros(z: nat): (r: string)
    ensures |r| == z && forall k | 0 <= k < z :: r[k] == '0'
  {
    seq(z, _ => '0')
  }

  lemma {:induction false} ZerosValue(z: nat)
    ensures HexValue(Zeros(z)) == 0
  {
    if z > 0 {
      assert Zeros(z)[..z - 1] == Zeros(z - 1);
      ZerosValue(z - 1);
    }
  }

  /** u16CodePoint: "\u" and the value in hexadecimal, filled with '0' to a
      width of four. */
  function U16CodePoint(value: nat): (r: string)
    requires value < 0x10000
    ensures |r| == 6 && r[..2] == "\\u"
    ensures forall k | 2 <= k < 6 :: IsHexDigit(r[k])
  {
    var digits := ToHex(value);
    "\\u" + Zeros(4 - |digits|) + digits
  }

  /** The four digits of u16CodePoint read back give the value. */
  lemma U16CodePointValue(value: nat)
    requires value < 0x10000
    ensures HexValue(U16CodePoint(value)[2..]) == value
  {
    var digits := ToHex(value);
    HexValueToHex(value);
    HexValueZeros(4 - |digits|, digits);
    assert U16CodePoint(value)[2..] == Zeros(4 - |digits|) + digits;
  }

  // ---------------------------------------------------------------------
  // Universal character names
  // ---------------------------------------------------------------------

  /** The UTF-16 surrogate pair of a code point above U+FFFF. */
  function SurrogatePair(v: nat): (pair: (nat, nat))
    requires 0x10000 <= v <= 0x10FFFF
    ensures 0xD800 <= pair.0 <= 0xDBFF
    ensures 0xDC00 <= pair.1 <= 0xDFFF
  {
    ((v - 0x10000) / 0x400 + 0xD800, (v - 0x10000) % 0x400 + 0xDC00)
  }

  /** The pair decodes to the code point it came from. */
  lemma SurrogatePairDecodes(v: nat)
    requires 0x10000 <= v <= 0x10FFFF
    ensures var (high, low) := SurrogatePair(v);
      (high - 0xD800) * 0x400 + (low - 0xDC00) + 0x10000 == v
  {
  }

  /** Different code points have different pairs. */
  lemma SurrogatePairInjective(v: nat, w: nat)
    requires 0x10000 <= v <= 0x10FFFF && 0x10000 <= w <= 0x10FFFF
    requires SurrogatePair(v) == SurrogatePair(w)
    ensures v == w
  {
    SurrogatePairDecodes(v);
    SurrogatePairDecodes(w);
  }

  /** The Java text for the universal character name \uXXXX or \UXXXXXXXX
      with value v: the backslash, newline, carriage return and double quote
      get their own escapes, a value above U+FFFF becomes a surrogate pair,
      any other value a \u escape. Code points stop at U+10FFFF. */
  function EscapeCodePoint(v: nat): (r: string)
    requires v <= 0x10FFFF
    ensures v == 0x5c ==> r == "\\\\"
    ensures v == 0xa ==> r == "\\n"
    ensures v == 0xd ==> r == "\\r"
    ensures v == 0x22 ==> r == "\\\""
    ensures v !in {0x5c, 0xa, 0xd, 0x22} && v <= 0xFFFF ==> r == U16CodePoint(v)
    ensures v > 0xFFFF ==> |r| == 12 && r[..2] == "\\u" && r[6..8] == "\\u"
  {
    if v == 0x5c then "\\\\"
    else if v == 0xa then "\\n"
    else if v == 0xd then "\\r"
    else if v == 0x22 then "\\\""
    else if v > 0xFFFF then
      var (high, low) := SurrogatePair(v);
      U16CodePoint(high) + U16CodePoint(low)
    else U16CodePoint(v)
  }

  /** Above U+FFFF the two escapes hold the high and the low surrogate, and
      these give the code point back. */
  lemma EscapeAstral(v: nat)
    requires 0xFFFF < v <= 0x10FFFF
    ensures var r := EscapeCodePoint(v);
      var high := HexValue(r[2..6]);
      var low := HexValue(r[8..12]);
      && 0xD800 <= high <= 0xDBFF && 0xDC00 <= low <= 0xDFFF
      && (high - 0xD800) * 0x400 + (low - 0xDC00) + 0x10000 == v
  {
    var (high, low) := SurrogatePair(v);
    var r := EscapeCodePoint(v);
    U16CodePointValue(high);
    U16CodePointValue(low);
    assert r[2..6] == U16CodePoint(high)[2..];
    assert r[8..12] == U16CodePoint(low)[2..];
    SurrogatePairDecodes(v);
  }
}
