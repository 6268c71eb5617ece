/** Integer radix conversion of the number converter: the recursive binary
    rendering, the 32-bit-wrapped upper-case hexadecimal rendering, and the
    base-10 integer parse applied to each input line. */
module Radix {
  import opened Wrappers
  import Text

  function Abs(n: int): nat {
    if n < 0 then -n else n
  }

  // ---------------------------------------------------------------------
  // Binary

  predicate IsBits(s: string) {
    forall i :: 0 <= i < |s| ==> s[i] == '0' || s[i] == '1'
  }

  function BitChar(b: nat): char
    requires b < 2
  {
    if b == 0 then '0' else '1'
  }

  /** The base-2 value of a bit string, most significant bit first. */
  function FromBits(s: string): nat
    requires IsBits(s)
  {
    if s == [] then 0
    else 2 * FromBits(s[..|s| - 1]) + (if s[|s| - 1] == '1' then 1 else 0)
  }

  /** `decimal_a_binario_recursivo`: "0" for zero, a minus sign before the
      rendering of the magnitude for a negative number, and otherwise the
      rendering of `n // 2` followed by the digit `n % 2`. Because the
      recursion on a positive number bottoms out at zero, every non-zero
      magnitude is rendered with one leading '0' before its base-2 digits. */
  function Binary(n: int): (r: string)
    ensures |r| >= 1
    ensures n >= 0 ==> IsBits(r) && FromBits(r) == n
    ensures n > 0 ==> |r| >= 2 && r[0] == '0' && r[1] == '1'
    ensures n < 0 ==> r[0] == '-' && IsBits(r[1..]) && FromBits(r[1..]) == -n
    decreases Abs(n), if n < 0 then 1 else 0
  {
    if n == 0 then "0"
    else if n < 0 then "-" + Binary(-n)
    else
      var prefix := Binary(n / 2);
      var r := prefix + [BitChar(n % 2)];
      assert r[..|r| - 1] == prefix;
      r
  }

  /** A bit string starting with '1' is worth at least one. */
  lemma {:induction false} LeadingOnePositive(s: string)
    requires IsBits(s) && |s| >= 1 && s[0] == '1'
    ensures FromBits(s) >= 1
    decreases |s|
  {
    if |s| > 1 {
      LeadingOnePositive(s[..|s| - 1]);
    }
  }

  /** Base-2 digits without leading zeros are unique: two such strings with
      the same value are the same string. */
  lemma {:induction false} CanonicalBitsUnique(u: string, v: string)
    requires IsBits(u) && |u| >= 1 && u[0] == '1'
    requires IsBits(v) && |v| >= 1 && v[0] == '1'
    requires FromBits(u) == FromBits(v)
    ensures u == v
    decreases |u|
  {
    if |u| == 1 && |v| > 1 {
      LeadingOnePositive(v[..|v| - 1]);
    } else if |v| == 1 && |u| > 1 {
      LeadingOnePositive(u[..|u| - 1]);
    } else if |u| > 1 && |v| > 1 {
      var u', v' := u[..|u| - 1], v[..|v| - 1];
      assert u[|u| - 1] == v[|v| - 1];
      CanonicalBitsUnique(u', v');
      assert u == u' + [u[|u| - 1]];
      assert v == v' + [v[|v| - 1]];
    }
  }

  /** For a positive number the output is exactly one '0' followed by the
      textbook base-2 digits of the number (the unique bit string without
      leading zeros that has its value). */
  lemma BinaryIsZeroThenCanonical(n: int, w: string)
    requires n > 0
    requires IsBits(w) && |w| >= 1 && w[0] == '1' && FromBits(w) == n
    ensures Binary(n) == "0" + w
  {
    var r := Binary(n);
    var tail := r[1..];
    assert FromBits(r) == FromBits(tail) by {
      ZeroPrefixSameValue(tail);
      assert r == "0" + tail;
    }
    CanonicalBitsUnique(tail, w);
  }

  /** A leading '0' does not change the value of a bit string. */
  lemma {:induction false} ZeroPrefixSameValue(s: string)
    requires IsBits(s)
    ensures IsBits("0" + s) && FromBits("0" + s) == FromBits(s)
    decreases |s|
  {
    if s != [] {
      var z := "0" + s;
      assert z[..|z| - 1] == "0" + s[..|s| - 1];
      ZeroPrefixSameValue(s[..|s| - 1]);
    }
  }

  /** A negative number `-m` is rendered as a minus sign followed by the
      rendering of its magnitude `m`: "-0" and then the textbook base-2
      digits of `m`. */
  lemma BinaryNegative(m: int, w: string)
    requires m > 0
    requires IsBits(w) && |w| >= 1 && w[0] == '1' && FromBits(w) == m
    ensures Binary(-m) == "-" + Binary(m)
    ensures Binary(m) == "0" + w
  {
    BinaryIsZeroThenCanonical(m, w);
  }

  // ---------------------------------------------------------------------
  // Hexadecimal

  const TwoTo32: int := 0x1_0000_0000

  /** The upper-case digit for `d`, one of "0123456789ABCDEF". */
  function HexChar(d: nat): (c: char)
    requires d < 16
  {
    if d < 10 then ('0' as int + d) as char else ('A' as int + d - 10) as char
  }

  predicate IsHexDigit(c: char) {
    ('0' <= c <= '9') || ('A' <= c <= 'F')
  }

  function HexDigitValue(c: char): nat
    requires IsHexDigit(c)
  {
    if c <= '9' then c as int - '0' as int else c as int - 'A' as int + 10
  }

  predicate IsHex(s: string) {
    forall i :: 0 <= i < |s| ==> IsHexDigit(s[i])
  }

  /** The base-16 value of upper-case hexadecimal digits. */
  function FromHex(s: string): nat
    requires IsHex(s)
  {
    if s == [] then 0 else 16 * FromHex(s[..|s| - 1]) + HexDigitValue(s[|s| - 1])
  }

  function Pow16(k: nat): nat {
    if k == 0 then 1 else 16 * Pow16(k - 1)
  }

  /** `format(v, 'X')` for `v >= 0`: upper-case digits, no prefix and no
      leading zeros. */
  function HexDigits(v: nat): (r: string)
    ensures IsHex(r) && FromHex(r) == v
    ensures |r| >= 1 && (r[0] == '0' ==> r == "0")
  {
    if v < 16 then
      [HexChar(v)]
    else
      var prefix := HexDigits(v / 16);
      var r := prefix + [HexChar(v % 16)];
      assert r[..|r| - 1] == prefix;
      r
  }

  /** A value below 16^k has at most k hexadecimal digits. */
  lemma {:induction false} HexDigitsLength(v: nat, k: nat)
    requires 1 <= k && v < Pow16(k)
    ensures |HexDigits(v)| <= k
    decreases k
  {
    if v >= 16 {
      assert k > 1;
      HexDigitsLength(v / 16, k - 1);
    }
  }

  /** `format(v, 'X')` for any integer: a negative value is printed as a
      minus sign and the digits of its magnitude. */
  function FormatHex(v: int): (r: string)
    ensures v >= 0 ==> IsHex(r) && FromHex(r) == v
    ensures v >= 0 ==> |r| >= 1 && (r[0] == '0' ==> r == "0")
    ensures v < 0 ==> |r| >= 2 && r[0] == '-' && IsHex(r[1..]) && FromHex(r[1..]) == -v
    ensures v < 0 ==> r[1] != '0'
  {
    if v < 0 then "-" + HexDigits(-v) else HexDigits(v)
  }

  /** The value that is formatted in the HEX column: the number itself when
      it is non-negative, and 2^32 plus the number otherwise. */
  function HexValue(n: int): (v: int)
    ensures n >= 0 ==> v == n
    ensures -TwoTo32 <= n < 0 ==> 0 <= v < TwoTo32 && (v - n) % TwoTo32 == 0
    ensures n < -TwoTo32 ==> v < 0
  {
    if n >= 0 then n else TwoTo32 + n
  }

  /** The HEX column of a parsed number. */
  function Hex(n: int): (r: string)
    ensures n >= 0 ==> IsHex(r) && FromHex(r) == n
    ensures -TwoTo32 <= n < 0 ==> IsHex(r) && FromHex(r) == TwoTo32 + n && |r| <= 8
    ensures n < -TwoTo32 ==> |r| >= 2 && r[0] == '-' && IsHex(r[1..]) && FromHex(r[1..]) == -(TwoTo32 + n)
    ensures n >= -TwoTo32 ==> |r| >= 1 && (r[0] == '0' ==> r == "0")
    ensures n < -TwoTo32 ==> r[1] != '0'
  {
    var v := HexValue(n);
    if 0 <= v < TwoTo32 then
      assert Pow16(8) == TwoTo32;
      HexDigitsLength(v, 8);
      FormatHex(v)
    else
      FormatHex(v)
  }

  // ---------------------------------------------------------------------
  // Integer parsing

  predicate IsDigits(s: string) {
    forall i :: 0 <= i < |s| ==> Text.IsDigit(s[i])
  }

  /** The base-10 value of ASCII digits. */
  function FromDecimal(s: string): nat
    requires IsDigits(s)
  {
    if s == [] then 0
    else 10 * FromDecimal(s[..|s| - 1]) + (s[|s| - 1] as int - '0' as int)
  }

  /** The text `int()` accepts, restricted to ASCII: an optional sign
      followed by one or more decimal digits. */
  predicate IsIntegerText(s: string) {
    if |s| > 0 && (s[0] == '-' || s[0] == '+') then |s| > 1 && IsDigits(s[1..])
    else |s| > 0 && IsDigits(s)
  }

  /** `int(s)` on an already stripped line: `None` where Python raises
      `ValueError`. Leading zeros are accepted. */
  function ParseInt(s: string): (r: Option<int>)
    ensures r.Some? <==> IsIntegerText(s)
    ensures r.Some? && s[0] == '-' ==> r.value == -(FromDecimal(s[1..]) as int)
    ensures r.Some? && s[0] == '+' ==> r.value == FromDecimal(s[1..])
    ensures r.Some? && s[0] != '-' && s[0] != '+' ==> r.value == FromDecimal(s)
  {
    if |s| > 0 && (s[0] == '-' || s[0] == '+') then
      if |s| > 1 && IsDigits(s[1..]) then
        var m: int := FromDecimal(s[1..]);
        Some(if s[0] == '-' then -m else m)
      else None
    else if |s| > 0 && IsDigits(s) then Some(FromDecimal(s))
    else None
  }

  /** `str(n)` for a natural number: decimal digits without leading zeros. */
  function DecimalDigits(n: nat): (r: string)
    ensures IsDigits(r) && |r| >= 1 && FromDecimal(r) == n
    ensures r[0] == '0' ==> r == "0"
  {
    if n < 10 then
      [('0' as int + n) as char]
    else
      var prefix := DecimalDigits(n / 10);
      var r := prefix + [('0' as int + n % 10) as char];
      assert r[..|r| - 1] == prefix;
      r
  }

  /** `str(n)` for any integer. */
  function ShowInt(n: int): (r: string)
    ensures |r| >= 1 && (r[0] == '-' <==> n < 0)
    ensures n >= 0 ==> IsDigits(r) && FromDecimal(r) == n
    ensures n < 0 ==> IsDigits(r[1..]) && FromDecimal(r[1..]) == -n
    ensures n >= 0 ==> (r[0] == '0' ==> r == "0")
    ensures n < 0 ==> |r| >= 2 && r[1] != '0'
  {
    if n < 0 then "-" + DecimalDigits(-n) else DecimalDigits(n)
  }

  /** Parsing inverts printing: `int(str(n)) == n`. */
  lemma ParseShowInt(n: int)
    ensures ParseInt(ShowInt(n)) == Some(n)
  {
    if n < 0 {
      assert ShowInt(n)[1..] == DecimalDigits(-n);
    }
  }

  lemma BinaryExamples()
    ensures Binary(0) == "0"
    ensures Binary(5) == "0101"
    ensures Binary(-3) == "-011"
  {
    var one := BinaryStep(1, "0");
    var two := BinaryStep(2, one);
    var three := BinaryStep(3, one);
    var five := BinaryStep(5, two);
    assert five == "0101";
    assert "-" + three == "-011";
  }

  /** One step of the recursion on a positive number. */
  lemma BinaryStep(n: int, prefix: string) returns (r: string)
    requires n > 0 && Binary(n / 2) == prefix
    ensures r == prefix + [BitChar(n % 2)] && Binary(n) == r
  {
    r := prefix + [BitChar(n % 2)];
  }

  /** Appending one digit to a value appends its digit character. */
  lemma HexDigitsStep(v: nat, d: nat, prefix: string)
    requires v >= 1 && d < 16 && HexDigits(v) == prefix
    ensures HexDigits(16 * v + d) == prefix + [HexChar(d)]
  {
    assert (16 * v + d) / 16 == v;
    assert (16 * v + d) % 16 == d;
  }

  lemma HexExamples()
    ensures Hex(5) == "5"
    ensures Hex(0) == "0"
    ensures Hex(-3) == "FFFFFFFD"
  {
    assert HexDigits(0xF) == "F";
    HexDigitsStep(0xF, 0xF, "F");
    HexDigitsStep(0xFF, 0xF, "FF");
    HexDigitsStep(0xFFF, 0xF, "FFF");
    HexDigitsStep(0xFFFF, 0xF, "FFFF");
    HexDigitsStep(0xF_FFFF, 0xF, "FFFFF");
    HexDigitsStep(0xFF_FFFF, 0xF, "FFFFFF");
    HexDigitsStep(0xFFF_FFFF, 0xD, "FFFFFFF");
    assert Hex(-3) == FormatHex(0xFFFF_FFFD);
  }
}
