/** The text primitives the propagator borrows from the Rust standard library:
    `str::trim`, `str::splitn(2, _)`, unsigned decimal and hexadecimal numerals
    (`str::parse::<u64>`, `u128::from_str_radix(_, 16)`, `{}` and `{:032x}`
    formatting), and the fixed-width integer types they produce. */
module Text {
  import opened Wrappers

  /** Rust's `u64` and `u128`, as bounded mathematical integers. */
  const U64_LIMIT: nat := 0x1_0000_0000_0000_0000
  const U128_LIMIT: nat := 0x1_0000_0000_0000_0000_0000_0000_0000_0000
  type u64 = x: int | 0 <= x < 0x1_0000_0000_0000_0000
  type u128 = x: int | 0 <= x < 0x1_0000_0000_0000_0000_0000_0000_0000_0000

  // ---------------------------------------------------------------------------
  // Trimming

  /** The ASCII characters of the Unicode White_Space property. */
  predicate IsWhitespace(c: char) {
    c == ' ' || c == '\t' || c == '\n' || c == '\U{000B}' || c == '\U{000C}' || c == '\r'
  }

  /** `s` without its leading whitespace: a suffix of `s` that starts with a
      non-whitespace character, everything dropped being whitespace. */
  function TrimStart(s: string): (r: string)
    ensures |r| <= |s| && r == s[|s| - |r|..]
    ensures forall i :: 0 <= i < |s| - |r| ==> IsWhitespace(s[i])
    ensures r != [] ==> !IsWhitespace(r[0])
  {
    if s != [] && IsWhitespace(s[0]) then TrimStart(s[1..]) else s
  }

  /** `s` without its trailing whitespace: a prefix of `s` that ends with a
      non-whitespace character, everything dropped being whitespace. */
  function TrimEnd(s: string): (r: string)
    ensures |r| <= |s| && r == s[..|r|]
    ensures forall i :: |r| <= i < |s| ==> IsWhitespace(s[i])
    ensures r != [] ==> !IsWhitespace(r[|r| - 1])
  {
    if s != [] && IsWhitespace(s[|s| - 1]) then TrimEnd(s[..|s| - 1]) else s
  }

  /** `str::trim`, restricted to ASCII whitespace: the slice of `s` left
      after dropping whitespace at both ends, and nothing else. */
  function Trim(s: string): (r: string)
    ensures var k := |s| - |TrimStart(s)|;
      && k + |r| <= |s| && r == s[k..k + |r|]
      && (forall i :: 0 <= i < k ==> IsWhitespace(s[i]))
      && (forall i :: k + |r| <= i < |s| ==> IsWhitespace(s[i]))
    ensures r != [] ==> !IsWhitespace(r[0]) && !IsWhitespace(r[|r| - 1])
  {
    TrimIsSlice(s);
    TrimEnd(TrimStart(s))
  }

  /** Trimming both ends keeps one contiguous slice and drops only
      whitespace around it. */
  lemma TrimIsSlice(s: string)
    ensures var k, r := |s| - |TrimStart(s)|, TrimEnd(TrimStart(s));
      && k + |r| <= |s| && r == s[k..k + |r|]
      && (forall i :: 0 <= i < k ==> IsWhitespace(s[i]))
      && (forall i :: k + |r| <= i < |s| ==> IsWhitespace(s[i]))
  {
    var t := TrimStart(s);
    var k, r := |s| - |t|, TrimEnd(t);
    forall i | k + |r| <= i < |s|
      ensures IsWhitespace(s[i])
    {
      assert s[i] == t[i - k];
    }
    assert r == t[..|r|] == s[k..k + |r|];
  }

  /** Trimming a text whose first and last characters are not whitespace
      leaves it unchanged. */
  lemma TrimUntouched(s: string)
    requires s != [] ==> !IsWhitespace(s[0]) && !IsWhitespace(s[|s| - 1])
    ensures Trim(s) == s
  {
  }

  // ---------------------------------------------------------------------------
  // Splitting

  /** `s.splitn(2, c)`: the first part (always present) and, when `c`
      occurs, the text after its first occurrence. */
  function SplitN2(s: string, c: char): (r: (string, Option<string>))
    ensures c !in r.0
    ensures r.1.None? <==> c !in s
    ensures r.1.None? ==> r.0 == s
    ensures r.1.Some? ==> s == r.0 + [c] + r.1.value
  {
    if s == [] then ([], None)
    else if s[0] == c then ([], Some(s[1..]))
    else
      var (before, after) := SplitN2(s[1..], c);
      ([s[0]] + before, after)
  }

  /** Splitting at a separator the first part does not contain recovers both
      parts. */
  lemma {:induction false} SplitN2At(a: string, b: string, c: char)
    requires c !in a
    ensures SplitN2(a + [c] + b, c) == (a, Some(b))
  {
    var s := a + [c] + b;
    if a == [] {
      assert s == [c] + b;
    } else {
      assert s[0] == a[0] != c;
      assert s[1..] == a[1..] + [c] + b;
      SplitN2At(a[1..], b, c);
      assert [a[0]] + a[1..] == a;
    }
  }

  // ---------------------------------------------------------------------------
  // Decimal numerals

  predicate IsDigit(c: char) {
    '0' <= c <= '9'
  }

  predicate AllDigits(s: string) {
    forall i :: 0 <= i < |s| ==> IsDigit(s[i])
  }

  function DigitValue(c: char): (d: nat)
    requires IsDigit(c)
    ensures d < 10
  {
    c as int - '0' as int
  }

  /** The digit character of `d`, which reads back as `d`. */
  function DigitChar(d: nat): (c: char)
    requires d < 10
    ensures IsDigit(c) && DigitValue(c) == d
  {
    ('0' as int + d) as char
  }

  /** The value of a decimal numeral, most significant digit first. */
  function DecimalValue(s: string): nat
    requires AllDigits(s)
  {
    if s == [] then 0 else 10 * DecimalValue(s[..|s| - 1]) + DigitValue(s[|s| - 1])
  }

  /** `format!("{}", v)`: the shortest decimal numeral of `v`, never empty and
      without leading zeros. */
  function Decimal(v: nat): (s: string)
    ensures s != [] && AllDigits(s)
    ensures |s| > 1 ==> s[0] != '0'
    ensures v == 0 <==> s == "0"
  {
    if v < 10 then [DigitChar(v)] else Decimal(v / 10) + [DigitChar(v % 10)]
  }

  /** Reading back a printed decimal numeral gives the printed value. */
  lemma {:induction false} DecimalValueOfDecimal(v: nat)
    ensures DecimalValue(Decimal(v)) == v
  {
    if v >= 10 {
      var s := Decimal(v);
      assert s[..|s| - 1] == Decimal(v / 10);
      DecimalValueOfDecimal(v / 10);
    }
  }

  /** `s.parse::<u64>()`: a non-empty run of decimal digits whose value fits
      in 64 bits; anything else (empty, a non-digit, overflow) is rejected. */
  function ParseU64(s: string): (r: Option<u64>)
    ensures r.Some? ==> s != [] && AllDigits(s) && r.value == DecimalValue(s)
    ensures s != [] && AllDigits(s) && DecimalValue(s) < U64_LIMIT ==> r.Some?
  {
    if s != [] && AllDigits(s) && DecimalValue(s) < U64_LIMIT then Some(DecimalValue(s)) else None
  }

  /** Every 64-bit value survives printing and parsing. */
  lemma ParseU64OfDecimal(v: u64)
    ensures ParseU64(Decimal(v)) == Some(v)
  {
    DecimalValueOfDecimal(v);
  }

  // ---------------------------------------------------------------------------
  // Hexadecimal numerals

  /** A hex digit in either case, as `from_str_radix(_, 16)` accepts. */
  predicate IsHexDigit(c: char) {
    '0' <= c <= '9' || 'a' <= c <= 'f' || 'A' <= c <= 'F'
  }

  predicate IsLowerHexDigit(c: char) {
    '0' <= c <= '9' || 'a' <= c <= 'f'
  }

  predicate AllHexDigits(s: string) {
    forall i :: 0 <= i < |s| ==> IsHexDigit(s[i])
  }

  function HexDigitValue(c: char): (d: nat)
    requires IsHexDigit(c)
    ensures d < 16
  {
    if c <= '9' then c as int - '0' as int
    else if 'a' <= c then c as int - 'a' as int + 10
    else c as int - 'A' as int + 10
  }

  /** The lower-case hex digit of `d`, which reads back as `d`. */
  function LowerHexChar(d: nat): (c: char)
    requires d < 16
    ensures IsLowerHexDigit(c) && IsHexDigit(c) && HexDigitValue(c) == d
  {
    if d < 10 then ('0' as int + d) as char else ('a' as int + d - 10) as char
  }

  /** The value of a hexadecimal numeral, most significant digit first. */
  function HexValue(s: string): nat
    requires AllHexDigits(s)
  {
    if s == [] then 0 else 16 * HexValue(s[..|s| - 1]) + HexDigitValue(s[|s| - 1])
  }

  function Pow16(n: nat): (p: nat)
    ensures p >= 1
  {
    if n == 0 then 1 else 16 * Pow16(n - 1)
  }

  lemma {:induction false} Pow16Add(m: nat, n: nat)
    ensures Pow16(m + n) == Pow16(m) * Pow16(n)
  {
    if m > 0 {
      Pow16Add(m - 1, n);
    }
  }

  /** 32 hex digits hold exactly the 128-bit values. */
  lemma Pow16Of32()
    ensures Pow16(32) == U128_LIMIT
  {
    assert Pow16(8) == 0x1_0000_0000;
    Pow16Add(8, 8);
    Pow16Add(16, 16);
  }

  /** `format!("{:0width$x}", v)` for `v < 16^width`: exactly `width`
      lower-case hex digits, zero-padded on the left. */
  function LowerHex(v: nat, width: nat): (s: string)
    ensures |s| == width
    ensures forall i :: 0 <= i < |s| ==> IsLowerHexDigit(s[i])
  {
    if width == 0 then [] else LowerHex(v / 16, width - 1) + [LowerHexChar(v % 16)]
  }

  /** Reading back a zero-padded hex numeral gives the printed value, as long
      as it fits in the width. */
  lemma {:induction false} HexValueOfLowerHex(v: nat, width: nat)
    requires v < Pow16(width)
    ensures AllHexDigits(LowerHex(v, width)) && HexValue(LowerHex(v, width)) == v
  {
    if width > 0 {
      var s := LowerHex(v, width);
      assert s[..|s| - 1] == LowerHex(v / 16, width - 1);
      assert v / 16 < Pow16(width - 1);
      HexValueOfLowerHex(v / 16, width - 1);
    }
  }

  /** `u128::from_str_radix(s, 16)`: a non-empty run of hex digits of either
      case whose value fits in 128 bits; anything else is rejected. */
  function ParseU128Hex(s: string): (r: Option<u128>)
    ensures r.Some? ==> s != [] && AllHexDigits(s) && r.value == HexValue(s)
    ensures s != [] && AllHexDigits(s) && HexValue(s) < U128_LIMIT ==> r.Some?
  {
    if s != [] && AllHexDigits(s) && HexValue(s) < U128_LIMIT then Some(HexValue(s)) else None
  }
}
