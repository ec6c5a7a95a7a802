/**
 * Text and number conversions that the teletext mirror relies on: bytes,
 * the decimal printing of a non-negative integer (what a template literal
 * `${n}` or `n.toString()` produces), `parseInt` on text that starts with
 * decimal digits, and the `split(sep)` idioms used to take a key apart.
 */
module Text {

  newtype byte = x: int | 0 <= x < 256

  type Bytes = seq<byte>

  predicate IsDigit(c: char) {
    '0' <= c <= '9'
  }

  predicate AllDigits(s: string) {
    forall i :: 0 <= i < |s| ==> IsDigit(s[i])
  }

  function DigitChar(d: nat): (c: char)
    requires d < 10
    ensures IsDigit(c)
  {
    ('0' as int + d) as char
  }

  function DigitValue(c: char): (d: nat)
    requires IsDigit(c)
    ensures d < 10 && DigitChar(d) == c
  {
    c as int - '0' as int
  }

  /** The decimal representation of `n`, without sign or leading zeros. */
  function NatToString(n: nat): (s: string)
    ensures |s| >= 1 && AllDigits(s)
  {
    if n < 10 then [DigitChar(n)] else NatToString(n / 10) + [DigitChar(n % 10)]
  }

  /** The decimal representation of an integer, with a leading `-` when negative. */
  function IntToString(i: int): (s: string)
    ensures i >= 0 ==> s == NatToString(i)
  {
    if i < 0 then "-" + NatToString(-i) else NatToString(i)
  }

  /** The value of a string of decimal digits, most significant first. */
  function DigitsValue(s: string): nat
    requires AllDigits(s)
  {
    if s == [] then 0 else DigitsValue(s[..|s| - 1]) * 10 + DigitValue(s[|s| - 1])
  }

  /** The longest prefix of `s` made of decimal digits. */
  function LeadingDigits(s: string): (d: string)
    ensures |d| <= |s| && d == s[..|d|] && AllDigits(d)
    ensures |d| < |s| ==> !IsDigit(s[|d|])
  {
    if s == [] || !IsDigit(s[0]) then [] else [s[0]] + LeadingDigits(s[1..])
  }

  /**
   * A JavaScript number as `parseInt` can return it on decimal text: `NaN`,
   * or a non-negative integer.
   */
  datatype ParsedInt = NaN | Int(value: nat) {
    /** JavaScript truthiness: `NaN` and `0` are falsy. */
    predicate Truthy() {
      Int? && value != 0
    }
  }

  /**
   * `parseInt(s)`: the value of the leading decimal digits of `s`, or `NaN`
   * when `s` does not start with a digit.
   */
  function ParseInt(s: string): (r: ParsedInt)
    ensures r.NaN? <==> (s == [] || !IsDigit(s[0]))
  {
    var d := LeadingDigits(s);
    if d == [] then NaN else Int(DigitsValue(d))
  }

  lemma {:induction false} DigitsValueOfNatToString(n: nat)
    ensures DigitsValue(NatToString(n)) == n
  {
    if n >= 10 {
      var s := NatToString(n);
      assert s[..|s| - 1] == NatToString(n / 10);
      DigitsValueOfNatToString(n / 10);
    }
  }

  /** Printing then parsing gives the number back (`parseInt(String(n)) === n`). */
  lemma ParseIntOfNatToString(n: nat, rest: string)
    requires rest == [] || !IsDigit(rest[0])
    ensures ParseInt(NatToString(n) + rest) == Int(n)
  {
    var s := NatToString(n);
    LeadingDigitsOfDigitsThen(s, rest);
    DigitsValueOfNatToString(n);
  }

  lemma {:induction false} LeadingDigitsOfDigitsThen(d: string, rest: string)
    requires AllDigits(d)
    requires rest == [] || !IsDigit(rest[0])
    ensures LeadingDigits(d + rest) == d
  {
    if d != [] {
      assert (d + rest)[1..] == d[1..] + rest;
      LeadingDigitsOfDigitsThen(d[1..], rest);
    }
  }

  /** Distinct numbers print differently. */
  lemma NatToStringInjective(m: nat, n: nat)
    requires NatToString(m) == NatToString(n)
    ensures m == n
  {
    DigitsValueOfNatToString(m);
    DigitsValueOfNatToString(n);
  }

  /** `s.split(sep).pop()`: the text after the last `sep`, or all of `s` when there is none. */
  function LastSegment(s: string, sep: char): (r: string)
    ensures sep !in r
    ensures |r| <= |s| && r == s[|s| - |r|..]
    ensures |r| < |s| ==> s[|s| - |r| - 1] == sep
  {
    if s == [] then []
    else if s[|s| - 1] == sep then []
    else LastSegment(s[..|s| - 1], sep) + [s[|s| - 1]]
  }

  /** `s.split(sep)[0]`: the text before the first `sep`, or all of `s` when there is none. */
  function FirstSegment(s: string, sep: char): (r: string)
    ensures sep !in r
    ensures |r| <= |s| && r == s[..|r|]
    ensures |r| < |s| ==> s[|r|] == sep
  {
    if s == [] || s[0] == sep then [] else [s[0]] + FirstSegment(s[1..], sep)
  }

  lemma {:induction false} LastSegmentAfterSeparator(a: string, sep: char, b: string)
    requires sep !in b
    ensures LastSegment(a + [sep] + b, sep) == b
  {
    if b == [] {
    } else {
      var s := a + [sep] + b;
      assert s[..|s| - 1] == a + [sep] + b[..|b| - 1];
      LastSegmentAfterSeparator(a, sep, b[..|b| - 1]);
    }
  }

  lemma {:induction false} FirstSegmentBeforeSeparator(a: string, sep: char, b: string)
    requires sep !in a
    ensures FirstSegment(a + [sep] + b, sep) == a
  {
    if a != [] {
      assert (a + [sep] + b)[1..] == a[1..] + [sep] + b;
      FirstSegmentBeforeSeparator(a[1..], sep, b);
    }
  }

  /** A string split at its first separator determines both halves. */
  lemma SplitAtFirstSeparator(a: string, b: string, a': string, b': string, sep: char)
    requires sep !in a && sep !in a'
    requires a + [sep] + b == a' + [sep] + b'
    ensures a == a' && b == b'
  {
    FirstSegmentBeforeSeparator(a, sep, b);
    FirstSegmentBeforeSeparator(a', sep, b');
    assert b == (a + [sep] + b)[|a| + 1..];
    assert b' == (a' + [sep] + b')[|a'| + 1..];
  }

  predicate IsAscii(s: string) {
    forall i :: 0 <= i < |s| ==> s[i] as int < 128
  }

  /** The bytes of an ASCII string (its UTF-8 encoding, one byte per character). */
  function EncodeAscii(s: string): (b: Bytes)
    requires IsAscii(s)
    ensures |b| == |s|
  {
    seq(|s|, i requires 0 <= i < |s| => s[i] as int as byte)
  }

  /** The text of a body, one character per byte (exact for ASCII bodies). */
  function DecodeBytes(b: Bytes): (s: string)
    ensures |s| == |b|
  {
    seq(|b|, i requires 0 <= i < |b| => b[i] as int as char)
  }

  lemma DecodeEncodeAscii(s: string)
    requires IsAscii(s)
    ensures DecodeBytes(EncodeAscii(s)) == s
  {
  }

  lemma DigitsAreAscii(s: string)
    requires AllDigits(s)
    ensures IsAscii(s)
  {
  }

  /** A string of digits holds no non-digit character, such as a separator. */
  lemma NoCharInDigits(d: string, c: char)
    requires AllDigits(d) && !IsDigit(c)
    ensures c !in d
  {
  }

  /** The decimal texts the examples use. */
  lemma DecimalExamples()
    ensures NatToString(1) == "1" && NatToString(100) == "100"
    ensures NatToString(500) == "500" && NatToString(1000) == "1000"
  {
    assert NatToString(1) == "1";
    assert NatToString(10) == "10";
    assert NatToString(100) == "100";
    assert NatToString(1000) == "1000";
    assert NatToString(5) == "5";
    assert NatToString(50) == "50";
    assert NatToString(500) == "500";
  }
}
