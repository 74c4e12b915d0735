/** JavaScript string behaviour the application relies on: `String.prototype.trim`, a
    suffix test (what a regular expression anchored with `$` checks), and the decimal
    rendering of an integer in a template literal. */
module Text {

  /** JavaScript's WhiteSpace and LineTerminator code points: what `trim` removes. */
  predicate IsWhitespace(c: char)
  {
    || c == '\t' || c == '\n' || c == '\U{000B}' || c == '\U{000C}' || c == '\r'
    || c == ' ' || c == '\U{00A0}' || c == '\U{1680}'
    || ('\U{2000}' <= c <= '\U{200A}')
    || c == '\U{2028}' || c == '\U{2029}' || c == '\U{202F}' || c == '\U{205F}'
    || c == '\U{3000}' || c == '\U{FEFF}'
  }

  /** A string that `trim` turns into the empty (falsy) string. */
  predicate IsBlank(s: string)
  {
    forall k :: 0 <= k < |s| ==> IsWhitespace(s[k])
  }

  /** Drops leading whitespace: the result is the suffix of `s` that starts at its
      first non-whitespace character. */
  function TrimStart(s: string): (r: string)
    ensures |r| <= |s| && r == s[|s| - |r|..]
    ensures forall k :: 0 <= k < |s| - |r| ==> IsWhitespace(s[k])
    ensures r != [] ==> !IsWhitespace(r[0])
  {
    if s != [] && IsWhitespace(s[0]) then TrimStart(s[1..]) else s
  }

  /** Drops trailing whitespace: the result is the prefix of `s` that ends at its
      last non-whitespace character. */
  function TrimEnd(s: string): (r: string)
    ensures |r| <= |s| && r == s[..|r|]
    ensures forall k :: |r| <= k < |s| ==> IsWhitespace(s[k])
    ensures r != [] ==> !IsWhitespace(r[|r| - 1])
  {
    if s != [] && IsWhitespace(s[|s| - 1]) then TrimEnd(s[..|s| - 1]) else s
  }

  /** `s.trim()`. */
  function Trim(s: string): string
  {
    TrimEnd(TrimStart(s))
  }

  /** `s.trim()` is the empty string exactly when `s` consists of whitespace only. */
  lemma TrimEmptyIffBlank(s: string)
    ensures Trim(s) == "" <==> IsBlank(s)
  {
    var a := TrimStart(s);
    if Trim(s) == "" {
      assert |a| == 0;
    } else {
      assert !IsWhitespace(a[0]);
      assert a[0] == s[|s| - |a|];
    }
  }

  /** Trimming is idempotent. */
  lemma TrimIdempotent(s: string)
    ensures Trim(Trim(s)) == Trim(s)
  {
    var t := Trim(s);
    if t != [] {
      assert !IsWhitespace(t[0]) && !IsWhitespace(t[|t| - 1]);
      assert TrimStart(t) == t;
      assert TrimEnd(t) == t;
    }
  }

  /** A prefix `t` of a suffix `a` of `s`, followed in `a` by whitespace only, is a slice
      of `s` followed in `s` by whitespace only. */
  lemma PrefixOfSuffix(s: string, a: string, t: string)
    requires |a| <= |s| && a == s[|s| - |a|..] && |t| <= |a| && t == a[..|t|]
    requires forall k :: |t| <= k < |a| ==> IsWhitespace(a[k])
    ensures var i := |s| - |a|; t == s[i..i + |t|]
    ensures forall k :: |s| - |a| + |t| <= k < |s| ==> IsWhitespace(s[k])
  {
    var i := |s| - |a|;
    forall k | i + |t| <= k < |s| ensures IsWhitespace(s[k]) {
      assert s[k] == a[k - i];
    }
  }

  /** Trimming only ever drops whitespace: the result is a contiguous piece of `s`
      with nothing but whitespace around it. */
  lemma TrimIsInnerSlice(s: string) returns (i: nat)
    ensures var t := Trim(s); i + |t| <= |s| && t == s[i..i + |t|]
    ensures forall k :: 0 <= k < i ==> IsWhitespace(s[k])
    ensures forall k :: i + |Trim(s)| <= k < |s| ==> IsWhitespace(s[k])
  {
    var a := TrimStart(s);
    var t := TrimEnd(a);
    i := |s| - |a|;
    PrefixOfSuffix(s, a, t);
  }

  /** `s` ends with `suffix`: what a literal pattern anchored with `$` matches. */
  predicate EndsWith(s: string, suffix: string)
  {
    |suffix| <= |s| && s[|s| - |suffix|..] == suffix
  }

  /** The character of a decimal digit 0..9. */
  function DigitChar(d: nat): (c: char)
    requires d < 10
    ensures '0' <= c <= '9'
  {
    ('0' as int + d) as char
  }

  /** The value of a decimal digit character. */
  function DigitValue(c: char): (d: nat)
    requires '0' <= c <= '9'
    ensures d < 10
  {
    (c as int - '0' as int) as nat
  }

  predicate IsDigits(s: string)
  {
    forall k :: 0 <= k < |s| ==> '0' <= s[k] <= '9'
  }

  /** The number a string of decimal digits denotes (most significant first). */
  function DecimalValue(s: string): nat
    requires IsDigits(s)
  {
    if s == [] then 0 else 10 * DecimalValue(s[..|s| - 1]) + DigitValue(s[|s| - 1])
  }

  /** A natural number as JavaScript renders it in a template literal. */
  function NatToDecimal(n: nat): (r: string)
    ensures r != [] && IsDigits(r)
  {
    if n < 10 then [DigitChar(n)] else NatToDecimal(n / 10) + [DigitChar(n % 10)]
  }

  /** An integer as JavaScript renders it in a template literal (a leading `-` when negative). */
  function IntToDecimal(i: int): (r: string)
    ensures r != []
  {
    if i < 0 then "-" + NatToDecimal(-i) else NatToDecimal(i)
  }

  /** Rendering loses nothing: reading the digits back gives the number, and there is
      no leading zero except for 0 itself. */
  lemma {:induction false} NatToDecimalRoundTrip(n: nat)
    ensures DecimalValue(NatToDecimal(n)) == n
    ensures NatToDecimal(n)[0] == '0' <==> n == 0
  {
    var r := NatToDecimal(n);
    if n < 10 {
      assert r[..|r| - 1] == [];
    } else {
      NatToDecimalRoundTrip(n / 10);
      assert r[..|r| - 1] == NatToDecimal(n / 10);
    }
  }

  /** Distinct numbers render differently. */
  lemma NatToDecimalInjective(m: nat, n: nat)
    requires NatToDecimal(m) == NatToDecimal(n)
    ensures m == n
  {
    NatToDecimalRoundTrip(m);
    NatToDecimalRoundTrip(n);
  }

  /** A well-formed integer rendering: digits, with a leading `-` for a negative number. */
  predicate IsIntText(s: string)
  {
    (s != [] && IsDigits(s)) || (|s| >= 2 && s[0] == '-' && IsDigits(s[1..]))
  }

  /** The integer read back from its rendering. */
  function ParseInt(s: string): int
    requires IsIntText(s)
  {
    if s[0] == '-' then -(DecimalValue(s[1..]) as int) else DecimalValue(s)
  }

  lemma ParseNegative(d: string)
    requires d != [] && IsDigits(d)
    ensures IsIntText("-" + d) && ParseInt("-" + d) == -(DecimalValue(d) as int)
  {
    var s := "-" + d;
    assert s[0] == '-' && s[1..] == d;
  }

  lemma ParseNonNegative(d: string)
    requires d != [] && IsDigits(d)
    ensures IsIntText(d) && ParseInt(d) == DecimalValue(d)
  {
    assert '0' <= d[0] <= '9';
  }

  lemma IntToDecimalRoundTrip(i: int)
    ensures IsIntText(IntToDecimal(i)) && ParseInt(IntToDecimal(i)) == i
  {
    if i < 0 {
      NatToDecimalRoundTrip(-i);
      ParseNegative(NatToDecimal(-i));
    } else {
      NatToDecimalRoundTrip(i);
      ParseNonNegative(NatToDecimal(i));
    }
  }
}
