/**
 * The string primitives the script relies on: `String.prototype.trim`, the
 * regular-expression classes `\s` and `\d`, `parseInt(s, 10)` on a run of
 * digits, `String(n)` for an integer and `padStart(2, '0')`.
 */
module Text {

  /**
   * ECMAScript WhiteSpace and LineTerminator code points: what `trim()`
   * strips and what `\s` matches.
   */
  predicate IsWhitespace(c: char) {
    c == '\t' || c == '\n' || c == '\U{000B}' || c == '\U{000C}' || c == '\r' || c == ' '
    || c == '\U{00A0}' || c == '\U{1680}' || ('\U{2000}' <= c <= '\U{200A}')
    || c == '\U{2028}' || c == '\U{2029}' || c == '\U{202F}' || c == '\U{205F}'
    || c == '\U{3000}' || c == '\U{FEFF}'
  }

  predicate AllWhitespace(s: string) {
    forall i :: 0 <= i < |s| ==> IsWhitespace(s[i])
  }

  /** `\d`: an ASCII decimal digit. */
  predicate IsDigit(c: char) {
    '0' <= c <= '9'
  }

  predicate AllDigits(s: string) {
    forall i :: 0 <= i < |s| ==> IsDigit(s[i])
  }

  /** Leading whitespace removed (see TrimStartShape). */
  function TrimStart(s: string): string
    decreases |s|
  {
    if s != [] && IsWhitespace(s[0]) then TrimStart(s[1..]) else s
  }

  /** Trailing whitespace removed (see TrimEndShape). */
  function TrimEnd(s: string): string
    decreases |s|
  {
    if s != [] && IsWhitespace(s[|s| - 1]) then TrimEnd(s[..|s| - 1]) else s
  }

  /** `s.trim()`. */
  function Trim(s: string): string {
    TrimEnd(TrimStart(s))
  }

  function Pow10(k: nat): (p: nat)
    ensures p >= 1
  {
    if k == 0 then 1 else 10 * Pow10(k - 1)
  }

  /** `parseInt(s, 10)` of a non-empty run of ASCII digits (leading zeros allowed). */
  function DigitsValue(s: string): (n: nat)
    requires AllDigits(s)
    ensures n < Pow10(|s|)
  {
    if s == [] then 0
    else DigitsValue(s[..|s| - 1]) * 10 + (s[|s| - 1] as int - '0' as int)
  }

  function DigitChar(d: int): (c: char)
    requires 0 <= d <= 9
    ensures IsDigit(c) && c as int - '0' as int == d
  {
    ('0' as int + d) as char
  }

  /** `String(n)` for n >= 0: decimal digits without leading zeros. */
  function NatToString(n: nat): (s: string)
    ensures |s| >= 1 && AllDigits(s)
    ensures n < Pow10(|s|)
    ensures |s| == 1 || Pow10(|s| - 1) <= n
    ensures s[0] != '0' || n == 0
  {
    if n < 10 then [DigitChar(n)]
    else NatToString(n / 10) + [DigitChar(n % 10)]
  }

  /** `String(n)` for any integer: a minus sign before the digits of a negative one. */
  function IntToString(n: int): string {
    if n < 0 then "-" + NatToString(-n) else NatToString(n)
  }

  /** `s.padStart(2, '0')`. */
  function PadStart2(s: string): (r: string)
    ensures |r| == if |s| < 2 then 2 else |s|
    ensures r[|r| - |s|..] == s
    ensures forall i :: 0 <= i < |r| - |s| ==> r[i] == '0'
  {
    if |s| == 0 then "00" else if |s| == 1 then "0" + s else s
  }

  // ---------------------------------------------------------------------
  // Lemmas
  // ---------------------------------------------------------------------

  /** TrimStart leaves a suffix of s that starts with a non-space, and removes only whitespace. */
  lemma {:induction false} TrimStartShape(s: string)
    ensures var r := TrimStart(s);
      && |r| <= |s| && r == s[|s| - |r|..]
      && (forall i :: 0 <= i < |s| - |r| ==> IsWhitespace(s[i]))
      && (r == [] || !IsWhitespace(r[0]))
    decreases |s|
  {
    if s != [] && IsWhitespace(s[0]) {
      TrimStartShape(s[1..]);
    }
  }

  /** TrimEnd leaves a prefix of s that ends with a non-space, and removes only whitespace. */
  lemma {:induction false} TrimEndShape(s: string)
    ensures var r := TrimEnd(s);
      && |r| <= |s| && r == s[..|r|]
      && (forall i :: |r| <= i < |s| ==> IsWhitespace(s[i]))
      && (r == [] || !IsWhitespace(r[|r| - 1]))
    decreases |s|
  {
    if s != [] && IsWhitespace(s[|s| - 1]) {
      TrimEndShape(s[..|s| - 1]);
    }
  }

  /** No ASCII digit is whitespace. */
  lemma DigitNotWhitespace(c: char)
    requires IsDigit(c)
    ensures !IsWhitespace(c)
  {
  }

  /** Text without whitespace at either end is its own trim. */
  lemma TrimOfTrimmed(s: string)
    requires s == [] || (!IsWhitespace(s[0]) && !IsWhitespace(s[|s| - 1]))
    ensures Trim(s) == s
  {
  }

  /** Trimming is idempotent, so the manual-entry handler's extra trim changes nothing. */
  lemma TrimIdempotent(s: string)
    ensures Trim(Trim(s)) == Trim(s)
  {
    var t := TrimStart(s);
    var r := TrimEnd(t);
    TrimStartShape(s);
    TrimEndShape(t);
    if r != [] {
      assert r[0] == t[0];
      TrimOfTrimmed(r);
    }
  }

  /** The trim is empty exactly when the text is all whitespace (the validators' "required" test). */
  lemma TrimEmptyIff(s: string)
    ensures Trim(s) == [] <==> AllWhitespace(s)
  {
    var t := TrimStart(s);
    TrimStartShape(s);
    TrimEndShape(t);
  }

  /** `parseInt` reads back what `String` printed. */
  lemma {:induction false} DigitsValueOfNatToString(n: nat)
    ensures DigitsValue(NatToString(n)) == n
  {
    if n >= 10 {
      var s := NatToString(n);
      assert s[..|s| - 1] == NatToString(n / 10);
      DigitsValueOfNatToString(n / 10);
    }
  }

  /** Leading zeros do not change the value `parseInt` reads. */
  lemma {:induction false} DigitsValueZeroPrefix(z: string, s: string)
    requires AllDigits(s) && forall i :: 0 <= i < |z| ==> z[i] == '0'
    ensures AllDigits(z + s) && DigitsValue(z + s) == DigitsValue(s)
    decreases |s|
  {
    if s == [] {
      ZerosValue(z);
      assert z + s == z;
    } else {
      var t := z + s;
      assert t[..|t| - 1] == z + s[..|s| - 1];
      DigitsValueZeroPrefix(z, s[..|s| - 1]);
    }
  }

  lemma {:induction false} ZerosValue(z: string)
    requires forall i :: 0 <= i < |z| ==> z[i] == '0'
    ensures AllDigits(z) && DigitsValue(z) == 0
  {
    if z != [] {
      ZerosValue(z[..|z| - 1]);
    }
  }

  /** `String(n)` has exactly four characters iff 1000 <= n <= 9999. */
  lemma FourDigitYears(n: int)
    ensures (|IntToString(n)| == 4 && AllDigits(IntToString(n))) <==> 1000 <= n <= 9999
  {
    if n < 0 {
      assert !IsDigit(IntToString(n)[0]);
    } else {
      var s := NatToString(n);
      assert Pow10(3) == 1000 && Pow10(4) == 10000;
      Pow10Monotone(if |s| < 3 then |s| else 3, 3);
      Pow10Monotone(4, if |s| - 1 > 4 then |s| - 1 else 4);
    }
  }

  lemma {:induction false} Pow10Monotone(i: nat, j: nat)
    requires i <= j
    ensures Pow10(i) <= Pow10(j)
    decreases j - i
  {
    if i < j {
      Pow10Monotone(i, j - 1);
    }
  }

  /** A day or month 1..99 padded to two digits reads back as itself. */
  lemma PadStart2RoundTrip(n: int)
    requires 1 <= n <= 99
    ensures |PadStart2(IntToString(n))| == 2 && AllDigits(PadStart2(IntToString(n)))
    ensures DigitsValue(PadStart2(IntToString(n))) == n
  {
    var p := PadStart2(IntToString(n));
    if n < 10 {
      assert p == ['0', DigitChar(n)];
      assert p[..1] == ['0'] && p[..1][..0] == [];
    } else {
      assert NatToString(n / 10) == [DigitChar(n / 10)];
      assert p == [DigitChar(n / 10), DigitChar(n % 10)];
      assert p[..1] == [DigitChar(n / 10)] && p[..1][..0] == [];
    }
  }

  /** Two digit strings of one length with one value are the same string. */
  lemma {:induction false} DigitsDetermined(a: string, b: string)
    requires AllDigits(a) && AllDigits(b) && |a| == |b|
    requires DigitsValue(a) == DigitsValue(b)
    ensures a == b
    decreases |a|
  {
    if a != [] {
      var a', b' := a[..|a| - 1], b[..|b| - 1];
      assert DigitsValue(a') == DigitsValue(b');
      DigitsDetermined(a', b');
      assert a == a' + [a[|a| - 1]] && b == b' + [b[|b| - 1]];
    }
  }

  /** A digit string that does not start with '0' is worth at least 10^(length - 1). */
  lemma {:induction false} LeadingDigitValue(s: string)
    requires AllDigits(s) && |s| >= 1 && s[0] != '0'
    ensures Pow10(|s| - 1) <= DigitsValue(s)
    decreases |s|
  {
    if |s| > 1 {
      LeadingDigitValue(s[..|s| - 1]);
    }
  }

  /** Without a leading zero, `String` prints the value of s with as many digits as s has. */
  lemma PrintedLength(s: string)
    requires AllDigits(s) && |s| >= 1 && (s[0] != '0' || |s| == 1)
    ensures |NatToString(DigitsValue(s))| == |s|
  {
    var n := DigitsValue(s);
    if s[0] != '0' {
      LeadingDigitValue(s);
    }
    NatToStringLength(n, |s|);
  }

  /** `String(n)` has m digits when 10^(m-1) <= n < 10^m (or m is 1 and n < 10). */
  lemma NatToStringLength(n: nat, m: nat)
    requires 1 <= m && n < Pow10(m) && (m == 1 || Pow10(m - 1) <= n)
    ensures |NatToString(n)| == m
  {
    SameDecade(n, |NatToString(n)|, m);
  }

  /** A number has one decimal length: the bounds 10^(k-1) <= n < 10^k fix k. */
  lemma SameDecade(n: nat, k: nat, m: nat)
    requires 1 <= k && 1 <= m && n < Pow10(k) && n < Pow10(m)
    requires k == 1 || Pow10(k - 1) <= n
    requires m == 1 || Pow10(m - 1) <= n
    ensures k == m
  {
    if k < m {
      Pow10Monotone(k, m - 1);
    } else if k > m {
      Pow10Monotone(m, k - 1);
    }
  }

  /**
   * `String(parseInt(s, 10))` gives the digit string s back exactly when s
   * has no leading zero (a lone "0" included).
   */
  lemma PrintedDigits(s: string)
    requires AllDigits(s) && |s| >= 1
    ensures IntToString(DigitsValue(s)) == s <==> (s[0] != '0' || |s| == 1)
  {
    var n := DigitsValue(s);
    var t := NatToString(n);
    if s[0] != '0' || |s| == 1 {
      PrintedLength(s);
      DigitsValueOfNatToString(n);
      DigitsDetermined(t, s);
    }
  }

  /**
   * Padding a one- or two-digit group to two characters gives what padding
   * the printed value of the group gives, when that value is at least 1.
   */
  lemma PadStart2OfValue(g: string)
    requires AllDigits(g) && 1 <= |g| <= 2 && DigitsValue(g) >= 1
    ensures PadStart2(IntToString(DigitsValue(g))) == PadStart2(g)
  {
    var n := DigitsValue(g);
    Pow10Monotone(|g|, 2);
    assert Pow10(2) == 100;
    PadStart2RoundTrip(n);
    if |g| == 1 {
      DigitsValueZeroPrefix("0", g);
    }
    DigitsDetermined(PadStart2(IntToString(n)), PadStart2(g));
  }
}
