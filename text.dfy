/** Character and digit handling shared by ticker parsing, memo matching and
    message formatting. Case folding covers the ASCII letters only. */
module Text {
  import opened Decimals

  /** Character.toUpperCase restricted to ASCII letters */
  function ToUpperAscii(c: char): char
  {
    if 'a' <= c <= 'z' then (c as int - 32) as char else c
  }

  /** String.equalsIgnoreCase / regionMatches(true, ...) */
  predicate EqualsIgnoreCase(a: string, b: string)
  {
    |a| == |b| && forall i :: 0 <= i < |a| ==> ToUpperAscii(a[i]) == ToUpperAscii(b[i])
  }

  lemma EqualsIgnoreCaseIsEquivalence(a: string, b: string, c: string)
    ensures EqualsIgnoreCase(a, a)
    ensures EqualsIgnoreCase(a, b) ==> EqualsIgnoreCase(b, a)
    ensures EqualsIgnoreCase(a, b) && EqualsIgnoreCase(b, c) ==> EqualsIgnoreCase(a, c)
  {
  }

  predicate IsDigit(c: char)
  {
    '0' <= c <= '9'
  }

  predicate AllDigits(s: string)
  {
    forall i :: 0 <= i < |s| ==> IsDigit(s[i])
  }

  /** The number a string of decimal digits denotes (leading zeros allowed). */
  function DigitsValue(s: string): nat
    requires AllDigits(s)
  {
    if s == [] then 0
    else DigitsValue(s[..|s| - 1]) * 10 + (s[|s| - 1] as int - '0' as int)
  }

  function DigitChar(d: nat): (c: char)
    requires d < 10
    ensures IsDigit(c) && c as int - '0' as int == d
  {
    ('0' as int + d) as char
  }

  /** Decimal rendering of a natural number, without leading zeros. */
  function NatToString(n: nat): (s: string)
    ensures AllDigits(s) && |s| >= 1
    ensures n < 10 <==> |s| == 1
  {
    if n < 10 then [DigitChar(n)] else NatToString(n / 10) + [DigitChar(n % 10)]
  }

  /** Left-pad with '0' to at least the given width (Formatter's zero padding). */
  function ZeroPad(s: string, width: nat): (r: string)
    ensures |r| == if |s| < width then width else |s|
  {
    if |s| < width then Zeros(width - |s|) + s else s
  }

  function Zeros(n: nat): (z: string)
    ensures |z| == n && AllDigits(z)
  {
    if n == 0 then [] else ['0'] + Zeros(n - 1)
  }

  lemma {:induction false} DigitsValueOfNatToString(n: nat)
    ensures DigitsValue(NatToString(n)) == n
  {
    if n >= 10 {
      DigitsValueOfNatToString(n / 10);
      var s := NatToString(n);
      assert s[..|s| - 1] == NatToString(n / 10);
    }
  }

  lemma {:induction false} DigitsValueLeadingZero(s: string)
    requires AllDigits(s)
    ensures DigitsValue(['0'] + s) == DigitsValue(s)
  {
    if s != [] {
      var t := ['0'] + s;
      assert t[..|t| - 1] == ['0'] + s[..|s| - 1];
      DigitsValueLeadingZero(s[..|s| - 1]);
    }
  }

  lemma {:induction false} DigitsValueLeadingZeros(n: nat, s: string)
    requires AllDigits(s)
    ensures AllDigits(Zeros(n) + s)
    ensures DigitsValue(Zeros(n) + s) == DigitsValue(s)
  {
    if n > 0 {
      var t := Zeros(n - 1) + s;
      assert Zeros(n) + s == ['0'] + t;
      DigitsValueLeadingZeros(n - 1, s);
      DigitsValueLeadingZero(t);
      assert DigitsValue(['0'] + t) == DigitsValue(t) == DigitsValue(s);
    } else {
      assert Zeros(n) + s == s;
    }
  }

  /** Splitting a digit string into a head and a two-digit tail. */
  lemma DigitsValueSplit2(s: string)
    requires AllDigits(s) && |s| >= 2
    ensures DigitsValue(s) == DigitsValue(s[..|s| - 2]) * 100 + DigitsValue(s[|s| - 2..])
  {
    var n := |s|;
    var init := s[..n - 1];
    assert init[..n - 2] == s[..n - 2];
    assert DigitsValue(init) == DigitsValue(s[..n - 2]) * 10 + (s[n - 2] as int - '0' as int);
    TwoDigitsValue(s[n - 2..]);
  }

  lemma TwoDigitsValue(t: string)
    requires AllDigits(t) && |t| == 2
    ensures DigitsValue(t) == (t[0] as int - '0' as int) * 10 + (t[1] as int - '0' as int)
  {
    var head := t[..1];
    assert head[..0] == [] && head[0] == t[0];
    assert DigitsValue(head) == t[0] as int - '0' as int;
  }

  /** A number below 10^k takes at most k digits. */
  lemma {:induction false} NatToStringLength(n: nat, k: nat)
    requires k >= 1 && n < Pow10(k)
    ensures |NatToString(n)| <= k
  {
    if n >= 10 {
      NatToStringLength(n / 10, k - 1);
    }
  }

  /** A zero-padded rendering reads back as the number. */
  lemma ZeroPadValue(n: nat, width: nat)
    ensures AllDigits(ZeroPad(NatToString(n), width))
    ensures DigitsValue(ZeroPad(NatToString(n), width)) == n
  {
    var s := NatToString(n);
    DigitsValueOfNatToString(n);
    if |s| < width {
      DigitsValueLeadingZeros(width - |s|, s);
    }
  }
}
