/** Printing and parsing of unsigned decimal numbers. */
module Decimal {
  import opened Wrappers

  predicate IsDigit(c: char) { '0' <= c <= '9' }

  predicate AllDigits(s: string) { forall i :: 0 <= i < |s| ==> IsDigit(s[i]) }

  function DigitOf(d: nat): (c: char)
    requires d < 10
    ensures IsDigit(c) && DigitValue(c) == d
  {
    ('0' as int + d) as char
  }

  function Digits(n: nat): (s: string)
    ensures s != "" && AllDigits(s)
  {
    if n < 10 then [DigitOf(n)] else Digits(n / 10) + [DigitOf(n % 10)]
  }

  function DigitValue(c: char): nat
    requires IsDigit(c)
  {
    c as int - '0' as int
  }

  function DigitsValue(s: string): nat
    requires AllDigits(s)
  {
    if s == "" then 0
    else DigitsValue(s[..|s| - 1]) * 10 + DigitValue(s[|s| - 1])
  }

  /** `str::parse` for an unsigned type with the given maximum: an optional plus sign, then digits. */
  function Parse(s: string, max: nat): Option<nat> {
    var t := Unsigned(s);
    if t == "" || !AllDigits(t) || DigitsValue(t) > max then None
    else Some(DigitsValue(t))
  }

  /** The characters with the Unicode White_Space property. */
  predicate IsSpace(c: char) {
    var u := c as int;
    9 <= u <= 13 || u == 32 || u == 0x85 || u == 0xA0 || u == 0x1680 || 0x2000 <= u <= 0x200A
    || u == 0x2028 || u == 0x2029 || u == 0x202F || u == 0x205F || u == 0x3000
  }

  function TrimStart(s: string): string {
    if s != "" && IsSpace(s[0]) then TrimStart(s[1..]) else s
  }

  function TrimEnd(s: string): string {
    if s != "" && IsSpace(s[|s| - 1]) then TrimEnd(s[..|s| - 1]) else s
  }

  function Trim(s: string): string { TrimEnd(TrimStart(s)) }

  lemma {:induction false} ValueOfDigits(n: nat)
    ensures DigitsValue(Digits(n)) == n
  {
    var s := Digits(n);
    if n < 10 {
      assert s[..|s| - 1] == "";
    } else {
      ValueOfDigits(n / 10);
      assert s[..|s| - 1] == Digits(n / 10);
    }
  }

  /** Printing then parsing gives the number back, for every number the type holds. */
  lemma ParseDigits(n: nat, max: nat)
    ensures Parse(Trim(Digits(n)), max) == if n <= max then Some(n) else None
  {
    ValueOfDigits(n);
    var s := Digits(n);
    assert IsDigit(s[0]) && IsDigit(s[|s| - 1]);
    assert Trim(s) == s;
  }

  // ------------------------------------------------------------- every spelling

  function Zeros(k: nat): (s: string)
    ensures |s| == k && forall i :: 0 <= i < k ==> s[i] == '0'
  {
    if k == 0 then "" else Zeros(k - 1) + "0"
  }

  lemma {:induction false} ValueOfPadded(k: nat, n: nat)
    ensures AllDigits(Zeros(k) + Digits(n)) && DigitsValue(Zeros(k) + Digits(n)) == n
  {
    var s := Zeros(k) + Digits(n);
    assert s[|s| - 1] == DigitOf(n % 10);
    if n < 10 {
      assert s[..|s| - 1] == Zeros(k);
      ValueOfZeros(k);
    } else {
      ValueOfPadded(k, n / 10);
      assert s[..|s| - 1] == Zeros(k) + Digits(n / 10);
    }
  }

  lemma {:induction false} ValueOfZeros(k: nat)
    ensures DigitsValue(Zeros(k)) == 0
  {
    if k == 0 {
    } else {
      ValueOfZeros(k - 1);
      assert Zeros(k)[..k - 1] == Zeros(k - 1);
    }
  }

  /** Any run of digits is some zeros and the number it stands for. */
  lemma {:induction false} DigitsArePadded(s: string) returns (k: nat)
    requires s != "" && AllDigits(s)
    ensures s == Zeros(k) + Digits(DigitsValue(s))
  {
    var n := |s| - 1;
    if n == 0 {
      k := 0;
      OneDigit(s[0]);
      assert s == [s[0]];
    } else {
      var front := DigitsArePadded(s[..n]);
      k := PaddedSnoc(s[..n], s[n], front);
      assert s == s[..n] + [s[n]];
    }
  }

  lemma PaddedSnoc(s: string, c: char, k: nat) returns (k': nat)
    requires AllDigits(s) && IsDigit(c) && s == Zeros(k) + Digits(DigitsValue(s))
    ensures s + [c] == Zeros(k') + Digits(DigitsValue(s + [c]))
  {
    var v := DigitsValue(s);
    k' := if v == 0 then k + 1 else k;
    OneMoreDigit(k, v, c);
    assert (s + [c])[..|s|] == s;
  }

  lemma OneDigit(c: char)
    requires IsDigit(c)
    ensures DigitsValue([c]) == DigitValue(c) && Digits(DigitValue(c)) == [c]
  {
    assert [c][..0] == "";
  }

  lemma OneMoreDigit(k: nat, v: nat, c: char)
    requires IsDigit(c)
    ensures Zeros(k) + Digits(v) + [c] == Zeros(if v == 0 then k + 1 else k) + Digits(v * 10 + DigitValue(c))
  {
    var d := DigitValue(c);
    assert DigitOf(d) == c;
    if v == 0 {
      assert Digits(0) == "0";
    } else {
      assert Digits(v * 10 + d) == Digits(v) + [c];
    }
  }

  /** The text without a plus sign in front. */
  function Unsigned(s: string): string { if s != "" && s[0] == '+' then s[1..] else s }

  lemma UnsignedIs(s: string, t: string)
    requires t != "" && AllDigits(t)
    ensures Unsigned(s) == t <==> s == t || s == "+" + t
  {
    assert t[0] != '+';
    assert ("+" + t)[1..] == t && ("+" + t)[0] == '+';
    if Unsigned(s) == t && s != t {
      assert s == [s[0]] + s[1..];
    }
  }

  /** A text is parsed as `n` exactly if it is an optional plus sign, any zeros, and the digits of `n`, and the type holds `n`. */
  lemma ParseExactly(s: string, max: nat, n: nat)
    ensures Parse(s, max) == Some(n) <==> n <= max && exists k: nat :: SpelledWith(s, k, n)
  {
    if Parse(s, max) == Some(n) {
      var t := Unsigned(s);
      var k := DigitsArePadded(t);
      UnsignedIs(s, t);
      assert SpelledWith(s, k, n);
    }
    if k: nat :| SpelledWith(s, k, n) {
      ValueOfPadded(k, n);
      UnsignedIs(s, Zeros(k) + Digits(n));
    }
  }

  /** An optional plus sign, `k` zeros, and the digits of `n`. */
  predicate SpelledWith(s: string, k: nat, n: nat) { s == Zeros(k) + Digits(n) || s == "+" + (Zeros(k) + Digits(n)) }

  predicate Spaces(s: string) { forall i :: 0 <= i < |s| ==> IsSpace(s[i]) }

  /** Nothing to trim at either end. */
  predicate Bare(s: string) { s == "" || (!IsSpace(s[0]) && !IsSpace(s[|s| - 1])) }

  lemma {:induction false} TrimStartOf(a: string, s: string)
    requires Spaces(a) && (s == "" || !IsSpace(s[0]))
    ensures TrimStart(a + s) == s
  {
    if a == "" {
      assert a + s == s;
    } else {
      assert (a + s)[1..] == a[1..] + s;
      TrimStartOf(a[1..], s);
    }
  }

  lemma {:induction false} TrimEndOf(s: string, b: string)
    requires Spaces(b) && (s == "" || !IsSpace(s[|s| - 1]))
    ensures TrimEnd(s + b) == s
  {
    if b == "" {
      assert s + b == s;
    } else {
      assert (s + b)[..|s + b| - 1] == s + b[..|b| - 1];
      TrimEndOf(s, b[..|b| - 1]);
    }
  }

  /** White space around a text is cut off, and nothing else. */
  lemma TrimExactly(a: string, s: string, b: string)
    requires Spaces(a) && Spaces(b) && Bare(s)
    ensures Trim(a + (s + b)) == s
  {
    if s == "" {
      assert a + (s + b) == a + b && (a + b) + "" == a + b;
      TrimStartOf(a + b, "");
      assert TrimEnd("") == "";
    } else {
      TrimStartOf(a, s + b);
      TrimEndOf(s, b);
    }
  }
}
