/** Decimal text: Python's `int()` on the digit strings the generator produces, and the
    zero-padded `{i:03d}` format used to number achievements. */
module Decimal {
  import opened PyStr

  predicate AllDigits(s: string) {
    forall i :: 0 <= i < |s| ==> IsAsciiDigit(s[i])
  }

  function DigitChar(d: nat): (c: char)
    requires d < 10
    ensures IsAsciiDigit(c)
  {
    ('0' as int + d) as char
  }

  /** The number a string of ASCII digits denotes, most significant digit first. */
  function Value(s: string): nat
    requires AllDigits(s)
  {
    if |s| == 0 then 0
    else 10 * Value(s[..|s| - 1]) + (s[|s| - 1] as int - '0' as int)
  }

  /** `str(n)`: the decimal digits of `n`, without leading zeros. */
  function Show(n: nat): (r: string)
    ensures |r| > 0 && AllDigits(r)
    ensures Value(r) == n
    ensures |r| > 1 ==> r[0] != '0'
  {
    if n < 10 then [DigitChar(n)]
    else
      var r := Show(n / 10) + [DigitChar(n % 10)];
      assert r[..|r| - 1] == Show(n / 10);
      r
  }

  function Zeros(k: nat): (r: string)
    ensures |r| == k && AllDigits(r)
    ensures forall i :: 0 <= i < k ==> r[i] == '0'
  {
    if k == 0 then "" else "0" + Zeros(k - 1)
  }

  /** Leading zeros do not change the value. */
  lemma {:induction false} ValueLeadingZero(s: string)
    requires AllDigits(s)
    ensures Value("0" + s) == Value(s)
    decreases |s|
  {
    if |s| > 0 {
      var init := s[..|s| - 1];
      ValueLeadingZero(init);
      assert ("0" + s)[..|s|] == "0" + init;
    }
  }

  lemma {:induction false} ValueLeadingZeros(k: nat, s: string)
    requires AllDigits(s)
    ensures Value(Zeros(k) + s) == Value(s)
    decreases k
  {
    if k > 0 {
      ValueLeadingZeros(k - 1, s);
      assert Zeros(k) + s == "0" + (Zeros(k - 1) + s);
      ValueLeadingZero(Zeros(k - 1) + s);
    } else {
      assert Zeros(k) + s == s;
    }
  }

  /** `f'{n:03d}'`: the digits of `n`, left-padded with zeros to at least three; reading the
      digits back gives `n`, so distinct numbers never share a padded form. */
  function Pad3(n: nat): (r: string)
    ensures |r| >= 3 && AllDigits(r)
    ensures Value(r) == n
    ensures n < 1000 ==> |r| == 3
    ensures n >= 100 ==> r == Show(n)
  {
    var d := Show(n);
    var z := if |d| < 3 then 3 - |d| else 0;
    ValueLeadingZeros(z, d);
    ShowLength(n);
    Zeros(z) + d
  }

  lemma {:induction false} ShowLength(n: nat)
    ensures n >= 100 ==> |Show(n)| >= 3
    ensures n < 100 ==> |Show(n)| <= 2
    ensures n < 1000 ==> |Show(n)| <= 3
  {
    if n >= 10 {
      ShowLength(n / 10);
    }
  }

  /** Python's `int(y)` inside `try: ... except: 0` for the year strings the generator can
      hold: a non-empty run of ASCII digits gives its value, anything else 0. */
  function YearValue(y: string): (v: nat)
    ensures y == "" ==> v == 0
    ensures y != "" && AllDigits(y) ==> v == Value(y)
  {
    if y != "" && AllDigits(y) then Value(y) else 0
  }
}
