/** Decimal text of Go's 64-bit `int`: strconv.Itoa and strconv.Atoi. */
module Decimal {
  import opened Wrappers

  const INT64_MIN: int := -0x8000_0000_0000_0000
  const INT64_MAX: int := 0x7fff_ffff_ffff_ffff

  /** The values of Go's `int` on the 64-bit targets the webhook runs on. */
  predicate InInt64(n: int)
  {
    INT64_MIN <= n <= INT64_MAX
  }

  /** Go's `int` addition, which wraps around modulo 2^64. */
  function Int64Add(a: int, b: int): (r: int)
    requires InInt64(a) && InInt64(b)
    ensures InInt64(r)
    ensures InInt64(a + b) ==> r == a + b
    ensures a == INT64_MAX && b == 1 ==> r == INT64_MIN
  {
    (a + b - INT64_MIN) % 0x1_0000_0000_0000_0000 + INT64_MIN
  }

  predicate IsDigit(c: char)
  {
    '0' <= c <= '9'
  }

  predicate AllDigits(s: string)
  {
    forall i :: 0 <= i < |s| ==> IsDigit(s[i])
  }

  function DigitChar(d: nat): char
    requires d < 10
  {
    ('0' as int + d) as char
  }

  /** The number a string of decimal digits denotes, most significant digit first. */
  function DigitsValue(s: string): nat
    requires AllDigits(s)
    decreases |s|
  {
    if s == [] then 0
    else 10 * DigitsValue(s[..|s| - 1]) + (s[|s| - 1] as int - '0' as int)
  }

  /** The shortest digit string of n: no leading zero unless n is zero. */
  function NatDigits(n: nat): (s: string)
    ensures |s| >= 1 && AllDigits(s)
    ensures DigitsValue(s) == n
    ensures s[0] == '0' <==> n == 0
    ensures n < 10 <==> |s| == 1
    decreases n
  {
    if n < 10 then [DigitChar(n)]
    else
      var init := NatDigits(n / 10);
      var s := init + [DigitChar(n % 10)];
      assert s[..|s| - 1] == init;
      s
  }

  /** strconv.Itoa: a minus sign for negative numbers, then the shortest digit string. */
  function Itoa(n: int): (s: string)
    ensures |s| >= 1
    ensures n >= 0 ==> AllDigits(s) && DigitsValue(s) == n
    ensures n < 0 ==> s[0] == '-' && AllDigits(s[1..]) && |s| >= 2 && DigitsValue(s[1..]) == -n
  {
    if n < 0 then assert ("-" + NatDigits(-n))[1..] == NatDigits(-n); "-" + NatDigits(-n)
    else NatDigits(n)
  }

  /** strconv.Atoi: an optional '+' or '-', then at least one decimal digit (leading zeros
      allowed); anything else is a syntax error and a value outside `int` a range error. */
  function Atoi(s: string): (r: Option<int>)
    ensures r.Some? ==> InInt64(r.value)
    ensures r.Some? ==> |s| >= 1 && (IsDigit(s[0]) || s[0] == '+' || s[0] == '-')
  {
    if |s| == 0 then None
    else
      var digits := if s[0] == '+' || s[0] == '-' then s[1..] else s;
      if |digits| == 0 || !AllDigits(digits) then None
      else
        var v: int := if s[0] == '-' then 0 - DigitsValue(digits) as int else DigitsValue(digits);
        if InInt64(v) then Some(v) else None
  }

  /** Itoa's text is always read back by Atoi as the same number. */
  lemma AtoiOfItoa(n: int)
    requires InInt64(n)
    ensures Atoi(Itoa(n)) == Some(n)
  {
  }

  /** A digit string that does not start with '0' denotes a positive number. */
  lemma {:induction false} LeadingNonZeroPositive(s: string)
    requires |s| >= 1 && AllDigits(s) && s[0] != '0'
    ensures DigitsValue(s) > 0
    decreases |s|
  {
    if |s| > 1 {
      LeadingNonZeroPositive(s[..|s| - 1]);
    }
  }

  /** The shortest digit string is the only one without a superfluous leading zero. */
  lemma {:induction false} NatDigitsOfValue(s: string)
    requires |s| >= 1 && AllDigits(s)
    requires s[0] == '0' ==> |s| == 1
    ensures NatDigits(DigitsValue(s)) == s
    decreases |s|
  {
    var n := DigitsValue(s);
    if |s| > 1 {
      var init := s[..|s| - 1];
      LeadingNonZeroPositive(init);
      NatDigitsOfValue(init);
      assert n / 10 == DigitsValue(init) && n % 10 == s[|s| - 1] as int - '0' as int;
      assert s == init + [s[|s| - 1]];
    }
  }

  /** Text in the form Itoa produces: no '+', no superfluous leading zero, no "-0". */
  ghost predicate Canonical(s: string)
  {
    || (|s| >= 1 && AllDigits(s) && (s[0] == '0' ==> |s| == 1))
    || (|s| >= 2 && s[0] == '-' && AllDigits(s[1..]) && s[1] != '0')
  }

  /** The other direction of the round trip: canonical text that Atoi accepts is
      exactly what Itoa prints for its value. */
  lemma ItoaOfAtoi(s: string)
    requires Canonical(s) && Atoi(s).Some?
    ensures Itoa(Atoi(s).value) == s
  {
    if s[0] == '-' {
      LeadingNonZeroPositive(s[1..]);
      NatDigitsOfValue(s[1..]);
      assert s == "-" + s[1..];
    } else {
      NatDigitsOfValue(s);
    }
  }

  lemma ItoaCanonical(n: int)
    ensures Canonical(Itoa(n))
  {
  }

  /** Atoi rejects text with anything but a digit after its first character. */
  lemma AtoiRejectsLaterNonDigit(s: string, k: int)
    requires 1 <= k < |s| && !IsDigit(s[k])
    ensures Atoi(s) == None
  {
    if s[0] == '+' || s[0] == '-' {
      assert s[1..][k - 1] == s[k];
    }
  }

  /** A leading zero does not change the value of a digit string. */
  lemma {:induction false} DigitsValueLeadingZero(d: string)
    requires AllDigits(d)
    ensures AllDigits("0" + d) && DigitsValue("0" + d) == DigitsValue(d)
    decreases |d|
  {
    if d != [] {
      var init := d[..|d| - 1];
      DigitsValueLeadingZero(init);
      assert ("0" + d)[..|d|] == "0" + init;
    }
  }

  /** A string of zeros denotes 0. */
  lemma {:induction false} ZerosValue(z: string)
    requires forall i :: 0 <= i < |z| ==> z[i] == '0'
    ensures AllDigits(z) && DigitsValue(z) == 0
    decreases |z|
  {
    if z != [] {
      ZerosValue(z[..|z| - 1]);
    }
  }

  /** A leading zero, after an optional sign, or a '+' in front of a digit string does not change what Atoi reads. */
  lemma AtoiLeadingZero(d: string)
    requires |d| >= 1 && AllDigits(d)
    ensures Atoi("0" + d) == Atoi(d)
    ensures Atoi("+" + d) == Atoi(d)
    ensures Atoi("-0" + d) == Atoi("-" + d)
  {
    DigitsValueLeadingZero(d);
    assert ("+" + d)[1..] == d;
    assert ("-0" + d)[1..] == "0" + d;
    assert ("-" + d)[1..] == d;
  }

  /** "-0", "-00", ... are read as 0. */
  lemma AtoiNegativeZeros(z: string)
    requires |z| >= 1 && forall i :: 0 <= i < |z| ==> z[i] == '0'
    ensures Atoi("-" + z) == Some(0)
  {
    ZerosValue(z);
    assert ("-" + z)[1..] == z;
  }

  /** Atoi accepts a sign and leading zeros, and rejects text with no digits. */
  lemma AtoiExamples()
    ensures Atoi("7") == Some(7)
    ensures Atoi("-12") == Some(-12)
    ensures Atoi("+007") == Some(7)
    ensures Atoi("abc") == None
    ensures Atoi("") == None
    ensures Atoi("-") == None
  {
    assert "-12"[1..] == "12";
    assert "12"[..1] == "1";
    assert "+007"[1..] == "007";
    assert "007"[..2] == "00" && "00"[..1] == "0";
    assert !IsDigit("abc"[0]);
  }
}
