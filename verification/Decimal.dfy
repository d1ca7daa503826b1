/** `strconv.Atoi` of the Go standard library on a 64-bit platform, and the
    canonical decimal rendering of an integer (what `strconv.Itoa` prints),
    which is its right inverse. `Atoi` accepts an optional `+` or `-` sign
    followed by one or more ASCII digits; leading zeros are allowed, nothing
    else is (no spaces, no underscores, no base prefix), and a value outside
    the range of Go's 64-bit `int` is a range error. */
module Decimal {
  import opened Failures

  const MinInt: int := -0x8000_0000_0000_0000
  const MaxInt: int := 0x7FFF_FFFF_FFFF_FFFF

  predicate IsDigit(c: char) {
    '0' <= c <= '9'
  }

  predicate AllDigits(s: string) {
    forall i :: 0 <= i < |s| ==> IsDigit(s[i])
  }

  function DigitValue(c: char): (d: nat)
    requires IsDigit(c)
    ensures d < 10
  {
    (c as int) - ('0' as int)
  }

  function DigitChar(d: nat): (c: char)
    requires d < 10
    ensures IsDigit(c) && DigitValue(c) == d
  {
    ('0' as int + d) as char
  }

  /** The number a digit string denotes, read most significant digit first. */
  function Value(digits: string): nat
    requires AllDigits(digits)
  {
    if |digits| == 0 then 0
    else Value(digits[..|digits| - 1]) * 10 + DigitValue(digits[|digits| - 1])
  }

  /** `strconv.Atoi`: `None` stands for both its syntax and its range error. */
  function Atoi(s: string): (r: Option<int>)
    ensures r.Some? ==> MinInt <= r.value <= MaxInt
    ensures r.Some? ==> |s| > 0 && IsDigit(s[|s| - 1])
  {
    if |s| == 0 then None
    else
      var digits := if s[0] == '+' || s[0] == '-' then s[1..] else s;
      if |digits| == 0 || !AllDigits(digits) then None
      else
        var magnitude: int := Value(digits);
        var v := if s[0] == '-' then -magnitude else magnitude;
        if MinInt <= v <= MaxInt then Some(v) else None
  }

  /** The digits of `n` without leading zeros. */
  function ShowNat(n: nat): (s: string)
    ensures |s| > 0 && AllDigits(s)
    ensures s[0] == '0' ==> n == 0
  {
    if n < 10 then [DigitChar(n)]
    else ShowNat(n / 10) + [DigitChar(n % 10)]
  }

  /** Canonical decimal rendering: a `-` for negative numbers, then the digits. */
  function Show(n: int): (s: string)
  {
    if n < 0 then "-" + ShowNat(-n) else ShowNat(n)
  }

  /** Reading back the digits of a natural number gives the number. */
  lemma {:induction false} ValueShowNat(n: nat)
    ensures Value(ShowNat(n)) == n
  {
    if n >= 10 {
      var s := ShowNat(n);
      ValueShowNat(n / 10);
      assert s[..|s| - 1] == ShowNat(n / 10);
    }
  }

  /** A rendering never holds the list separator of the command line. */
  lemma ShowHasNoComma(n: int)
    ensures ',' !in Show(n)
  {
  }

  /** How `Atoi` reads a rendering: the sign, then the digits of the magnitude. */
  lemma AtoiOfShow(n: int)
    ensures Atoi(Show(n)) == if MinInt <= n <= MaxInt then Some(n) else None
  {
    var s := Show(n);
    if n < 0 {
      var digits := ShowNat(-n);
      assert s == "-" + digits && s[0] == '-' && s[1..] == digits;
      ValueShowNat(-n);
      assert Value(digits) == -n;
    } else {
      var digits := ShowNat(n);
      assert s == digits && s[0] != '+' && s[0] != '-';
      ValueShowNat(n);
      assert Value(digits) == n;
    }
  }

  /** Round trip: every value of Go's `int` is read back from its rendering. */
  lemma AtoiShow(n: int)
    requires MinInt <= n <= MaxInt
    ensures Atoi(Show(n)) == Some(n)
  {
    AtoiOfShow(n);
  }

  /** The other direction of the range check: a number outside Go's `int`
      is rejected even when written canonically. */
  lemma AtoiShowOutOfRange(n: int)
    requires n < MinInt || MaxInt < n
    ensures Atoi(Show(n)) == None
  {
    AtoiOfShow(n);
  }

  /** `k` zero digits. */
  function Zeros(k: nat): (z: string)
    ensures |z| == k && AllDigits(z)
    ensures forall i :: 0 <= i < k ==> z[i] == '0'
  {
    if k == 0 then "" else "0" + Zeros(k - 1)
  }

  function Magnitude(v: int): nat {
    if v < 0 then -v else v
  }

  /** A leading zero does not change the value of a digit string. */
  lemma {:induction false} ValueLeadingZero(d: string)
    requires AllDigits(d)
    ensures Value("0" + d) == Value(d)
  {
    var z := "0" + d;
    if |d| == 0 {
      assert z[..|z| - 1] == "";
    } else {
      var n := |d|;
      assert z[..|z| - 1] == "0" + d[..n - 1];
      assert z[|z| - 1] == d[n - 1];
      ValueLeadingZero(d[..n - 1]);
    }
  }

  /** Any number of leading zeros does not change the value. */
  lemma {:induction false} ValueZeros(k: nat, d: string)
    requires AllDigits(d)
    ensures Value(Zeros(k) + d) == Value(d)
  {
    if k == 0 {
      assert Zeros(k) + d == d;
    } else {
      assert Zeros(k) + d == "0" + (Zeros(k - 1) + d);
      ValueZeros(k - 1, d);
      ValueLeadingZero(Zeros(k - 1) + d);
    }
  }

  /** A digit string that does not start with zero denotes a positive number. */
  lemma {:induction false} ValuePositive(d: string)
    requires |d| > 0 && AllDigits(d) && d[0] != '0'
    ensures Value(d) > 0
  {
    if |d| > 1 {
      var p := d[..|d| - 1];
      assert p[0] == d[0];
      ValuePositive(p);
    } else {
      assert d[..0] == "";
    }
  }

  /** A digit string without a superfluous leading zero is the rendering of
      its own value. */
  lemma {:induction false} ShowNatValue(d: string)
    requires |d| > 0 && AllDigits(d)
    requires |d| == 1 || d[0] != '0'
    ensures ShowNat(Value(d)) == d
  {
    var n := |d|;
    var p := d[..n - 1];
    var last := DigitValue(d[n - 1]);
    if n == 1 {
      assert p == "";
      assert Value(d) == last;
      assert DigitChar(last) == d[0];
    } else {
      assert p[0] == d[0];
      ValuePositive(p);
      ShowNatValue(p);
      var v := Value(d);
      assert v == Value(p) * 10 + last;
      assert v / 10 == Value(p) && v % 10 == last;
      assert DigitChar(last) == d[n - 1];
      assert ShowNat(v) == p + [d[n - 1]];
      assert p + [d[n - 1]] == d;
    }
  }

  /** Every digit string is some zeros followed by the rendering of its value. */
  lemma {:induction false} LeadingZeros(d: string) returns (k: nat)
    requires |d| > 0 && AllDigits(d)
    ensures k < |d| && d[..k] == Zeros(k)
    ensures d[k..] == ShowNat(Value(d))
  {
    if |d| > 1 && d[0] == '0' {
      var t := d[1..];
      var j := LeadingZeros(t);
      k := j + 1;
      assert d[..k] == "0" + t[..j];
      assert d[k..] == t[j..];
      assert d == "0" + t;
      ValueLeadingZero(t);
    } else {
      k := 0;
      ShowNatValue(d);
      assert d[..0] == "" && d[0..] == d;
    }
  }

  /** `Atoi` reads an optional sign, any number of leading zeros and the digits
      of `m` as `m`, negated after a minus sign, when that fits Go's `int`. */
  lemma AtoiSignedZeros(sign: string, k: nat, m: nat)
    requires sign == "" || sign == "+" || sign == "-"
    ensures Atoi(sign + Zeros(k) + ShowNat(m))
         == (var v: int := if sign == "-" then -(m as int) else m;
             if MinInt <= v <= MaxInt then Some(v) else None)
  {
    var digits := Zeros(k) + ShowNat(m);
    ValueZerosShowNat(k, m);
    AtoiSignedDigits(sign + Zeros(k) + ShowNat(m), sign, digits, m);
  }

  /** Leading zeros before a rendering still denote the rendered number. */
  lemma ValueZerosShowNat(k: nat, m: nat)
    ensures AllDigits(Zeros(k) + ShowNat(m)) && Value(Zeros(k) + ShowNat(m)) == m
  {
    ValueZeros(k, ShowNat(m));
    ValueShowNat(m);
  }

  /** `Atoi` of an optional sign followed by a non-empty digit string worth `m`. */
  lemma AtoiSignedDigits(s: string, sign: string, digits: string, m: nat)
    requires sign == "" || sign == "+" || sign == "-"
    requires |digits| > 0 && AllDigits(digits) && Value(digits) == m
    requires s == sign + digits
    ensures Atoi(s)
         == (var v: int := if sign == "-" then -(m as int) else m;
             if MinInt <= v <= MaxInt then Some(v) else None)
  {
    if sign == "" {
      assert s == digits && IsDigit(s[0]);
    } else {
      assert s[0] == sign[0] && s[1..] == digits;
    }
  }

  /** What `Atoi` reads at the front of a string before the significant
      digits: a sign that agrees with the value, then only zeros. */
  predicate SignedZeros(p: string, v: int) {
    || (v >= 0 && p == Zeros(|p|))
    || (|p| > 0 && p[0] == '+' && v >= 0 && p[1..] == Zeros(|p| - 1))
    || (|p| > 0 && p[0] == '-' && v <= 0 && p[1..] == Zeros(|p| - 1))
  }

  /** Soundness of `Atoi`: a string it accepts is a sign and leading zeros
      followed by exactly the rendering of the magnitude it returns. */
  lemma AtoiSound(s: string)
    requires Atoi(s).Some?
    ensures exists i :: 0 <= i < |s| && SignedZeros(s[..i], Atoi(s).value) && s[i..] == ShowNat(Magnitude(Atoi(s).value))
  {
    var v := Atoi(s).value;
    var j := if s[0] == '+' || s[0] == '-' then 1 else 0;
    var digits := s[j..];
    var k := LeadingZeros(digits);
    var i := j + k;
    assert Magnitude(v) == Value(digits);
    assert s[i..] == digits[k..];
    if j == 0 {
      assert s[..i] == digits[..k];
    } else {
      assert s[..i][1..] == digits[..k];
    }
    assert SignedZeros(s[..i], v);
  }

  /** Leading zeros and an explicit plus sign are accepted. */
  lemma AtoiAcceptsNonCanonical()
    ensures Atoi("007") == Some(7)
    ensures Atoi("+5") == Some(5)
    ensures Atoi("-0") == Some(0)
  {
    assert AllDigits("007");
    assert "007"[..2] == "00" && "00"[..1] == "0" && "0"[..0] == "";
    assert Value("00") == 0;
    assert "+5"[1..] == "5" && "5"[..0] == "";
    assert "-0"[1..] == "0";
  }

  /** The empty string, a bare sign, spaces and underscores are syntax errors. */
  lemma AtoiRejectsMalformed()
    ensures Atoi("") == None
    ensures Atoi("-") == None
    ensures Atoi(" 1") == None
    ensures Atoi("1_0") == None
  {
  }
}
