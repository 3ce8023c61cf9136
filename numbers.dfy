/**
 * A model of Rust's `u64::from_str` (what `str::parse::<u64>` calls) and the
 * decimal rendering it inverts.
 */
module Numbers {
  import opened Wrappers

  /** 2^64: every `u64` is below it. */
  const U64Limit: nat := 0x1_0000_0000_0000_0000

  predicate IsDigit(c: char)
  {
    '0' <= c <= '9'
  }

  predicate AllDigits(s: string)
  {
    forall i :: 0 <= i < |s| ==> IsDigit(s[i])
  }

  function DigitValue(c: char): nat
    requires IsDigit(c)
  {
    c as int - '0' as int
  }

  function DigitChar(n: nat): char
    requires n < 10
  {
    ('0' as int + n) as char
  }

  /** The number a string of decimal digits denotes, most significant digit first. */
  function DigitsValue(ds: string): nat
    requires AllDigits(ds)
  {
    if ds == [] then 0 else 10 * DigitsValue(ds[..|ds| - 1]) + DigitValue(ds[|ds| - 1])
  }

  /**
   * `u64::from_str`: an optional leading `+` (a lone sign is rejected, and `-`
   * is never accepted for an unsigned type), then one or more decimal digits
   * whose value fits in 64 bits. Anything else is an error, here `None`.
   */
  function ParseU64(s: string): (r: Option<nat>)
    ensures r.Some? ==> r.value < U64Limit
  {
    var digits := if |s| > 1 && s[0] == '+' then s[1..] else s;
    if digits != [] && AllDigits(digits) && DigitsValue(digits) < U64Limit
    then Some(DigitsValue(digits))
    else None
  }

  /** The decimal rendering of `n`, without sign or leading zeros. */
  function ShowNat(n: nat): (s: string)
    ensures s != [] && AllDigits(s)
    ensures n >= 10 ==> s[0] != '0'
  {
    if n < 10 then [DigitChar(n)] else ShowNat(n / 10) + [DigitChar(n % 10)]
  }

  lemma {:induction false} ShowNatValue(n: nat)
    ensures DigitsValue(ShowNat(n)) == n
  {
    if n >= 10 {
      var s := ShowNat(n);
      assert s[..|s| - 1] == ShowNat(n / 10);
      ShowNatValue(n / 10);
    }
  }

  /** Parsing the decimal rendering of a `u64` gives the number back. */
  lemma ParseShowNat(n: nat)
    requires n < U64Limit
    ensures ParseU64(ShowNat(n)) == Some(n)
  {
    ShowNatValue(n);
  }

  /** An explicit leading `+` is accepted too. */
  lemma ParsePlusShowNat(n: nat)
    requires n < U64Limit
    ensures ParseU64("+" + ShowNat(n)) == Some(n)
  {
    assert ("+" + ShowNat(n))[1..] == ShowNat(n);
    ShowNatValue(n);
  }

  /** A number of 2^64 or more does not parse: the `u64` overflows. */
  lemma ParseOverflow(n: nat)
    requires n >= U64Limit
    ensures ParseU64(ShowNat(n)) == None
  {
    ShowNatValue(n);
  }

  /** The empty string, a lone sign and a negative number are all rejected. */
  lemma ParseRejectsSigns(n: nat)
    ensures ParseU64("") == None && ParseU64("+") == None && ParseU64("-") == None
    ensures ParseU64("-" + ShowNat(n)) == None
  {
    assert !IsDigit(("-" + ShowNat(n))[0]);
  }

  /** A character other than a digit, anywhere but as a leading `+`, makes parsing fail. */
  lemma ParseRejectsNonDigit(s: string, i: nat)
    requires i < |s| && !IsDigit(s[i])
    requires !(i == 0 && s[0] == '+' && |s| > 1)
    ensures ParseU64(s) == None
  {
    if |s| > 1 && s[0] == '+' {
      assert s[1..][i - 1] == s[i];
    }
  }

  /** `k` zero characters. */
  function Zeros(k: nat): (z: string)
    ensures |z| == k && AllDigits(z)
  {
    seq(k, _ => '0')
  }

  /** `t` is the decimal rendering of `n`, possibly preceded by zeros. */
  predicate ZeroPadded(t: string, n: nat)
  {
    |t| >= |ShowNat(n)| && t == Zeros(|t| - |ShowNat(n)|) + ShowNat(n)
  }

  lemma {:induction false} ZerosValue(k: nat)
    ensures DigitsValue(Zeros(k)) == 0
  {
    if k > 0 {
      assert Zeros(k)[..k - 1] == Zeros(k - 1);
      ZerosValue(k - 1);
    }
  }

  /** Leading zeros do not change the value of a digit string. */
  lemma {:induction false} PaddedValue(k: nat, ds: string)
    requires AllDigits(ds)
    ensures AllDigits(Zeros(k) + ds)
    ensures DigitsValue(Zeros(k) + ds) == DigitsValue(ds)
  {
    var t := Zeros(k) + ds;
    assert forall i :: 0 <= i < |t| ==> IsDigit(t[i]) by {
      forall i | 0 <= i < |t| ensures IsDigit(t[i]) {
        if i >= k { assert t[i] == ds[i - k]; }
      }
    }
    if ds == [] {
      assert t == Zeros(k);
      ZerosValue(k);
    } else {
      var front := ds[..|ds| - 1];
      assert t[..|t| - 1] == Zeros(k) + front;
      assert t[|t| - 1] == ds[|ds| - 1];
      PaddedValue(k, front);
    }
  }

  /** Appending a digit to zeros gives that digit's rendering, padded. */
  lemma PadAppendToZero(front: string, c: char)
    requires IsDigit(c)
    requires ZeroPadded(front, 0)
    ensures ZeroPadded(front + [c], DigitValue(c))
  {
    assert DigitChar(DigitValue(c)) == c;
    assert ShowNat(0) == "0";
    assert front == Zeros(|front|);
    assert front + [c] == Zeros(|front|) + [c];
  }

  /** Appending a digit to the padded rendering of a positive `v` gives that of `10 * v + digit`. */
  lemma PadAppendToPositive(front: string, c: char, v: nat)
    requires IsDigit(c) && v > 0
    requires ZeroPadded(front, v)
    ensures ZeroPadded(front + [c], 10 * v + DigitValue(c))
  {
    var n := 10 * v + DigitValue(c);
    assert DigitChar(DigitValue(c)) == c;
    assert n / 10 == v && n % 10 == DigitValue(c);
    assert ShowNat(n) == ShowNat(v) + [c];
    var k := |front| - |ShowNat(v)|;
    assert front + [c] == Zeros(k) + ShowNat(n);
  }

  /** Every non-empty digit string is some number's rendering, padded with zeros. */
  lemma {:induction false} DigitsAreZeroPadded(ds: string)
    requires ds != [] && AllDigits(ds)
    ensures ZeroPadded(ds, DigitsValue(ds))
  {
    var c := ds[|ds| - 1];
    var front := ds[..|ds| - 1];
    assert ds == front + [c];
    if front == [] {
      assert DigitChar(DigitValue(c)) == c;
      assert Zeros(0) + [c] == ds;
    } else {
      DigitsAreZeroPadded(front);
      var v := DigitsValue(front);
      assert DigitsValue(ds) == 10 * v + DigitValue(c);
      if v == 0 {
        PadAppendToZero(front, c);
      } else {
        PadAppendToPositive(front, c, v);
      }
    }
  }

  /**
   * What `u64::from_str` accepts: exactly the renderings of numbers below 2^64,
   * possibly padded with zeros, possibly after one `+`.
   */
  lemma ParseAccepts(s: string, n: nat)
    requires ParseU64(s) == Some(n)
    ensures n < U64Limit
    ensures ZeroPadded(s, n) || (|s| > 1 && s[0] == '+' && ZeroPadded(s[1..], n))
  {
    var digits := if |s| > 1 && s[0] == '+' then s[1..] else s;
    DigitsAreZeroPadded(digits);
  }

  /** Conversely, a zero-padded rendering of a `u64` parses to it, with or without one `+`. */
  lemma ParseZeroPadded(k: nat, n: nat)
    requires n < U64Limit
    ensures ParseU64(Zeros(k) + ShowNat(n)) == Some(n)
    ensures ParseU64("+" + Zeros(k) + ShowNat(n)) == Some(n)
  {
    assert ("+" + Zeros(k) + ShowNat(n))[1..] == Zeros(k) + ShowNat(n);
    PaddedValue(k, ShowNat(n));
    ShowNatValue(n);
  }
}
