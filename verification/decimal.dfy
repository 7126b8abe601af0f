/** Decimal text: Python's `str` of a non-negative integer and `int` of a string. */
module Decimal {
  import opened Errors

  predicate IsDigit(c: char)
  {
    '0' <= c <= '9'
  }

  predicate AllDigits(s: string)
  {
    forall i :: 0 <= i < |s| ==> IsDigit(s[i])
  }

  function Pow10(n: nat): (p: nat)
    ensures p >= 1
  {
    if n == 0 then 1 else 10 * Pow10(n - 1)
  }

  function DigitChar(d: nat): (c: char)
    requires d < 10
    ensures IsDigit(c)
  {
    (48 + d) as char
  }

  function DigitValue(c: char): (d: nat)
    requires IsDigit(c)
    ensures d < 10
  {
    c as int - 48
  }

  /** `k` copies of '0'. */
  function Zeros(k: nat): (z: string)
    ensures |z| == k && AllDigits(z)
    ensures forall i :: 0 <= i < k ==> z[i] == '0'
  {
    seq(k, _ => '0')
  }

  /** `str(x)`: the digits of `x` without leading zeros ("0" for zero). */
  function NatToStr(x: nat): (s: string)
    ensures 1 <= |s| && AllDigits(s)
    ensures x > 0 ==> s[0] != '0'
    decreases x
  {
    if x < 10 then [DigitChar(x)] else NatToStr(x / 10) + [DigitChar(x % 10)]
  }

  /** The value of a string of decimal digits, leading zeros allowed. */
  function DigitsValue(s: string): nat
    requires AllDigits(s)
  {
    if |s| == 0 then 0 else 10 * DigitsValue(s[..|s| - 1]) + DigitValue(s[|s| - 1])
  }

  lemma {:induction false} DigitsValueOfNatToStr(x: nat)
    ensures DigitsValue(NatToStr(x)) == x
    decreases x
  {
    if x >= 10 {
      var s := NatToStr(x);
      assert s[..|s| - 1] == NatToStr(x / 10);
      DigitsValueOfNatToStr(x / 10);
    }
  }

  lemma {:induction false} LeadingZerosIgnored(k: nat, s: string)
    requires AllDigits(s)
    ensures DigitsValue(Zeros(k) + s) == DigitsValue(s)
    decreases |s|
  {
    if |s| == 0 {
      ZerosValue(k);
      assert Zeros(k) + s == Zeros(k);
    } else {
      var t := Zeros(k) + s;
      assert t[..|t| - 1] == Zeros(k) + s[..|s| - 1];
      LeadingZerosIgnored(k, s[..|s| - 1]);
    }
  }

  lemma {:induction false} ZerosValue(k: nat)
    ensures DigitsValue(Zeros(k)) == 0
  {
    if k > 0 {
      assert Zeros(k)[..k - 1] == Zeros(k - 1);
      ZerosValue(k - 1);
    }
  }

  /** `str(x)` has at most `d` characters exactly when `x < 10^d`. */
  lemma {:induction false} NatToStrFits(x: nat, d: nat)
    requires d >= 1
    ensures |NatToStr(x)| <= d <==> x < Pow10(d)
    decreases x
  {
    if x >= 10 {
      if d == 1 {
        assert |NatToStr(x)| >= 2;
      } else {
        NatToStrFits(x / 10, d - 1);
        assert x < Pow10(d) <==> x / 10 < Pow10(d - 1);
      }
    } else {
      PowAtLeastTen(d);
    }
  }

  lemma {:induction false} PowAtLeastTen(d: nat)
    requires d >= 1
    ensures Pow10(d) >= 10
  {
    if d > 1 {
      PowAtLeastTen(d - 1);
    }
  }

  /** `int(s)` for a str: an optional sign, then one or more ASCII digits. */
  function ParseInt(s: string): (r: Result<int>)
    ensures r.Ok? <==> (|s| > 0 && AllDigits(s)) || (|s| > 1 && (s[0] == '+' || s[0] == '-') && AllDigits(s[1..]))
    ensures r.Err? ==> r.error == ValueError
    ensures |s| > 0 && AllDigits(s) ==> r == Ok(DigitsValue(s))
    ensures |s| > 1 && s[0] == '+' && AllDigits(s[1..]) ==> r == Ok(DigitsValue(s[1..]))
    ensures |s| > 1 && s[0] == '-' && AllDigits(s[1..]) ==> r.Ok? && r.value == -(DigitsValue(s[1..]) as int)
  {
    if |s| > 0 && AllDigits(s) then Ok(DigitsValue(s))
    else if |s| > 1 && s[0] == '+' && AllDigits(s[1..]) then Ok(DigitsValue(s[1..]))
    else if |s| > 1 && s[0] == '-' && AllDigits(s[1..]) then Ok(0 - DigitsValue(s[1..]) as int)
    else Err(ValueError)
  }

  /** `int(str(x)) == x`. */
  lemma ParseIntOfNatToStr(x: nat)
    ensures ParseInt(NatToStr(x)) == Ok(x)
  {
    DigitsValueOfNatToStr(x);
  }

  /** `[int(x) for x in items]`: every item as an integer; the first item that
      does not parse raises ValueError. */
  function ParseInts(items: seq<string>): (r: Result<seq<int>>)
    ensures r.Ok? <==> forall k :: 0 <= k < |items| ==> ParseInt(items[k]).Ok?
    ensures r.Ok? ==> |r.value| == |items|
    ensures r.Ok? ==> forall k :: 0 <= k < |r.value| ==> ParseInt(items[k]) == Ok(r.value[k])
    ensures r.Err? ==> r.error == ValueError
    decreases |items|
  {
    if |items| == 0 then Ok([])
    else
      var head := ParseInt(items[0]);
      var rest := ParseInts(items[1..]);
      assert forall k :: 0 < k < |items| ==> items[1..][k - 1] == items[k];
      if head.Err? then Err(ValueError)
      else if rest.Err? then Err(ValueError)
      else Ok([head.value] + rest.value)
  }
}
