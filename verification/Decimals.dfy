/** Decimal numbers in bytes. */
module Decimals {
  import opened Bytes

  predicate IsDigit(b: byte) { 48 <= b <= 57 }

  predicate AllDigits(run: seq<byte>) { forall i :: 0 <= i < |run| ==> IsDigit(run[i]) }

  function Decimal(n: nat): (s: seq<byte>)
    ensures s != []
  {
    (if n < 10 then [] else Decimal(n / 10)) + [(48 + n % 10) as byte]
  }

  function Number(digits: seq<byte>): nat
    requires AllDigits(digits)
  {
    if digits == [] then 0
    else
      assert IsDigit(digits[|digits| - 1]);
      10 * Number(digits[..|digits| - 1]) + (digits[|digits| - 1] as int - 48)
  }

  lemma {:induction false} NumberOfDecimal(n: nat)
    ensures AllDigits(Decimal(n))
    ensures Number(Decimal(n)) == n
  {
    var d := (48 + n % 10) as byte;
    var init := if n < 10 then [] else Decimal(n / 10);
    if n >= 10 { NumberOfDecimal(n / 10); } else { NumberOfNothing(); }
    assert Decimal(n) == init + [d];
    hide Decimal, Number;
    NumberGrows(init, d);
  }

  function DigitRun(s: seq<byte>): (n: nat)
    ensures n <= |s| && forall i :: 0 <= i < n ==> IsDigit(s[i])
  {
    if s != [] && IsDigit(s[0]) then 1 + DigitRun(s[1..]) else 0
  }

  lemma {:induction false} DigitRunStops(d: seq<byte>, s: seq<byte>)
    requires AllDigits(d)
    requires s != [] && !IsDigit(s[0])
    ensures DigitRun(d + s) == |d|
  {
    if d == [] {
      assert d + s == s;
    } else {
      DigitRunStops(d[1..], s);
      assert (d + s)[1..] == d[1..] + s;
    }
  }

  lemma DigitRunEnds(d: seq<byte>, s: seq<byte>)
    requires AllDigits(d) && (s != [] ==> !IsDigit(s[0]))
    ensures DigitRun(d + s) == |d|
  {
    if s == [] {
      AllDigitsRun(d);
      assert d + s == d;
    } else {
      DigitRunStops(d, s);
    }
  }

  lemma {:induction false} AllDigitsRun(d: seq<byte>)
    requires AllDigits(d)
    ensures DigitRun(d) == |d|
  {
    if d != [] { AllDigitsRun(d[1..]); }
  }

  lemma NumberOfNothing()
    ensures Number([]) == 0
  {
  }

  lemma NumberGrows(run: seq<byte>, d: byte)
    requires AllDigits(run) && IsDigit(d)
    ensures AllDigits(run + [d]) && Number(run + [d]) == Number(run) * 10 + (d as int - 48)
  {
    assert (run + [d])[..|run|] == run;
  }

  lemma DecimalInjective(m: nat, n: nat)
    requires Decimal(m) == Decimal(n)
    ensures m == n
  {
    NumberOfDecimal(m);
    NumberOfDecimal(n);
  }

  /** A number without its leading zeros; one digit always stays. */
  function StripZeros(digits: seq<byte>): seq<byte> {
    if |digits| > 1 && digits[0] == 48 then StripZeros(digits[1..]) else digits
  }

  lemma {:induction false} LeadingZero(digits: seq<byte>)
    requires digits != [] && digits[0] == 48
    requires AllDigits(digits)
    ensures Number(digits) == Number(digits[1..])
  {
    var n := |digits| - 1;
    if n > 0 {
      LeadingZero(digits[..n]);
      assert digits[..n][1..] == digits[1..][..n - 1];
    }
  }

  lemma {:induction false} NumberPositive(digits: seq<byte>)
    requires digits != [] && digits[0] != 48
    requires AllDigits(digits)
    ensures Number(digits) > 0 && (|digits| > 1 ==> Number(digits) >= 10)
  {
    assert IsDigit(digits[0]);
    if |digits| > 1 { NumberPositive(digits[..|digits| - 1]); }
  }

  /** Printing the value of a run of digits gives the run without leading zeros. */
  lemma {:induction false} DecimalOfNumber(digits: seq<byte>)
    requires digits != [] && AllDigits(digits)
    ensures Decimal(Number(digits)) == StripZeros(digits)
  {
    var n := |digits| - 1;
    if n == 0 {
      assert IsDigit(digits[0]) && digits[..0] == [];
    } else if digits[0] == 48 {
      LeadingZero(digits);
      DecimalOfNumber(digits[1..]);
    } else {
      NumberPositive(digits);
      DecimalOfNumber(digits[..n]);
      assert IsDigit(digits[n]);
      assert Number(digits) / 10 == Number(digits[..n]);
      assert digits == digits[..n] + [digits[n]];
    }
  }
}
