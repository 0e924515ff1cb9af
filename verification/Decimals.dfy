/** Bytes, and decimal numbers written in them. */
module Decimals {

  newtype Byte = b: int | 0 <= b < 256

  type Bytes = seq<Byte>

  const ZERO: Byte := 48
  const COLON: Byte := 58

  /** 2 to the power 53, minus 1. */
  const MAX_SAFE_INTEGER: nat := 9007199254740991

  predicate IsDigit(b: Byte) {
    48 <= b <= 57
  }

  predicate AllDigits(ds: Bytes) {
    forall i :: 0 <= i < |ds| ==> IsDigit(ds[i])
  }

  /** The decimal spelling of a number, as a template literal prints it. */
  function Decimal(n: nat): (ds: Bytes)
    ensures ds != [] && AllDigits(ds)
  {
    if n < 10 then [(48 + n) as Byte] else Decimal(n / 10) + [(48 + n % 10) as Byte]
  }

  /** The number that some digits spell. */
  function Value(ds: Bytes): nat
    requires AllDigits(ds)
  {
    if ds == [] then 0 else Value(ds[..|ds| - 1]) * 10 + (ds[|ds| - 1] as int - 48)
  }

  /** The length of the leading run of digits. */
  function DigitRun(s: Bytes): (n: nat)
    ensures n <= |s| && AllDigits(s[..n]) && (n < |s| ==> !IsDigit(s[n]))
  {
    if s == [] || !IsDigit(s[0]) then 0
    else
      var n := 1 + DigitRun(s[1..]);
      assert s[..n] == [s[0]] + s[1..][..n - 1];
      n
  }

  /** Spelled without a leading zero. */
  predicate Canonical(ds: Bytes) {
    ds != [] && (ds[0] == ZERO ==> |ds| == 1)
  }

  lemma {:induction false} ValueOfDecimal(n: nat)
    ensures Value(Decimal(n)) == n && Canonical(Decimal(n))
    ensures n > 0 ==> Decimal(n)[0] != ZERO
  {
    if n >= 10 {
      ValueOfDecimal(n / 10);
      assert Decimal(n)[..|Decimal(n)| - 1] == Decimal(n / 10);
    }
  }

  lemma {:induction false} DecimalOfValue(ds: Bytes)
    requires AllDigits(ds) && Canonical(ds)
    ensures Decimal(Value(ds)) == ds
    ensures ds[0] != ZERO ==> Value(ds) > 0
  {
    var n := |ds| - 1;
    if n > 0 {
      DecimalOfValue(ds[..n]);
      var v, d := Value(ds[..n]), ds[n] as int - 48;
      assert (v * 10 + d) / 10 == v && (v * 10 + d) % 10 == d;
      assert Decimal(Value(ds)) == Decimal(v) + [(48 + d) as Byte];
      assert ds == ds[..n] + [ds[n]];
    } else {
      assert ds == [ds[0]] && ds[..0] == [];
    }
  }

  lemma {:induction false} DigitRunOf(ds: Bytes, rest: Bytes)
    requires AllDigits(ds) && (rest != [] ==> !IsDigit(rest[0]))
    ensures DigitRun(ds + rest) == |ds|
  {
    if ds == [] {
      assert ds + rest == rest;
    } else {
      DigitRunOf(ds[1..], rest);
      assert (ds + rest)[1..] == ds[1..] + rest;
    }
  }
}
