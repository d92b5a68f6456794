/** Little-endian positional numbers over the two radices of the base-122 codec.
    Multiplying and dividing by the radix goes through `Times`, `Quot` and `Rem`, so that
    every proof below is linear arithmetic. */
module Positional {

  datatype Radix = R122 | R256

  function Size(r: Radix): nat {
    match r case R122 => 122 case R256 => 256
  }

  function Times(r: Radix, x: nat): nat {
    match r case R122 => 122 * x case R256 => 256 * x
  }

  function Quot(r: Radix, x: nat): nat {
    match r case R122 => x / 122 case R256 => x / 256
  }

  function Rem(r: Radix, x: nat): nat {
    match r case R122 => x % 122 case R256 => x % 256
  }

  /** `x` moved up by `n` digit places. */
  function Scale(r: Radix, n: nat, x: nat): nat {
    if n == 0 then x else Times(r, Scale(r, n - 1, x))
  }

  function Pow(r: Radix, n: nat): nat {
    Scale(r, n, 1)
  }

  ghost predicate AreDigits(r: Radix, ds: seq<nat>) {
    forall i :: 0 <= i < |ds| ==> ds[i] < Size(r)
  }

  /** The number written by `ds`, least significant digit first. */
  function Value(r: Radix, ds: seq<nat>): nat {
    if ds == [] then 0 else ds[0] + Times(r, Value(r, ds[1..]))
  }

  /** The `n` low digits of `v`, least significant first. */
  function Digits(r: Radix, v: nat, n: nat): (ds: seq<nat>)
    ensures |ds| == n
  {
    if n == 0 then [] else [Rem(r, v)] + Digits(r, Quot(r, v), n - 1)
  }

  lemma {:induction false} ScaleTimes(r: Radix, n: nat, x: nat)
    ensures Scale(r, n, Times(r, x)) == Scale(r, n + 1, x)
  {
    if n > 0 {
      ScaleTimes(r, n - 1, x);
    }
  }

  lemma {:induction false} ScaleAdd(r: Radix, n: nat, x: nat, y: nat)
    ensures Scale(r, n, x + y) == Scale(r, n, x) + Scale(r, n, y)
  {
    if n > 0 {
      ScaleAdd(r, n - 1, x, y);
    }
  }

  lemma {:induction false} ScaleZero(r: Radix, n: nat)
    ensures Scale(r, n, 0) == 0
  {
    if n > 0 {
      ScaleZero(r, n - 1);
    }
  }

  lemma TimesProduct(r: Radix, x: nat, p: nat)
    ensures Times(r, x * p) == x * Times(r, p)
  {
  }

  lemma {:induction false} ScaleIsProduct(r: Radix, n: nat, x: nat)
    ensures Scale(r, n, x) == x * Pow(r, n)
  {
    if n > 0 {
      ScaleIsProduct(r, n - 1, x);
      TimesProduct(r, x, Pow(r, n - 1));
    }
  }

  lemma {:induction false} DigitsAreDigits(r: Radix, v: nat, n: nat)
    ensures AreDigits(r, Digits(r, v, n))
  {
    if n > 0 {
      DigitsAreDigits(r, Quot(r, v), n - 1);
    }
  }

  /** `n` digits write only numbers below `Pow(r, n)`. */
  lemma {:induction false} ValueBound(r: Radix, ds: seq<nat>)
    requires AreDigits(r, ds)
    ensures Value(r, ds) < Pow(r, |ds|)
  {
    if ds != [] {
      ValueBound(r, ds[1..]);
    }
  }

  /** Digits are read back from the number they write. */
  lemma {:induction false} DigitsOfValue(r: Radix, ds: seq<nat>)
    requires AreDigits(r, ds)
    ensures Digits(r, Value(r, ds), |ds|) == ds
  {
    if ds != [] {
      DigitsOfValue(r, ds[1..]);
      assert ds == [ds[0]] + ds[1..];
    }
  }

  /** A number is recovered from its `n` low digits exactly when it is below `Pow(r, n)`. */
  lemma {:induction false} ValueOfDigits(r: Radix, v: nat, n: nat)
    ensures Value(r, Digits(r, v, n)) == v <==> v < Pow(r, n)
  {
    if n > 0 {
      ValueOfDigits(r, Quot(r, v), n - 1);
      assert Digits(r, v, n)[1..] == Digits(r, Quot(r, v), n - 1);
    } else {
      assert Digits(r, v, 0) == [];
    }
  }

  /** One step of a left-to-right accumulation: the digit at `k` moves from the unread
      tail into the accumulated number. */
  lemma AccumulateDigit(r: Radix, ds: seq<nat>, k: nat, acc: nat)
    requires k < |ds|
    requires Value(r, ds) == acc + Scale(r, k, Value(r, ds[k..]))
    ensures Value(r, ds) == acc + ds[k] * Pow(r, k) + Scale(r, k + 1, Value(r, ds[k + 1..]))
  {
    assert ds[k..][1..] == ds[k + 1..];
    ScaleAdd(r, k, ds[k], Times(r, Value(r, ds[k + 1..])));
    ScaleTimes(r, k, Value(r, ds[k + 1..]));
    ScaleIsProduct(r, k, ds[k]);
  }
}
