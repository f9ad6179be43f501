/**
 Sizes in archive headers: octal digits that the kernel first reads as a decimal number and
 then converts (octal_decimal in sys/files.c).
 */
module Octal {

  predicate IsOctal(ds: seq<int>) {
    forall i :: 0 <= i < |ds| ==> 0 <= ds[i] < 8
  }

  /** The digits read in base ten, as the loops over `size` do. */
  function DecVal(ds: seq<int>): (n: nat)
    requires IsOctal(ds)
  {
    if ds == [] then 0 else DecVal(ds[..|ds| - 1]) * 10 + ds[|ds| - 1]
  }

  /** The digits read in base eight, as the archive means them. */
  function OctVal(ds: seq<int>): (n: nat)
    requires IsOctal(ds)
  {
    if ds == [] then 0 else OctVal(ds[..|ds| - 1]) * 8 + ds[|ds| - 1]
  }

  /** The decimal digits of n read in base eight. */
  function OctOf(n: nat): nat {
    if n == 0 then 0 else OctOf(n / 10) * 8 + n % 10
  }

  function Pow8(t: nat): nat {
    if t == 0 then 1 else Pow8(t - 1) * 8
  }

  /** Base eight: one more digit at the end. */
  lemma OctMore(ds: seq<int>, d: int)
    requires IsOctal(ds) && 0 <= d < 8
    ensures IsOctal(ds + [d]) && OctVal(ds + [d]) == 8 * OctVal(ds) + d && DecVal(ds + [d]) == 10 * DecVal(ds) + d
  {
    assert (ds + [d])[..|ds|] == ds;
  }

  /** Reading the decimal number back in base eight gives the size, leading zeros and all. */
  lemma {:induction false} OctOfDecVal(ds: seq<int>)
    requires IsOctal(ds)
    ensures OctOf(DecVal(ds)) == OctVal(ds)
    decreases |ds|
  {
    if ds != [] {
      var front, d := ds[..|ds| - 1], ds[|ds| - 1];
      OctOfDecVal(front);
      assert (DecVal(front) * 10 + d) / 10 == DecVal(front) && (DecVal(front) * 10 + d) % 10 == d;
      assert DecVal(front) == 0 && d == 0 ==> OctVal(front) == 0;
    }
  }

  /** The true size is never more than the digits read in base ten. */
  lemma {:induction false} OctAtMostDec(ds: seq<int>)
    requires IsOctal(ds)
    ensures OctVal(ds) <= DecVal(ds)
    decreases |ds|
  {
    if ds != [] {
      OctAtMostDec(ds[..|ds| - 1]);
    }
  }

  lemma StepEq(num: nat, p: nat, decimal: nat)
    requires num != 0
    ensures decimal + p * OctOf(num) == (decimal + num % 10 * p) + (p * 8) * OctOf(num / 10)
  {
    hide OctOf;
    OctOfStep(num);
    Distribute(p, OctOf(num / 10), num % 10);
  }

  lemma OctOfStep(num: nat)
    requires num != 0
    ensures OctOf(num) == OctOf(num / 10) * 8 + num % 10
  {
  }

  lemma Distribute(p: nat, x: nat, r: nat)
    ensures p * (x * 8 + r) == (p * 8) * x + r * p
  {
  }

  /** octal_decimal */
  method OctalDecimal(n: nat) returns (decimal: nat)
    ensures decimal == OctOf(n)
  {
    var num, t := n, 0;
    decimal := 0;
    while num != 0
      invariant decimal + Pow8(t) * OctOf(num) == OctOf(n)
      decreases num
    {
      var rem := num % 10;
      var pow := 1;
      var i := 0;
      while i < t
        invariant i <= t && pow == Pow8(i)
      {
        pow := pow * 8;
        i := i + 1;
      }
      StepEq(num, pow, decimal);
      num := num / 10;
      t := t + 1;
      decimal := decimal + rem * pow;
    }
  }
}
