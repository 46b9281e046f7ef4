/**
 * Positional arithmetic shared by both directions of the codec: powers,
 * the little-endian value of a digit sequence, and the facts that let a
 * value be taken apart into digits and put back together.
 */
module Digits {

  /** b raised to the k-th power. */
  function Pow(b: nat, k: nat): (r: nat)
    ensures b > 0 ==> r > 0
  {
    if k == 0 then 1 else b * Pow(b, k - 1)
  }

  /** Every digit of ds is below the base b. */
  predicate AllBelow(ds: seq<nat>, b: nat)
  {
    forall i :: 0 <= i < |ds| ==> ds[i] < b
  }

  /**
   * The little-endian value of ds in base b: ds[0] weighs b^0, ds[1]
   * weighs b^1 and so on. Defined on the last digit, the way the codec's
   * loops accumulate it one weighted digit at a time.
   */
  function Value(ds: seq<nat>, b: nat): (r: nat)
  {
    if |ds| == 0 then 0
    else Value(ds[..|ds| - 1], b) + ds[|ds| - 1] * Pow(b, |ds| - 1)
  }

  /** One more digit: digit k weighs b^k. */
  lemma ValueNext(ds: seq<nat>, b: nat, k: nat)
    requires k < |ds|
    ensures Value(ds[..k + 1], b) == Value(ds[..k], b) + ds[k] * Pow(b, k)
  {
    assert ds[..k + 1][..k] == ds[..k];
  }

  /** The first n little-endian base-b digits of v. */
  function DigitsOf(v: nat, b: nat, n: nat): (ds: seq<nat>)
    requires b > 0
    ensures |ds| == n
    ensures forall k :: 0 <= k < n ==> ds[k] == v / Pow(b, k) % b
  {
    seq(n, k requires 0 <= k < n => v / Pow(b, k) % b)
  }

  lemma {:induction false} PowAdd(b: nat, j: nat, k: nat)
    ensures Pow(b, j) * Pow(b, k) == Pow(b, j + k)
    decreases k
  {
    if k > 0 {
      PowAdd(b, j, k - 1);
      calc {
        Pow(b, j) * Pow(b, k);
        Pow(b, j) * (b * Pow(b, k - 1));
        b * (Pow(b, j) * Pow(b, k - 1));
        b * Pow(b, j + k - 1);
      }
    }
  }

  /** Quotient and remainder are unique. */
  lemma DivModUnique(v: nat, m: nat, q: nat, r: nat)
    requires m > 0 && r < m && v == m * q + r
    ensures v / m == q && v % m == r
  {
    var q', r' := v / m, v % m;
    assert (q' - q) * m == r - r';
    MulOutside(q' - q, m);
  }

  /** A non-zero multiple of m lies at least m away from zero. */
  lemma MulOutside(d: int, m: nat)
    ensures d >= 1 ==> d * m >= m
    ensures d <= -1 ==> d * m <= -(m as int)
  {
  }

  /** v is its quotient by m times m plus its remainder. */
  lemma DivModParts(v: nat, m: nat)
    requires m > 0
    ensures v == m * (v / m) + v % m && v % m < m
  {
  }

  /** Multiplying both sides of a <= c by the same p keeps the order. */
  lemma MulLeft(a: nat, c: nat, p: nat)
    requires a <= c
    ensures a * p <= c * p
  {
  }

  lemma Regroup(p: nat, b: nat, q1: nat, q0: nat, r: nat)
    ensures p * (b * q1 + q0) + r == (p * b) * q1 + (q0 * p + r)
  {
  }

  lemma PredTimes(b: nat, p: nat)
    requires b > 0
    ensures (b - 1) * p + p == b * p
  {
  }

  /** Taking a value modulo p·b keeps its low part and its next base-b digit. */
  lemma ModMulSplit(v: nat, p: nat, b: nat)
    requires p > 0 && b > 0
    ensures v % (p * b) == v % p + (v / p % b) * p
  {
    var q, r := v / p, v % p;
    var q1, q0 := q / b, q % b;
    DivModParts(v, p);
    DivModParts(q, b);
    Regroup(p, b, q1, q0, r);
    MulLeft(q0, b - 1, p);
    PredTimes(b, p);
    DivModUnique(v, p * b, q1, q0 * p + r);
  }

  /** A value of n digits below b is below b^n. */
  lemma {:induction false} ValueBound(ds: seq<nat>, b: nat)
    requires b > 0 && AllBelow(ds, b)
    ensures Value(ds, b) < Pow(b, |ds|)
    decreases |ds|
  {
    if |ds| > 0 {
      var n := |ds|;
      var front, last := ds[..n - 1], ds[n - 1];
      assert AllBelow(front, b);
      ValueBound(front, b);
      var p := Pow(b, n - 1);
      assert Value(ds, b) == Value(front, b) + last * p;
      TopDigitBound(Value(front, b), last, p, b);
      assert Pow(b, n) == b * p;
    }
  }

  /** A value below p plus a digit below b weighted by p stays below b·p. */
  lemma TopDigitBound(x: nat, d: nat, p: nat, b: nat)
    requires x < p && d < b
    ensures x + d * p < b * p
  {
    MulLeft(d, b - 1, p);
    PredTimes(b, p);
  }

  /** The value of a concatenation: the tail's value is shifted up by |head| digits. */
  lemma {:induction false} ValueSplit(ds: seq<nat>, b: nat, k: nat)
    requires k <= |ds|
    ensures Value(ds, b) == Value(ds[..k], b) + Pow(b, k) * Value(ds[k..], b)
    decreases |ds|
  {
    var n := |ds|;
    if k == n {
      assert ds[..k] == ds;
      assert ds[k..] == [];
    } else {
      var front, last := ds[..n - 1], ds[n - 1];
      ValueSplit(front, b, k);
      assert front[..k] == ds[..k];
      var tail := ds[k..];
      assert tail[..|tail| - 1] == front[k..];
      assert Value(tail, b) == Value(front[k..], b) + last * Pow(b, n - 1 - k);
      ShiftedSum(Pow(b, k), Value(front[k..], b), last, Pow(b, n - 1 - k));
      PowAdd(b, k, n - 1 - k);
    }
  }

  lemma ShiftedSum(p: nat, x: nat, d: nat, q: nat)
    ensures p * (x + d * q) == p * x + d * (p * q)
  {
  }

  /** Dividing by b^k drops the k low digits. */
  lemma ValueShift(ds: seq<nat>, b: nat, k: nat)
    requires b > 0 && AllBelow(ds, b) && k <= |ds|
    ensures Value(ds, b) / Pow(b, k) == Value(ds[k..], b)
  {
    var low, high := ds[..k], ds[k..];
    var v, p, vl, vh := Value(ds, b), Pow(b, k), Value(low, b), Value(high, b);
    ValueSplit(ds, b, k);
    assert AllBelow(low, b);
    ValueBound(low, b);
    DivModUnique(v, p, vh, vl);
  }

  /** The value modulo b is the lowest digit. */
  lemma ValueLowDigit(ds: seq<nat>, b: nat)
    requires b > 0 && |ds| > 0 && ds[0] < b
    ensures Value(ds, b) % b == ds[0]
  {
    ValueSplit(ds, b, 1);
    assert ds[..1][..0] == [];
    assert Value(ds[..1], b) == ds[0];
    DivModUnique(Value(ds, b), b, Value(ds[1..], b), ds[0]);
  }

  /**
   * Digit extraction: when every digit is below b, dividing the value by
   * b^k and reducing modulo b gives back digit k.
   */
  lemma ValueDigit(ds: seq<nat>, b: nat, k: nat)
    requires b > 0 && AllBelow(ds, b) && k < |ds|
    ensures Value(ds, b) / Pow(b, k) % b == ds[k]
  {
    ValueShift(ds, b, k);
    ValueLowDigit(ds[k..], b);
  }

  /** Reassembling the first n digits of v gives v modulo b^n. */
  lemma {:induction false} ValueOfDigits(v: nat, b: nat, n: nat)
    requires b > 0
    ensures Value(DigitsOf(v, b, n), b) == v % Pow(b, n)
    decreases n
  {
    if n > 0 {
      var ds := DigitsOf(v, b, n);
      assert ds[..n - 1] == DigitsOf(v, b, n - 1);
      ValueOfDigits(v, b, n - 1);
      ModMulSplit(v, Pow(b, n - 1), b);
    }
  }

  /** Reducing modulo b^n keeps every base-b digit below position n. */
  lemma ModKeepsDigit(x: nat, b: nat, k: nat, n: nat)
    requires b > 0 && k < n
    ensures x % Pow(b, n) / Pow(b, k) % b == x / Pow(b, k) % b
  {
    var ds := DigitsOf(x, b, n);
    ValueOfDigits(x, b, n);
    assert AllBelow(ds, b);
    ValueDigit(ds, b, k);
  }
}
