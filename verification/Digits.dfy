/** Digits of numbers in a base, most significant first: expanding a number to a given width, the value of a list of
    digits, and that the two undo each other.  Base32Hex uses base 32 and base 256, the overflow buckets and the serial
    numbers of long directory names use base 10. */
module Digits {

  function Power(base: nat, n: nat): nat {
    if n == 0 then 1 else base * Power(base, n - 1)
  }

  function Value(base: nat, ds: seq<nat>): nat {
    if ds == [] then 0 else Value(base, ds[..|ds| - 1]) * base + ds[|ds| - 1]
  }

  function Expand(base: nat, n: nat, v: nat): (ds: seq<nat>)
    requires base > 0
    ensures |ds| == n
  {
    if n == 0 then [] else Expand(base, n - 1, v / base) + [v % base]
  }

  function Zeros(n: nat): seq<nat> {
    seq(n, _ => 0)
  }

  predicate Below(base: nat, ds: seq<nat>) {
    forall i :: 0 <= i < |ds| ==> ds[i] < base
  }

  lemma {:induction false} AtLeastOnce(d: nat, base: nat)
    requires d >= 1
    ensures d * base >= base
  {
    assert d * base == (d - 1) * base + base;
  }

  lemma {:induction false} SameMultiple(x: nat, y: nat, q: nat, r: nat, base: nat)
    requires x * base + y == q * base + r && y < base && r < base
    ensures x == q && y == r
  {
    if x > q {
      AtLeastOnce(x - q, base);
    } else if q > x {
      AtLeastOnce(q - x, base);
    }
  }

  lemma {:induction false} Divide(q: nat, base: nat, r: nat)
    requires r < base
    ensures (q * base + r) / base == q && (q * base + r) % base == r
  {
    var v := q * base + r;
    SameMultiple(v / base, v % base, q, r, base);
  }

  lemma {:induction false} Within(r1: nat, b: nat, r: nat, a: nat)
    requires r1 < b && r < a
    ensures r1 * a + r < b * a
  {
    var d := b - 1 - r1;
    assert b * a == (r1 + 1 + d) * a == r1 * a + a + d * a;
    assert d * a >= 0;
  }

  lemma {:induction false} Regroup(q1: nat, b: nat, r1: nat, a: nat, r: nat)
    ensures (q1 * b + r1) * a + r == q1 * (b * a) + (r1 * a + r)
  {
    assert (q1 * b + r1) * a == q1 * b * a + r1 * a;
    assert q1 * b * a == q1 * (b * a);
  }

  lemma {:induction false} QuotientBelow(v: nat, base: nat, p: nat)
    requires base > 0 && v < base * p
    ensures v / base < p
  {
    if v / base >= p {
      Scale(p, v / base, base);
    }
  }

  lemma {:induction false} Scale(p: nat, q: nat, base: nat)
    requires p <= q
    ensures base * p <= q * base
  {
    assert q * base == p * base + (q - p) * base;
  }

  lemma {:induction false} ExpandOfValue(base: nat, ds: seq<nat>)
    requires base > 0 && Below(base, ds)
    ensures Expand(base, |ds|, Value(base, ds)) == ds
  {
    if ds != [] {
      var init, last := ds[..|ds| - 1], ds[|ds| - 1];
      ExpandOfValue(base, init);
      Divide(Value(base, init), base, last);
      assert ds == init + [last];
    }
  }

  lemma {:induction false} ValueOfAppended(base: nat, ds: seq<nat>, d: nat)
    ensures Value(base, ds + [d]) == Value(base, ds) * base + d
  {
    assert (ds + [d])[..|ds|] == ds;
  }

  lemma {:induction false} Recompose(v: nat, base: nat)
    requires base > 0
    ensures v / base * base + v % base == v
  {
  }

  lemma {:induction false} ValueOfExpand(base: nat, n: nat, v: nat)
    requires base > 0 && v < Power(base, n)
    ensures Value(base, Expand(base, n, v)) == v && Below(base, Expand(base, n, v))
  {
    if n > 0 {
      QuotientBelow(v, base, Power(base, n - 1));
      ValueOfExpand(base, n - 1, v / base);
      ValueOfAppended(base, Expand(base, n - 1, v / base), v % base);
      Recompose(v, base);
    }
  }

  lemma {:induction false} ValueBound(base: nat, ds: seq<nat>)
    requires base > 0 && Below(base, ds)
    ensures Value(base, ds) < Power(base, |ds|)
  {
    if ds != [] {
      var init, last := ds[..|ds| - 1], ds[|ds| - 1];
      ValueBound(base, init);
      Within(Value(base, init), Power(base, |init|), last, base);
    }
  }

  /** Zeros at the end multiply the value. */
  lemma {:induction false} ValueOfPadded(base: nat, ds: seq<nat>, n: nat)
    ensures Value(base, ds + Zeros(n)) == Value(base, ds) * Power(base, n)
  {
    if n == 0 {
      assert ds + Zeros(0) == ds;
    } else {
      var all := ds + Zeros(n);
      assert all[..|all| - 1] == ds + Zeros(n - 1);
      ValueOfPadded(base, ds, n - 1);
      assert Value(base, ds) * Power(base, n - 1) * base == Value(base, ds) * (base * Power(base, n - 1));
    }
  }

  /** One more digit in front of the zeros. */
  lemma {:induction false} ValueOfNext(base: nat, ds: seq<nat>, d: nat, n: nat)
    ensures Value(base, ds + [d] + Zeros(n)) == Value(base, ds + Zeros(n + 1)) + d * Power(base, n)
  {
    ValueOfPadded(base, ds + [d], n);
    ValueOfPadded(base, ds, n + 1);
    assert (ds + [d])[..|ds|] == ds;
    Regroup(Value(base, ds), base, d, Power(base, n), 0);
  }

  /** A multiple of a power of the base ends in zeros. */
  lemma {:induction false} ExpandOfMultiple(base: nat, n: nat, w: nat, k: nat)
    requires base > 0 && k <= n
    ensures Expand(base, n, w * Power(base, k)) == Expand(base, n - k, w) + Zeros(k)
  {
    if k == 0 {
      assert w * Power(base, 0) == w;
    } else {
      var rest := w * Power(base, k - 1);
      assert w * Power(base, k) == rest * base;
      Divide(rest, base, 0);
      ExpandOfMultiple(base, n - 1, w, k - 1);
      assert Expand(base, n, w * Power(base, k)) == Expand(base, n - 1, rest) + [0];
      assert Zeros(k - 1) + [0] == Zeros(k);
    }
  }

  lemma {:induction false} PowerPositive(base: nat, n: nat)
    requires base > 0
    ensures Power(base, n) > 0
  {
    if n > 0 {
      PowerPositive(base, n - 1);
    }
  }

  lemma {:induction false} SplitOff(v: nat, q: nat, base: nat, r: nat)
    requires v == q * base + r && r < base
    ensures v / base == q
  {
    Divide(q, base, r);
  }

  lemma {:induction false} Recombine(v: nat, a: nat, b: nat, q: nat, r: nat, q1: nat, r1: nat)
    requires r < a && r1 < b && v == q * a + r && q == q1 * b + r1
    ensures b * a > 0 && v / (b * a) == q1
  {
    Regroup(q1, b, r1, a, r);
    Within(r1, b, r, a);
    SplitOff(v, q1, b * a, r1 * a + r);
  }

  lemma {:induction false} DivideTwice(v: nat, a: nat, b: nat)
    requires a > 0 && b > 0
    ensures b * a > 0 && v / (b * a) == v / a / b
  {
    Recombine(v, a, b, v / a, v % a, v / a / b, v / a % b);
  }

  /** A digit is a quotient's remainder. */
  lemma {:induction false} DigitAt(base: nat, n: nat, v: nat, i: nat)
    requires base > 0 && i < n
    ensures Power(base, n - 1 - i) > 0
    ensures Expand(base, n, v)[i] == v / Power(base, n - 1 - i) % base
  {
    PowerPositive(base, n - 1 - i);
    if i < n - 1 {
      DigitAt(base, n - 1, v / base, i);
      var p := Power(base, n - 2 - i);
      DivideTwice(v, base, p);
      assert p * base == Power(base, n - 1 - i);
    }
  }
}
