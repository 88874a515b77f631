/** Rounding up to a multiple, the ALIGN macro shared by the components. */
module Alignment {

  const TWO_32: nat := 0x1_0000_0000

  /** The source masks with `~(a - 1)`; for the powers of two it is used with that is rounding down
      to a multiple. */
  function AlignUp(x: nat, a: nat): (r: nat)
    requires a > 0
    ensures x <= r < x + a
  {
    x + a - 1 - (x + a - 1) % a
  }

  lemma AlignUpMultiple(x: nat, a: nat)
    requires a > 0
    ensures AlignUp(x, a) % a == 0
  {
    RemainderOfDifference(x + a - 1, a);
  }

  lemma RemainderOfDifference(t: nat, a: nat)
    requires a > 0
    ensures (t - t % a) % a == 0
  {
    Euclid(t, a);
    MultipleMod(t / a, a);
  }

  /** The defining equation of quotient and remainder. */
  lemma Euclid(t: nat, a: nat)
    requires a > 0
    ensures t == a * (t / a) + t % a
  {
  }

  lemma MultipleMod(q: nat, a: nat)
    requires a > 0
    ensures (a * q) % a == 0
  {
    DivModUnique(a * q, a, q, 0);
  }

  /** Quotient and remainder are determined by their defining equation. */
  lemma DivModUnique(n: nat, d: nat, q: nat, r: nat)
    requires r < d && n == d * q + r
    ensures n / d == q && n % d == r
  {
    Euclid(n, d);
    QuotientUnique(d, q, r, n / d, n % d);
  }

  lemma QuotientUnique(d: nat, q: nat, r: nat, q': nat, r': nat)
    requires r < d && r' < d && d * q + r == d * q' + r'
    ensures q == q' && r == r'
  {
    if q < q' {
      MulStep(d, q, q');
    } else if q' < q {
      MulStep(d, q', q);
    }
  }

  lemma MulStep(c: nat, x: nat, y: nat)
    requires x < y
    ensures c * x + c <= c * y
  {
    MulMono(c, x + 1, y);
    Distribute(c, x);
  }

  lemma Distribute(c: nat, x: nat)
    ensures c * (x + 1) == c * x + c
  {
  }

  lemma MulMono(c: nat, x: int, y: int)
    requires x <= y
    ensures c * x <= c * y
  {
    assert c * (y - x) >= 0;
  }

  /** Multiples that are less than `a` apart are equal. */
  lemma CloseMultiples(x: nat, y: nat, a: nat)
    requires a > 0 && x % a == 0 && y % a == 0 && x < y + a && y < x + a
    ensures x == y
  {
    Euclid(x, a);
    Euclid(y, a);
    if x / a < y / a {
      MulStep(a, x / a, y / a);
    } else if y / a < x / a {
      MulStep(a, y / a, x / a);
    }
  }

  /** The only multiple of `a` in a window of `a` numbers from `x` up is the rounded-up `x`. */
  lemma AlignUpUnique(x: nat, a: nat, m: nat)
    requires a > 0 && x <= m < x + a && m % a == 0
    ensures AlignUp(x, a) == m
  {
    AlignUpMultiple(x, a);
    CloseMultiples(AlignUp(x, a), m, a);
  }

  /** Different multiples of `a` are at least `a` apart. */
  lemma MultiplesApart(x: nat, y: nat, a: nat)
    requires a > 0 && x % a == 0 && y % a == 0 && x < y
    ensures x + a <= y
  {
    if y < x + a {
      CloseMultiples(x, y, a);
    }
  }

  /** Rounding up gives the least multiple that is not below. */
  lemma AlignUpLeast(x: nat, a: nat, m: nat)
    requires a > 0 && x <= m && m % a == 0
    ensures AlignUp(x, a) <= m
  {
    AlignUpMultiple(x, a);
    if m < AlignUp(x, a) {
      MultiplesApart(m, AlignUp(x, a), a);
    }
  }

  lemma MultipleOfDivisor(x: nat, a: nat, b: nat)
    requires a > 0 && b > 0 && x % a == 0 && a % b == 0
    ensures x % b == 0
  {
    Euclid(x, a);
    Euclid(a, b);
    Regroup(b, a / b, x / a);
    MultipleMod((a / b) * (x / a), b);
  }

  lemma Regroup(a: nat, b: nat, c: nat)
    ensures a * b * c == a * (b * c)
  {
  }

  /** Rounding to a divisor first does not change the result. */
  lemma AlignUpTwice(x: nat, a: nat, group: nat)
    requires a > 0 && group > 0 && group % a == 0
    ensures AlignUp(AlignUp(x, a), group) == AlignUp(x, group)
  {
    var m := AlignUp(x, group);
    AlignUpMultiple(x, group);
    MultipleOfDivisor(m, group, a);
    AlignUpLeast(x, a, m);
    AlignUpUnique(AlignUp(x, a), group, m);
  }

  /** `m` is the least multiple of `a` that is not below `x`. */
  ghost predicate LeastMultiple(m: nat, a: nat, x: nat) {
    a > 0 && m % a == 0 && x <= m && forall k: nat :: k < m && k % a == 0 ==> k < x
  }

  lemma LeastMultipleIsAlignUp(m: nat, a: nat, x: nat)
    requires a > 0
    ensures LeastMultiple(m, a, x) <==> m == AlignUp(x, a)
  {
    AlignUpMultiple(x, a);
    if LeastMultiple(m, a, x) {
      AlignUpLeast(x, a, m);
    }
    forall k: nat | k < AlignUp(x, a) && k % a == 0
      ensures k < x
    {
      if x <= k {
        AlignUpLeast(x, a, k);
      }
    }
  }
}
