/** Areas and addresses of the rows of a plane, by repeated addition of the stride. */
module Rows {
  import opened Alignment

  /** `n` rows of `a` bytes. */
  function Times(a: nat, n: nat): nat {
    if n == 0 then 0 else Times(a, n - 1) + a
  }

  lemma {:induction false} TimesIsProduct(a: nat, n: nat)
    ensures Times(a, n) == a * n
  {
    if n > 0 {
      TimesIsProduct(a, n - 1);
      ProductStep(a, n);
    }
  }

  lemma ProductStep(a: nat, n: nat)
    requires n > 0
    ensures a * n == a * (n - 1) + a
  {
  }

  lemma {:induction false} TimesSmall(n: nat)
    ensures Times(1, n) == n && Times(2, n) == 2 * n && Times(4, n) == 4 * n
  {
    if n > 0 {
      TimesSmall(n - 1);
    }
  }

  lemma {:induction false} TimesMono(a: nat, n: nat, m: nat)
    requires n <= m
    ensures Times(a, n) <= Times(a, m) && (n < m ==> Times(a, n) + a <= Times(a, m))
    decreases m
  {
    if n < m {
      TimesMono(a, n, m - 1);
    }
  }

  lemma {:induction false} TimesAdd(a: nat, n: nat, m: nat)
    ensures Times(a, n + m) == Times(a, n) + Times(a, m)
  {
    if m > 0 {
      TimesAdd(a, n, m - 1);
    }
  }

  lemma TimesComm(a: nat, n: nat)
    ensures Times(a, n) == Times(n, a)
  {
    TimesIsProduct(a, n);
    TimesIsProduct(n, a);
  }

  /** The quotient by repeated subtraction. */
  function Quotient(x: nat, d: nat): nat
    requires d > 0
  {
    if x < d then 0 else 1 + Quotient(x - d, d)
  }

  lemma {:induction false} QuotientBounds(x: nat, d: nat)
    requires d > 0
    ensures Times(d, Quotient(x, d)) <= x < Times(d, Quotient(x, d)) + d
  {
    if x >= d {
      QuotientBounds(x - d, d);
    }
  }

  lemma QuotientIsDivision(x: nat, d: nat)
    requires d > 0
    ensures Quotient(x, d) == x / d
  {
    var q := Quotient(x, d);
    QuotientBounds(x, d);
    TimesIsProduct(d, q);
    DivModUnique(x, d, q, x - d * q);
  }

  lemma {:induction false} QuotientOfTimes(d: nat, n: nat)
    requires d > 0
    ensures Quotient(Times(d, n), d) == n
  {
    if n > 0 {
      QuotientOfTimes(d, n - 1);
    }
  }

  lemma {:induction false} TimesMonoLeft(a: nat, b: nat, n: nat)
    requires a <= b
    ensures Times(a, n) <= Times(b, n)
  {
    if n > 0 {
      TimesMonoLeft(a, b, n - 1);
    }
  }

  lemma {:induction false} TimesTwice(a: nat, n: nat)
    ensures Times(2 * a, n) == 2 * Times(a, n)
  {
    if n > 0 {
      TimesTwice(a, n - 1);
    }
  }

  lemma {:induction false} TimesDouble(a: nat, k: nat)
    ensures Times(a, 2 * k) == 2 * Times(a, k)
  {
    if k > 0 {
      TimesDouble(a, k - 1);
      assert Times(a, 2 * k - 1) == Times(a, 2 * (k - 1)) + a;
    }
  }

  lemma TimesHalf(a: nat, n: nat)
    requires n % 2 == 0
    ensures Times(a, n) == 2 * Times(a, n / 2) && Times(a, n) / 2 == Times(a, n / 2)
  {
    TimesDouble(a, n / 2);
  }

  /** A multiple times anything is a multiple. */
  lemma {:induction false} TimesMultiple(a: nat, n: nat, k: nat)
    requires k > 0 && a % k == 0
    ensures Times(a, n) % k == 0
  {
    if n > 0 {
      TimesMultiple(a, n - 1, k);
      AddMultiples(Times(a, n - 1), a, k);
    }
  }

  lemma AddMultiples(x: nat, y: nat, k: nat)
    requires k > 0 && x % k == 0 && y % k == 0
    ensures (x + y) % k == 0
  {
    var p, q := x / k, y / k;
    assert x == k * p && y == k * q;
    assert x + y == k * (p + q);
    MultipleMod(p + q, k);
  }

  /** Start of row `r`: the pointer after `r` increments by the stride. */
  function RowStart(off: nat, stride: nat, r: nat): (s: nat)
    ensures s >= off
  {
    if r == 0 then off else RowStart(off, stride, r - 1) + stride
  }

  lemma {:induction false} RowStartIsTimes(off: nat, stride: nat, r: nat)
    ensures RowStart(off, stride, r) == off + Times(stride, r)
  {
    if r > 0 {
      RowStartIsTimes(off, stride, r - 1);
    }
  }

  lemma {:induction false} RowStartMono(off: nat, stride: nat, r: nat, r': nat)
    requires r <= r'
    ensures RowStart(off, stride, r) <= RowStart(off, stride, r')
    ensures r < r' ==> RowStart(off, stride, r) + stride <= RowStart(off, stride, r')
    decreases r'
  {
    if r < r' {
      RowStartMono(off, stride, r, r' - 1);
    }
  }

  /** Positions within rows are unique. */
  lemma RowPositionUnique(off: nat, stride: nat, r: nat, x: nat, r': nat, x': nat)
    requires x < stride && x' < stride && (r != r' || x != x')
    ensures RowStart(off, stride, r) + x != RowStart(off, stride, r') + x'
  {
    if r < r' {
      RowStartMono(off, stride, r, r');
    } else if r' < r {
      RowStartMono(off, stride, r', r);
    }
  }

  lemma {:induction false} RowStartParity(off: nat, stride: nat, r: nat)
    requires stride % 2 == 0
    ensures RowStart(off, stride, r) % 2 == off % 2
  {
    if r > 0 {
      RowStartParity(off, stride, r - 1);
      EvenStep(RowStart(off, stride, r - 1), stride);
    }
  }

  lemma EvenStep(x: nat, stride: nat)
    requires stride % 2 == 0
    ensures (x + stride) % 2 == x % 2
  {
  }
}
