/** Division with remainder and multiplication by a positive side length,
    defined by repeated subtraction and addition. The board's field and
    block numberings are built on these; QuotIsDiv ties them to the
    division, remainder and product of integers. */
module Division {
  /** How many times d fits into x. */
  function Quot(x: nat, d: nat): nat
    requires d > 0
    decreases x
  {
    if x < d then 0 else 1 + Quot(x - d, d)
  }

  /** What is left of x once d has been taken away as often as it fits. */
  function Rem(x: nat, d: nat): (r: nat)
    requires d > 0
    ensures r < d
    decreases x
  {
    if x < d then x else Rem(x - d, d)
  }

  /** q copies of d added up. */
  function Times(q: nat, d: nat): nat
    decreases q
  {
    if q == 0 then 0 else d + Times(q - 1, d)
  }

  /** x is q copies of d plus a remainder below d. */
  lemma {:induction false} QuotRem(x: nat, d: nat)
    requires d > 0
    ensures Rem(x, d) < d
    ensures x == Times(Quot(x, d), d) + Rem(x, d)
    decreases x
  {
    if x >= d {
      QuotRem(x - d, d);
    }
  }

  /** q copies of d plus a remainder below d split back into q and that remainder. */
  lemma {:induction false} QuotRemUnique(q: nat, r: nat, d: nat)
    requires r < d
    ensures Quot(Times(q, d) + r, d) == q && Rem(Times(q, d) + r, d) == r
    decreases q
  {
    if q > 0 {
      QuotRemUnique(q - 1, r, d);
    }
  }

  /** Fewer copies of d fall short by at least d. */
  lemma {:induction false} TimesStep(q: nat, k: nat, d: nat)
    requires q < k
    ensures Times(q, d) + d <= Times(k, d)
    decreases k
  {
    if q < k - 1 {
      TimesStep(q, k - 1, d);
    }
  }

  /** Below k copies of d, d fits fewer than k times. */
  lemma QuotBelow(x: nat, d: nat, k: nat)
    requires d > 0 && x < Times(k, d)
    ensures Quot(x, d) < k
  {
    QuotRem(x, d);
    if Quot(x, d) > k {
      TimesStep(k, Quot(x, d), d);
    }
  }

  /** d fits fewer than k times into x exactly when x is below k copies of d. */
  lemma QuotBound(x: nat, d: nat, k: nat)
    requires d > 0
    ensures Quot(x, d) < k <==> x < Times(k, d)
  {
    QuotRem(x, d);
    if x < Times(k, d) {
      QuotBelow(x, d, k);
    } else if Quot(x, d) < k {
      TimesStep(Quot(x, d), k, d);
    }
  }

  /** Repeated addition is multiplication. */
  lemma {:induction false} TimesIsProduct(q: nat, d: nat)
    ensures Times(q, d) == q * d
    decreases q
  {
    if q > 0 {
      TimesIsProduct(q - 1, d);
      assert q * d == (q - 1) * d + d;
    }
  }

  /** Repeated subtraction computes the integer quotient and remainder. */
  lemma QuotIsDiv(x: nat, d: nat)
    requires d > 0
    ensures Quot(x, d) == x / d && Rem(x, d) == x % d
  {
    QuotRem(x, d);
    TimesIsProduct(Quot(x, d), d);
    DivUnique(x, d, Quot(x, d), Rem(x, d));
  }

  /** Euclidean division is determined by any split of x into q copies of d and a remainder below d. */
  lemma DivUnique(x: int, d: int, q: int, r: int)
    requires d > 0 && 0 <= r < d && x == q * d + r
    ensures x / d == q && x % d == r
  {
    var q', r' := x / d, x % d;
    if q' < q {
      FarApart(q', q, d);
    } else if q' > q {
      FarApart(q, q', d);
    }
  }

  /** Multiples of d with different factors are at least d apart. */
  lemma FarApart(a: int, b: int, d: int)
    requires a < b && d > 0
    ensures a * d + d <= b * d
  {
    var k := b - a;
    assert b * d == a * d + k * d;
    TimesIsProduct(k, d);
    TimesStep(0, k, d);
  }
}
