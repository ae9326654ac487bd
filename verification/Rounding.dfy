/** Rounding to page boundaries, and the facts about multiples that the layout arithmetic rests on. */
module Rounding {

  function RoundDown(x: nat, p: nat): (r: nat)
    requires p > 0
    ensures r % p == 0 && r <= x < r + p
  {
    MultipleModZero(x / p, p);
    (x / p) * p
  }

  function RoundUp(x: nat, p: nat): (r: nat)
    requires p > 0
    ensures r % p == 0 && x <= r < x + p
  {
    RoundDown(x + p - 1, p)
  }

  /** Number of the page that byte `x` lies on. */
  function PageOf(x: nat, p: nat): (r: nat)
    requires p > 0
    ensures r * p <= x < r * p + p
  {
    x / p
  }

  /** Number of pieces of size `p` that hold `x`. */
  function DivCeil(x: nat, p: nat): (r: nat)
    requires p > 0
    ensures x <= r * p < x + p
  {
    ExactPages(RoundUp(x, p), p);
    PageOf(RoundUp(x, p), p)
  }

  function Min(a: nat, b: nat): (r: nat)
    ensures (r == a || r == b) && r <= a && r <= b
  {
    if a <= b then a else b
  }

  function Max(a: nat, b: nat): (r: nat)
    ensures (r == a || r == b) && r >= a && r >= b
  {
    if a >= b then a else b
  }

  lemma MultipleModZero(k: nat, p: nat)
    requires p > 0
    ensures (k * p) % p == 0
  {
    ModUnique(k * p, p, k, 0);
  }

  lemma {:induction false} MulStep(a: nat, b: nat, p: nat)
    requires a < b
    ensures a * p + p <= b * p
    decreases b
  {
    assert b * p == (b - 1) * p + p;
    if a < b - 1 {
      MulStep(a, b - 1, p);
    }
  }

  lemma MulMonotone(a: nat, b: nat, p: nat)
    requires a <= b
    ensures a * p <= b * p
  {
    if a < b { MulStep(a, b, p); }
  }

  /** Euclidean division is unique. */
  lemma ModUnique(x: nat, p: nat, q: nat, m: nat)
    requires p > 0 && m < p && x == q * p + m
    ensures x / p == q && x % p == m
  {
    var q', m' := x / p, x % p;
    assert x == q' * p + m';
    if q < q' {
      MulStep(q, q', p);
    } else if q' < q {
      MulStep(q', q, p);
    }
  }

  lemma AddMultiple(a: nat, b: nat, p: nat)
    requires p > 0 && a % p == 0
    ensures (a + b) % p == b % p
    ensures (a + b) / p == a / p + b / p
  {
    assert a + b == (a / p + b / p) * p + b % p;
    ModUnique(a + b, p, a / p + b / p, b % p);
  }

  lemma SubMultiple(a: nat, b: nat, p: nat)
    requires p > 0 && a % p == 0 && b % p == 0 && a <= b
    ensures (b - a) % p == 0 && (b - a) / p == b / p - a / p
  {
    AddMultiple(a, b - a, p);
  }

  /** Distinct multiples of `p` are at least `p` apart. */
  lemma MultiplesApart(a: nat, b: nat, p: nat)
    requires p > 0 && a % p == 0 && b % p == 0 && a < b
    ensures a + p <= b
  {
    SubMultiple(a, b, p);
    var d := b - a;
    assert d == (d / p) * p;
    assert d / p >= 1;
  }

  /** `RoundUp` is the only multiple in [x, x + p). */
  lemma RoundUpUnique(x: nat, p: nat, r: nat)
    requires p > 0 && r % p == 0 && x <= r < x + p
    ensures r == RoundUp(x, p)
  {
    var u := RoundUp(x, p);
    if r < u {
      MultiplesApart(r, u, p);
    } else if u < r {
      MultiplesApart(u, r, p);
    }
  }

  lemma RoundUpShift(a: nat, x: nat, p: nat)
    requires p > 0 && a % p == 0
    ensures RoundUp(a + x, p) == a + RoundUp(x, p)
  {
    AddMultiple(a, RoundUp(x, p), p);
    RoundUpUnique(a + x, p, a + RoundUp(x, p));
  }

  lemma RoundUpMonotone(x: nat, y: nat, p: nat)
    requires p > 0 && x <= y
    ensures RoundUp(x, p) <= RoundUp(y, p)
  {
    var u, v := RoundUp(x, p), RoundUp(y, p);
    if v < u {
      MultiplesApart(v, u, p);
    }
  }

  lemma ExactPages(x: nat, p: nat)
    requires p > 0 && x % p == 0
    ensures PageOf(x, p) * p == x
  {
  }

  /** Dividing and multiplying back never gives more. */
  lemma QuotientFits(x: nat, p: nat)
    requires p > 0
    ensures 0 <= x / p * p <= x
  {
  }

  lemma QuotientBelow(x: nat, p: nat, n: nat)
    requires p > 0 && x < n * p
    ensures x / p < n
  {
    if n < x / p {
      MulStep(n, x / p, p);
    }
  }

  lemma DivMonotone(x: nat, y: nat, p: nat)
    requires p > 0 && x <= y
    ensures x / p <= y / p
  {
    if y / p < x / p {
      MulStep(y / p, x / p, p);
    }
  }

  /** `DivCeil` is the least sufficient number. */
  lemma DivCeilLeast(bytes: nat, size: nat, n: nat)
    requires size > 0
    ensures n * size >= bytes <==> n >= DivCeil(bytes, size)
  {
    var r := DivCeil(bytes, size);
    if n < r {
      MulStep(n, r, size);
    } else if r < n {
      MulStep(r, n, size);
    }
  }
}
