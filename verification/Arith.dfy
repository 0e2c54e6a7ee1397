/** Shifts, masks and rounding on natural numbers, as the index and address formulas use them. */
module Arith {

  /** x >> n */
  function Shr(x: nat, n: nat): nat {
    if n == 0 then x else Shr(x / 2, n - 1)
  }

  /** x << n */
  function Shl(x: nat, n: nat): (r: nat)
    ensures r >= x
  {
    if n == 0 then x else 2 * Shl(x, n - 1)
  }

  /** x & ((1 << n) - 1) */
  function Low(x: nat, n: nat): nat {
    if n == 0 then 0 else x % 2 + 2 * Low(x / 2, n - 1)
  }

  lemma {:induction false} ShrShr(x: nat, a: nat, b: nat)
    ensures Shr(Shr(x, a), b) == Shr(x, a + b)
  {
    if a > 0 {
      ShrShr(x / 2, a - 1, b);
    }
  }

  lemma {:induction false} ShlShl(x: nat, a: nat, b: nat)
    ensures Shl(Shl(x, a), b) == Shl(x, a + b)
  {
    if b > 0 {
      ShlShl(x, a, b - 1);
    }
  }

  /** A number is its high part and its low part, and any such pair is taken apart again. */
  lemma {:induction false} ShrLow(x: nat, n: nat)
    ensures Shl(Shr(x, n), n) + Low(x, n) == x && Low(x, n) < Shl(1, n)
  {
    if n > 0 {
      ShrLow(x / 2, n - 1);
    }
  }

  lemma {:induction false} ShlJoin(q: nat, r: nat, n: nat)
    requires r < Shl(1, n)
    ensures Shr(Shl(q, n) + r, n) == q && Low(Shl(q, n) + r, n) == r
  {
    if n > 0 {
      ShlJoin(q, r / 2, n - 1);
      assert (Shl(q, n) + r) / 2 == Shl(q, n - 1) + r / 2;
    }
  }

  lemma {:induction false} ShlAdd(x: nat, y: nat, n: nat)
    ensures Shl(x + y, n) == Shl(x, n) + Shl(y, n)
  {
    if n > 0 {
      ShlAdd(x, y, n - 1);
    }
  }

  lemma ShlMono(x: nat, y: nat, n: nat)
    requires x <= y
    ensures Shl(x, n) <= Shl(y, n)
  {
    ShlAdd(x, y - x, n);
  }

  /** x >> n is below m exactly when x is below m << n. */
  lemma ShrBelow(x: nat, m: nat, n: nat)
    ensures Shr(x, n) < m <==> x < Shl(m, n)
  {
    ShrLow(x, n);
    var q := Shr(x, n);
    if q < m {
      ShlAdd(q, 1, n);
      ShlMono(q + 1, m, n);
    } else {
      ShlMono(m, q, n);
    }
  }

  lemma ShrWithin(x: nat, total: nat, shift: nat)
    requires shift <= total && x < Shl(1, total)
    ensures Shr(x, shift) < Shl(1, total - shift)
  {
    ShlShl(1, total - shift, shift);
    ShrBelow(x, Shl(1, total - shift), shift);
  }

  lemma ShrBeyond(x: nat, total: nat, shift: nat)
    requires total <= shift && x < Shl(1, total)
    ensures Shr(x, shift) == 0
  {
    ShlOneMono(total, shift);
    ShrBelow(x, 1, shift);
  }

  /** A number of total bits, shifted, fits the bits that are left, or is zero when none are. */
  lemma ShrInside(x: nat, total: nat, shift: nat)
    requires x < Shl(1, total)
    ensures if total <= shift then Shr(x, shift) == 0 else Shr(x, shift) < Shl(1, total - shift)
  {
    if total <= shift {
      ShrBeyond(x, total, shift);
    } else {
      ShrWithin(x, total, shift);
    }
  }

  lemma {:induction false} ShlOneMono(a: nat, b: nat)
    requires a <= b
    ensures Shl(1, a) <= Shl(1, b)
  {
    if a < b {
      ShlOneMono(a, b - 1);
    }
  }

  lemma {:induction false} ZeroParts(w: nat)
    ensures Shr(0, w) == 0 && Low(0, w) == 0 && Shl(0, w) == 0
  {
    if w > 0 {
      ZeroParts(w - 1);
    }
  }

  lemma Compare(q: nat, r: nat, p: nat, s: nat, e: nat)
    requires r < Shl(1, e) && s < Shl(1, e)
    ensures q < p ==> Shl(q, e) + r < Shl(p, e) + s
    ensures p < q ==> Shl(p, e) + s < Shl(q, e) + r
  {
    if q < p {
      ShlAdd(q, 1, e);
      ShlMono(q + 1, p, e);
    } else if p < q {
      ShlAdd(p, 1, e);
      ShlMono(p + 1, q, e);
    }
  }

  /** x / (1 << e), rounded up */
  function CeilShr(x: nat, e: nat): nat {
    if Low(x, e) == 0 then Shr(x, e) else Shr(x, e) + 1
  }

  lemma CeilBelow(x: nat, m: nat, e: nat)
    requires x <= Shl(m, e)
    ensures CeilShr(x, e) <= m
  {
    ShrLow(x, e);
    if Shr(x, e) >= m {
      ShlMono(m, Shr(x, e), e);
      ShlJoin(m, 0, e);
      if Shr(x, e) > m {
        Compare(m, 0, Shr(x, e), Low(x, e), e);
      }
    }
  }

  lemma ShrAtLeast(x: nat, m: nat, e: nat)
    requires Shl(m, e) <= x
    ensures m <= Shr(x, e)
  {
    ShrLow(x, e);
    if Shr(x, e) < m {
      Compare(Shr(x, e), Low(x, e), m, 0, e);
    }
  }

  lemma CeilCovers(x: nat, e: nat)
    ensures x <= Shl(CeilShr(x, e), e) && (Low(x, e) == 0 ==> x == Shl(CeilShr(x, e), e))
  {
    ShrLow(x, e);
    ShlAdd(Shr(x, e), 1, e);
  }

  lemma LessByFactor(x: int, y: int, n: nat)
    requires n > 0 && x * n < y * n
    ensures x < y
  {
    if y <= x {
      MulMono(y, x, n);
    }
  }

  lemma MulMono(x: int, y: int, n: nat)
    requires x <= y
    ensures x * n <= y * n
  {
    assert (y - x) * n >= 0;
  }
}
