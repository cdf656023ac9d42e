/** Quotients and remainders by a variable divisor. */
module Arith {
  function Min(a: nat, b: nat): nat {
    if a < b then a else b
  }

  // The only multiple of n strictly between -n and n is 0.
  lemma NoSmallMultiple(k: int, n: int)
    requires 0 - n < k * n < n
    ensures k == 0
  {
  }

  lemma QuotientIs(x: nat, n: nat, q: nat, r: nat)
    requires r < n && x == q * n + r
    ensures x / n == q && x % n == r
  {
    assert x == (x / n) * n + x % n;
    assert (q - x / n) * n == x % n - r;
    NoSmallMultiple(q - x / n, n);
  }

  // x % n by repeated subtraction: a form that needs no nonlinear arithmetic.
  function Residue(x: nat, n: nat): (r: nat)
    requires n > 0
    ensures r < n
  {
    if x < n then x else Residue(x - n, n)
  }

  lemma {:induction false} ResidueIsRemainder(x: nat, n: nat)
    requires n > 0
    ensures Residue(x, n) == x % n
  {
    if x < n {
      QuotientIs(x, n, 0, x);
    } else {
      ResidueIsRemainder(x - n, n);
      assert x - n == ((x - n) / n) * n + (x - n) % n;
      assert ((x - n) / n + 1) * n == ((x - n) / n) * n + n;
      QuotientIs(x, n, (x - n) / n + 1, (x - n) % n);
    }
  }

  lemma {:induction false} ResiduesDiffer(q: nat, r: nat, n: nat)
    requires q < r < q + n
    ensures Residue(q, n) != Residue(r, n)
  {
    if n <= q {
      ResiduesDiffer(q - n, r - n, n);
    }
  }
}
