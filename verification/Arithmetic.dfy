/** Facts about products and remainders that the solver does not find by itself. */
module Arithmetic {

  lemma ProductBounds(d: int, e: int)
    requires d > 0
    ensures e >= 1 ==> d * e >= d
    ensures e <= -1 ==> d * e <= -d
  {
    if e >= 1 { assert d * (e - 1) >= 0; }
    if e <= -1 { assert d * (-e - 1) >= 0; }
  }

  lemma MultipleOf(a: int, d: int, q: int)
    requires d > 0 && a == d * q
    ensures a % d == 0 && a / d == q
  {
    assert 0 <= a - d * (a / d) < d;
    assert d * (q - a / d) == a - d * (a / d);
    ProductBounds(d, q - a / d);
  }

  lemma NoSmallMultiple(a: nat, d: nat)
    requires a > 0 && d > 0 && a % d == 0
    ensures d <= a
  {
    assert a == d * (a / d);
    ProductBounds(d, a / d);
  }

  /** x % n, for n > 0. */
  function Wrap(x: nat, n: nat): (r: nat)
    requires n > 0
    ensures r < n
  {
    if x < n then x else Wrap(x - n, n)
  }

  lemma {:induction false} WrapIsRemainder(x: nat, n: nat)
    requires n > 0
    ensures Wrap(x, n) == x % n
  {
    if x >= n {
      WrapIsRemainder(x - n, n);
      assert (x - n) % n == x % n by {
        assert x - n == n * (x / n - 1) + x % n;
        RemainderUnique(x - n, n, x / n - 1, x % n);
      }
    }
  }

  lemma RemainderUnique(x: int, n: int, q: int, r: int)
    requires n > 0 && 0 <= r < n && x == n * q + r
    ensures x % n == r && x / n == q
  {
    assert n * (q - x / n) == x % n - r;
    ProductBounds(n, q - x / n);
  }

  lemma WrapOnce(x: nat, n: nat)
    requires n > 0 && x <= n
    ensures Wrap(x, n) == if x == n then 0 else x
  {
    if x == n { assert Wrap(x, n) == Wrap(x - n, n); }
  }

  lemma Distribute(g: int, a: int, b: int)
    ensures g * (a + b) == g * a + g * b
  {
  }

  /** x / n, for n > 0. */
  function Quotient(x: nat, n: nat): nat
    requires n > 0
  {
    if x < n then 0 else 1 + Quotient(x - n, n)
  }

  lemma {:induction false} QuotientIsDivision(x: nat, n: nat)
    requires n > 0
    ensures Quotient(x, n) == x / n
  {
    if x < n {
      RemainderUnique(x, n, 0, x);
    } else {
      QuotientIsDivision(x - n, n);
      assert x == n * ((x - n) / n + 1) + (x - n) % n;
      RemainderUnique(x, n, (x - n) / n + 1, (x - n) % n);
    }
  }

  /** The least q with n * q >= x. */
  function CeilDiv(x: nat, n: nat): nat
    requires n > 0
  {
    Quotient(x + n - 1, n)
  }

  lemma CeilDivIsLeast(x: nat, n: nat)
    requires n > 0
    ensures Mul(CeilDiv(x, n), n) >= x
    ensures x > 0 ==> CeilDiv(x, n) >= 1 && Mul(CeilDiv(x, n) - 1, n) < x
  {
    QuotientBounds(x + n - 1, n);
  }

  lemma CeilDivIsDivision(x: nat, n: nat)
    requires n > 0
    ensures CeilDiv(x, n) == (x + n - 1) / n
  {
    QuotientIsDivision(x + n - 1, n);
  }

  lemma {:induction false} QuotientBounds(x: nat, n: nat)
    requires n > 0
    ensures Mul(Quotient(x, n), n) <= x < Mul(Quotient(x, n), n) + n
  {
    if x >= n { QuotientBounds(x - n, n); }
  }

  /** a * b as repeated addition: proofs about it stay linear. */
  function Mul(a: nat, b: nat): nat {
    if a == 0 then 0 else b + Mul(a - 1, b)
  }

  lemma {:induction false} MulIsProduct(a: nat, b: nat)
    ensures Mul(a, b) == a * b
  {
    if a > 0 { MulIsProduct(a - 1, b); }
  }

  lemma {:induction false} MulAdd(a: nat, b: nat, c: nat)
    ensures Mul(a + b, c) == Mul(a, c) + Mul(b, c)
  {
    if a > 0 { MulAdd(a - 1, b, c); }
  }

  lemma MulGrows(a: nat, b: nat, c: nat)
    requires a <= b
    ensures Mul(b, c) == Mul(a, c) + Mul(b - a, c)
  {
    MulAdd(a, b - a, c);
  }

  lemma MulCommutes(a: nat, b: nat)
    ensures Mul(a, b) == Mul(b, a)
  {
    MulIsProduct(a, b);
    MulIsProduct(b, a);
  }
}
