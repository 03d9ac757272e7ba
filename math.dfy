/**
  The integer helpers of util/Math.java: a factorial accumulated in a loop,
  and the quotient n1! / n2! computed as the product of the factors the two
  factorials do not share. Java's 32-bit `int` overflow is not modelled:
  integers here are unbounded.
*/
module FactorialMath {

  /** n! for n >= 0; 1 for every n <= 0, as the empty loop of `factorial` leaves it. */
  function Fact(n: int): (r: int)
    ensures r >= 1
    decreases if n < 0 then 0 else n
  {
    if n <= 0 then 1 else n * Fact(n - 1)
  }

  /** The product (lo + 1) * (lo + 2) * ... * hi of the integers in (lo, hi];
      the empty product 1 when hi <= lo. */
  function ProductAbove(lo: int, hi: int): (r: int)
    ensures 0 <= lo ==> r >= 1
    decreases hi - lo
  {
    if hi <= lo then 1 else ProductAbove(lo, hi - 1) * hi
  }

  /** `factorial(n)`: multiplies 1 * 2 * ... * n into an accumulator. */
  method Factorial(n: int) returns (fact: int)
    ensures fact == Fact(n)
  {
    fact := 1;
    var i := 1;
    while i <= n
      invariant 1 <= i <= if n >= 0 then n + 1 else 1
      invariant fact == Fact(i - 1)
    {
      fact := fact * i;
      i := i + 1;
    }
  }

  /** `simplifyFactorialDivision(n1, n2)`: -1 when n2 > n1, otherwise the
      product (n2 + 1) * ... * n1, accumulated in a loop. */
  method SimplifyFactorialDivision(n1: int, n2: int) returns (ret: int)
    ensures n2 > n1 ==> ret == -1
    ensures n2 <= n1 ==> ret == ProductAbove(n2, n1)
  {
    if n2 > n1 {
      return -1;
    }
    ret := 1;
    var i := n2 + 1;
    while i <= n1
      invariant n2 + 1 <= i <= n1 + 1
      invariant ret == ProductAbove(n2, i - 1)
    {
      ret := ret * i;
      i := i + 1;
    }
  }

  /** The factorial is the product of 1..n, the same loop bound `factorial` uses. */
  lemma {:induction false} FactIsProductFromOne(n: int)
    ensures Fact(n) == ProductAbove(0, n)
    decreases if n < 0 then 0 else n
  {
    if n > 0 {
      FactIsProductFromOne(n - 1);
    }
  }

  /** The doc-comment's claim: for 0 <= n2 <= n1 the simplified quotient times
      n2! is n1!, so the result really is n1! / n2!. */
  lemma {:induction false} QuotientTimesFact(n1: int, n2: int)
    requires 0 <= n2 <= n1
    ensures ProductAbove(n2, n1) * Fact(n2) == Fact(n1)
    decreases n1 - n2
  {
    if n1 > n2 {
      QuotientTimesFact(n1 - 1, n2);
      var below, f := ProductAbove(n2, n1 - 1), Fact(n2);
      assert ProductAbove(n2, n1) == below * n1;
      Regroup(below, n1, f, Fact(n1 - 1));
      assert Fact(n1) == n1 * Fact(n1 - 1);
    }
  }

  /** Moving the new factor n in front of a known product. */
  lemma Regroup(p: int, n: int, f: int, g: int)
    requires p * f == g
    ensures (p * n) * f == n * g
  {
    calc {
      (p * n) * f;
      n * (p * f);
      n * g;
    }
  }

  /** The pair count of the clustering coefficient: the quotient for (n, n - 2)
      is n * (n - 1) for every n >= 0, which is 0 for n = 0 and n = 1. */
  lemma {:induction false} QuotientOfTwoBelow(n: int)
    requires n >= 0
    ensures ProductAbove(n - 2, n) == n * (n - 1)
  {
    assert ProductAbove(n - 2, n - 2) == 1;
    assert ProductAbove(n - 2, n - 1) == n - 1;
  }

  /** n * (n - 1) is even, so halving it (as Graph.clustCoeficient does) is exact. */
  lemma {:induction false} PairCountIsEven(n: int)
    requires n >= 0
    ensures (n * (n - 1)) % 2 == 0
    ensures 2 * ((n * (n - 1)) / 2) == n * (n - 1)
    decreases n
  {
    if n >= 2 {
      PairCountIsEven(n - 2);
      assert n * (n - 1) == (n - 2) * (n - 3) + 2 * (2 * n - 3);
    }
  }
}
