/** Binomial coefficients, shared by the path-counting and Pascal's-triangle
    solutions. */
module Binomial {

  /** C(n, k), the number of k-element subsets of an n-element set, defined by
      Pascal's rule; zero when k > n. */
  function Binom(n: nat, k: nat): nat
    decreases n
  {
    if n < k then 0
    else if k == 0 || k == n then 1
    else Binom(n - 1, k - 1) + Binom(n - 1, k)
  }

  function Factorial(n: nat): (r: nat)
    ensures r >= 1
  {
    if n == 0 then 1 else n * Factorial(n - 1)
  }

  /** Each row of the triangle starts and ends with 1, and each other entry is the
      sum of the two entries above it. */
  lemma PascalRule(n: nat, k: nat)
    requires 1 <= k <= n
    ensures Binom(n, 0) == 1 && Binom(n, n) == 1
    ensures Binom(n, k) == Binom(n - 1, k - 1) + Binom(n - 1, k)
  {
  }

  /** The closed form C(n, k) = n! / (k! (n - k)!), stated without division. */
  lemma {:induction false} BinomFactorial(n: nat, k: nat)
    requires k <= n
    ensures Binom(n, k) * Factorial(k) * Factorial(n - k) == Factorial(n)
  {
    if k == 0 || k == n {
      assert Binom(n, k) == 1;
    } else {
      BinomFactorial(n - 1, k - 1);
      BinomFactorial(n - 1, k);
      var a, b := Binom(n - 1, k - 1), Binom(n - 1, k);
      var fk1, fnk1 := Factorial(k - 1), Factorial(n - k - 1);
      assert Factorial(k) == k * fk1;
      assert Factorial(n - k) == (n - k) * fnk1;
      Regroup(a, k, fk1, Factorial(n - k));
      Regroup(b, n - k, fnk1, Factorial(k));
      assert a * Factorial(k) * Factorial(n - k) == k * Factorial(n - 1);
      assert b * Factorial(k) * Factorial(n - k) == (n - k) * Factorial(n - 1);
      assert Binom(n, k) == a + b;
      Distribute(a, b, Factorial(k), Factorial(n - k));
      Distribute(k, n - k, Factorial(n - 1), 1);
      assert Factorial(n) == n * Factorial(n - 1);
    }
  }

  lemma Distribute(a: int, b: int, x: int, y: int)
    ensures (a + b) * x * y == a * x * y + b * x * y
  {
  }

  lemma Regroup(a: int, x: int, y: int, z: int)
    ensures a * (x * y) * z == x * (a * y * z)
    ensures a * z * (x * y) == x * (a * z * y)
  {
  }
}
