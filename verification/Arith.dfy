/** The few facts about products and quotients that the other modules share. */
module Arith {
  /** The machine's 64-bit words wrap here. */
  const TWO_64: nat := 0x1_0000_0000_0000_0000

  lemma MulMonotone(a: int, b: int, c: int)
    requires a <= b && 0 <= c
    ensures a * c <= b * c
  {
  }

  lemma MulPositive(a: int, b: int)
    requires 0 < a && 0 < b
    ensures 0 < a * b
  {
  }

  lemma Division(n: int, d: int)
    requires 0 < d
    ensures n == n / d * d + n % d && 0 <= n % d < d
  {
  }

  /** The quotient and remainder are the only pair that recompose to n. */
  lemma DivisionUnique(n: int, d: int, q: int, r: int)
    requires 0 <= r < d && n == q * d + r
    ensures n / d == q && n % d == r
  {
    Division(n, d);
    var p := n / d;
    if q < p {
      MulMonotone(q + 1, p, d);
    } else if p < q {
      MulMonotone(p + 1, q, d);
    }
  }

  /** n blocks of size p fit into limit exactly up to the quotient. */
  lemma QuotientIsGreatest(limit: nat, p: nat, n: nat)
    requires 0 < p
    ensures n * p <= limit <==> n <= limit / p
  {
    Division(limit, p);
    var q := limit / p;
    if n <= q {
      MulMonotone(n, q, p);
    } else {
      MulMonotone(q + 1, n, p);
    }
  }
}
