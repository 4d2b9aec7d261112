/**
  The static integer helpers of TableDeDispersion: trial-division primality
  (est_premier), the next prime above an even number (prochain_premier) and
  square-and-multiply exponentiation. Each is a method with the loop of the
  C++ code, proved against a ghost definition; machine-word overflow is not
  modelled (all arithmetic is on nat).
*/
module Premiers {

  /** d is a positive divisor of n. */
  predicate Divise(d: nat, n: nat) {
    d > 0 && n % d == 0
  }

  /** n is prime: at least 2 and without a divisor strictly between 1 and n. */
  ghost predicate Premier(n: nat) {
    n >= 2 && forall d :: 2 <= d < n ==> !Divise(d, n)
  }

  /** r is the least prime strictly greater than n. */
  ghost predicate ProchainPremierDe(n: nat, r: nat) {
    n < r && Premier(r) && forall q :: n < q < r ==> !Premier(q)
  }

  /** a to the power e. */
  ghost function Puissance(a: nat, e: nat): nat {
    if e == 0 then 1 else a * Puissance(a, e - 1)
  }

  ghost function Factorielle(n: nat): nat {
    if n == 0 then 1 else n * Factorielle(n - 1)
  }

  // ---------------------------------------------------------------------
  // Divisibility facts

  /** Euclidean division is unique. */
  lemma DivisionUnique(x: int, m: int, q: int, r: int)
    requires m > 0 && 0 <= r < m && x == q * m + r
    ensures x / m == q && x % m == r
  {
    var q', r' := x / m, x % m;
    assert (q' - q) * m == r - r';
    if q' > q {
      ProduitMinore(q' - q, m);
    } else if q' < q {
      ProduitMinore(q - q', m);
    }
  }

  lemma ProduitMinore(k: int, m: int)
    requires k >= 1 && m > 0
    ensures k * m >= m
  {
    assert k * m == (k - 1) * m + m;
  }

  lemma ProduitMonotone(a: nat, b: nat, c: nat, e: nat)
    requires a >= c && b >= e
    ensures a * b >= c * e
  {
    assert a * b - c * b == (a - c) * b;
    assert c * b - c * e == c * (b - e);
  }

  lemma MultipleDivise(d: nat, k: nat)
    requires d > 0
    ensures Divise(d, d * k)
  {
    DivisionUnique(d * k, d, k, 0);
  }

  lemma DiviseMultiple(d: nat, n: nat)
    requires Divise(d, n)
    ensures n == d * (n / d)
  {
  }

  lemma DiviseTransitif(a: nat, b: nat, c: nat)
    requires Divise(a, b) && Divise(b, c)
    ensures Divise(a, c)
  {
    var x, y := b / a, c / b;
    DiviseMultiple(a, b);
    DiviseMultiple(b, c);
    assert c == a * (x * y) by {
      assert c == b * y;
      assert b * y == (a * x) * y;
    }
    MultipleDivise(a, x * y);
  }

  /** No integer above 1 divides two consecutive numbers. */
  lemma DiviseConsecutifs(p: nat, a: nat)
    requires Divise(p, a) && Divise(p, a + 1)
    ensures p == 1
  {
    var x, y := a / p, (a + 1) / p;
    DiviseMultiple(p, a);
    DiviseMultiple(p, a + 1);
    assert p * (y - x) == 1;
    assert y - x >= 1 by {
      if y - x <= 0 {
        ProduitMonotone(p, x - y, 0, 0);
        assert false;
      }
    }
    ProduitMinore(y - x, p);
  }

  lemma {:induction false} FactoriellePositive(n: nat)
    ensures Factorielle(n) >= 1
  {
    if n > 0 {
      FactoriellePositive(n - 1);
    }
  }

  lemma {:induction false} DiviseFactorielle(n: nat, d: nat)
    requires 1 <= d <= n
    ensures Divise(d, Factorielle(n))
  {
    if d == n {
      MultipleDivise(n, Factorielle(n - 1));
    } else {
      DiviseFactorielle(n - 1, d);
      FactoriellePositive(n - 1);
      MultipleDivise(Factorielle(n - 1), n);
      assert Divise(Factorielle(n - 1), Factorielle(n));
      DiviseTransitif(d, Factorielle(n - 1), Factorielle(n));
    }
  }

  /** Every number from 2 on has a prime divisor. */
  lemma {:induction false} FacteurPremier(m: nat)
    requires m >= 2
    ensures exists p :: Premier(p) && Divise(p, m)
    decreases m
  {
    if Premier(m) {
      assert Divise(m, m);
    } else {
      var d :| 2 <= d < m && Divise(d, m);
      FacteurPremier(d);
      var p: nat :| Premier(p) && Divise(p, d);
      DiviseTransitif(p, d, m);
    }
  }

  /** Euclid: there is a prime above every n (a prime factor of n! + 1). */
  lemma PremierAuDela(n: nat)
    ensures exists p :: n < p && Premier(p)
  {
    FactoriellePositive(n);
    var m := Factorielle(n) + 1;
    FacteurPremier(m);
    var p: nat :| Premier(p) && Divise(p, m);
    if p <= n {
      DiviseFactorielle(n, p);
      DiviseConsecutifs(p, Factorielle(n));
      assert false;
    }
  }

  /** Trial division up to the square root decides primality. */
  lemma RacineSuffit(n: nat, i: nat)
    requires 2 <= n && 2 <= i && n < i * i
    requires forall d :: 2 <= d < i ==> !Divise(d, n)
    ensures Premier(n)
  {
    forall d | 2 <= d < n
      ensures !Divise(d, n)
    {
      if Divise(d, n) && d >= i {
        var q := n / d;
        DiviseMultiple(d, n);
        assert q >= 2 by {
          if q < 2 {
            ProduitMonotone(d, 1, d, q);
            assert false;
          }
        }
        assert q < i by {
          if q >= i {
            ProduitMonotone(q, d, i, i);
            assert false;
          }
        }
        MultipleDivise(q, d);
        assert false;
      }
    }
  }

  /** No integer in [lo, hi) divides n; decidable by unfolding, used on literal numbers. */
  predicate SansDiviseur(n: nat, lo: nat, hi: nat)
    decreases hi - lo
  {
    lo >= hi || (lo > 0 && n % lo != 0 && SansDiviseur(n, lo + 1, hi))
  }

  lemma {:induction false} SansDiviseurSens(n: nat, lo: nat, hi: nat)
    requires SansDiviseur(n, lo, hi)
    ensures forall d :: lo <= d < hi ==> !Divise(d, n)
    decreases hi - lo
  {
    if lo < hi {
      SansDiviseurSens(n, lo + 1, hi);
    }
  }

  /** Primality of a concrete number from trial division up to its square root. */
  lemma PremierParEssais(n: nat, i: nat)
    requires 2 <= n && 2 <= i && n < i * i && SansDiviseur(n, 2, i)
    ensures Premier(n)
  {
    SansDiviseurSens(n, 2, i);
    RacineSuffit(n, i);
  }

  /** An even number from 4 on is not prime. */
  lemma PairNonPremier(q: nat)
    requires q >= 4 && q % 2 == 0
    ensures !Premier(q)
  {
    assert Divise(2, q);
  }

  /** A prime above 2 is odd. */
  lemma PremierImpair(p: nat)
    requires Premier(p) && p > 2
    ensures p % 2 == 1
  {
    assert !Divise(2, p);
  }

  // ---------------------------------------------------------------------
  // est_premier

  /**
    Trial division by every i with i * i <= n. The loop body never runs for
    n < 4, so 0 and 1 are reported prime as well.
  */
  method EstPremier(n: nat) returns (b: bool)
    ensures b <==> n < 2 || Premier(n)
  {
    var i := 2;
    while i * i <= n
      invariant 2 <= i
      invariant forall d :: 2 <= d < i ==> !Divise(d, n)
      decreases n - i
    {
      assert i < n by {
        assert i * i >= 2 * i;
      }
      if n % i == 0 {
        assert Divise(i, n);
        return false;
      }
      i := i + 1;
    }
    if n >= 2 {
      RacineSuffit(n, i);
    }
    return true;
  }

  // ---------------------------------------------------------------------
  // prochain_premier

  /** The search may skip from the odd non-prime i to i + 2: i + 1 is even. */
  lemma SautImpair(n: nat, i: nat)
    requires 3 <= i && i % 2 == 1 && !Premier(i)
    requires forall q :: n < q < i ==> !Premier(q)
    ensures forall q :: n < q < i + 2 ==> !Premier(q)
  {
    PairNonPremier(i + 1);
  }

  /**
    Least prime strictly above the even number n, searched among the odd
    candidates n + 1, n + 3, ... For n == 0 the first candidate 1 already
    passes est_premier, so the result is 1. An odd n >= 3 would make every
    candidate an even number from 4 on and the search endless; evenness is
    the documented requirement of prochain_premier in the C++ code.
  */
  method ProchainPremier(n: nat) returns (r: nat)
    requires n % 2 == 0
    ensures n == 0 ==> r == 1
    ensures n > 0 ==> ProchainPremierDe(n, r)
  {
    PremierAuDela(n + 2);
    ghost var p :| n + 2 < p && Premier(p);
    PremierImpair(p);
    var i := n + 1;
    var b := EstPremier(i);
    while !b
      invariant i % 2 == 1 && n < i <= p
      invariant n == 0 ==> i == 1
      invariant b <==> i < 2 || Premier(i)
      invariant forall q :: n < q < i ==> !Premier(q)
      decreases p - i
    {
      assert i != p;
      SautImpair(n, i);
      i := i + 2;
      b := EstPremier(i);
    }
    return i;
  }

  // ---------------------------------------------------------------------
  // exponentiation

  lemma {:induction false} PuissanceSomme(a: nat, m: nat, n: nat)
    ensures Puissance(a, m + n) == Puissance(a, m) * Puissance(a, n)
    decreases m
  {
    if m > 0 {
      PuissanceSomme(a, m - 1, n);
      calc {
        Puissance(a, m + n);
        a * Puissance(a, m - 1 + n);
        a * (Puissance(a, m - 1) * Puissance(a, n));
        (a * Puissance(a, m - 1)) * Puissance(a, n);
      }
    }
  }

  lemma {:induction false} PuissanceCarre(a: nat, k: nat)
    ensures Puissance(a * a, k) == Puissance(a, 2 * k)
    decreases k
  {
    if k > 0 {
      calc {
        Puissance(a * a, k);
        (a * a) * Puissance(a * a, k - 1);
        { PuissanceCarre(a, k - 1); }
        (a * a) * Puissance(a, 2 * k - 2);
        a * (a * Puissance(a, 2 * k - 2));
        a * Puissance(a, 2 * k - 1);
        Puissance(a, 2 * k);
      }
    }
  }

  /** One step of square-and-multiply: a^b = (b odd ? a : 1) * (a*a)^(b/2). */
  lemma PuissancePas(a: nat, b: nat)
    ensures Puissance(a, b) == (if b % 2 == 1 then a else 1) * Puissance(a * a, b / 2)
  {
    PuissanceCarre(a, b / 2);
    if b % 2 == 1 {
      PuissanceSomme(a, 1, 2 * (b / 2));
    } else {
      assert b == 2 * (b / 2);
    }
  }

  /** Square-and-multiply; the loop keeps r * a^b equal to the requested power. */
  method Exponentiation(a: nat, e: nat) returns (r: nat)
    ensures r == Puissance(a, e)
  {
    if e == 0 {
      return 1;
    }
    r := 1;
    var x, b := a, e;
    while b != 0
      invariant r * Puissance(x, b) == Puissance(a, e)
      decreases b
    {
      PuissancePas(x, b);
      if b % 2 == 1 {
        r := r * x;
      }
      x := x * x;
      b := b / 2;
    }
  }
}
