/** Divisibility, as far as probing a table of prime size needs it. */
module Primes {

  import opened Arithmetic

  predicate Divides(d: nat, n: nat)
    requires d > 0
  {
    n % d == 0
  }

  ghost predicate Prime(p: nat) {
    p > 1 && forall d :: 1 < d < p ==> !Divides(d, p)
  }

  lemma DividesTimes(d: nat, n: nat, q: nat)
    requires d > 0 && n == q * d
    ensures Divides(d, n)
  {
    DivMod(q, d, 0);
  }

  lemma Quotient(d: nat, n: nat) returns (q: nat)
    requires d > 0 && Divides(d, n)
    ensures n == q * d
  {
    q := n / d;
  }

  lemma SignOfFactor(a: int, p: nat)
    requires a * p >= 0 && p > 0
    ensures a >= 0
  {
    if a < 0 { assert -a * p >= 1 * p by { MulMono(1, -a, p); } }
  }

  /** A prime divides a product of smaller numbers never. */
  lemma {:induction false} NoSmallFactors(p: nat, a: nat, b: nat)
    requires Prime(p) && 0 < a < p && 0 < b < p
    ensures !Divides(p, a * b)
    decreases a
  {
    if Divides(p, a * b) {
      if a == 1 {
        SmallMod(b, p);
        assert false;
      } else {
        var r, q := p % a, p / a;
        assert !Divides(a, p);
        var m := Quotient(p, a * b);
        Remainder(p, a, b, q, r, m);
        SignOfFactor(b - q * m, p);
        DividesTimes(p, r * b, b - q * m);
        NoSmallFactors(p, r, b);
      }
    }
  }

  lemma SmallMod(b: nat, p: nat)
    requires 0 < b < p
    ensures b % p == b
  {
  }

  lemma Remainder(p: nat, a: nat, b: nat, q: nat, r: nat, m: nat)
    requires p == q * a + r && a * b == m * p
    ensures r * b == (b - q * m) * p && r * b >= 0
  {
    calc {
      r * b;
      (p - q * a) * b;
      p * b - q * (a * b);
      p * b - q * (m * p);
      (b - q * m) * p;
    }
  }
}
