/** The little number theory needed for the period of the checksum register. */
module NumberTheory {

  function Gcd(a: nat, b: nat): nat
    decreases b
  {
    if b == 0 then a else Gcd(b, a % b)
  }

  ghost predicate Divides(d: nat, n: nat) { exists q: nat :: n == d * q }

  lemma Distribute(m: nat, a: nat, b: nat)
    ensures m * (a + b) == m * a + m * b
  {
  }

  lemma Associate(m: nat, a: nat, b: nat)
    ensures m * (a * b) == (m * a) * b
  {
  }

  lemma DividesBy(d: nat, n: nat, q: nat)
    requires n == d * q
    ensures Divides(d, n)
  {
  }

  lemma Combine(g: nat, b: nat, q: nat, r: nat, s: nat, t: nat)
    requires b == g * s && r == g * t
    ensures b * q + r == g * (s * q + t)
  {
    hide *;
    Associate(g, s, q);
    Distribute(g, s * q, t);
  }

  lemma DivisionIs(a: nat, b: nat)
    requires b > 0
    ensures a / b >= 0 && a % b >= 0 && a == b * (a / b) + a % b
  {
  }

  /** A divisor of b and of a % b divides a. */
  lemma GcdStep(a: nat, b: nat, g: nat, s: nat, t: nat)
    requires b > 0 && b == g * s && a % b == g * t
    ensures Divides(g, a)
  {
    hide *;
    DivisionIs(a, b);
    var q: nat := a / b;
    Combine(g, b, q, a % b, s, t);
    DividesBy(g, a, s * q + t);
  }

  lemma GcdOfZero(a: nat)
    ensures Gcd(a, 0) == a && Divides(a, a) && Divides(a, 0)
  {
    DividesBy(a, a, 1);
    DividesBy(a, 0, 0);
  }

  lemma GcdUnfolds(a: nat, b: nat)
    requires b > 0
    ensures Gcd(a, b) == Gcd(b, a % b)
  {
  }

  lemma Quotient(d: nat, n: nat) returns (q: nat)
    requires Divides(d, n)
    ensures n == d * q
  {
    q :| n == d * q;
  }

  lemma {:induction false} GcdDivides(a: nat, b: nat)
    ensures Divides(Gcd(a, b), a) && Divides(Gcd(a, b), b)
    decreases b
  {
    hide *;
    if b == 0 {
      GcdOfZero(a);
    } else {
      var r: nat := a % b;
      GcdDivides(b, r);
      GcdUnfolds(a, b);
      var g := Gcd(a, b);
      var s := Quotient(g, b);
      var t := Quotient(g, r);
      GcdStep(a, b, g, s, t);
    }
  }

  lemma ScaledDivision(m: nat, a: nat, b: nat)
    requires b > 0
    ensures a / b >= 0 && a % b >= 0 && m * a == (m * b) * (a / b) + m * (a % b)
  {
    hide *;
    DivisionIs(a, b);
    var q: nat, r: nat := a / b, a % b;
    Distribute(m, b * q, r);
    Associate(m, b, q);
  }

  // --------------------------------------------------------- the prime factors

  predicate NoDivisor(p: nat, d: nat, bound: nat)
    requires d > 0
    decreases bound - d
  {
    d >= bound || (p % d != 0 && NoDivisor(p, d + 1, bound))
  }

  ghost predicate Prime(p: nat) {
    p > 1 && forall a: nat, b: nat :: a * b == p ==> a == 1 || b == 1
  }

  lemma PrimeFactor(p: nat, a: nat, b: nat)
    requires Prime(p) && a * b == p
    ensures a == 1 || b == 1
  {
  }

  /** A prime that is not coprime to k divides it. */
  lemma NotCoprimeDivides(p: nat, k: nat)
    requires Prime(p) && Gcd(k, p) != 1
    ensures Divides(p, k)
  {
    hide *;
    var g := Gcd(k, p);
    GcdDivides(k, p);
    var q := Quotient(g, p);
    PrimeFactor(p, g, q);
    assert q == 1 && g == p;
  }

  lemma {:induction false} NoDivisorAt(p: nat, d: nat, bound: nat, a: nat)
    requires 0 < d <= a < bound && NoDivisor(p, d, bound)
    ensures p % a != 0
    decreases bound - d
  {
    if d != a {
      NoDivisorAt(p, d + 1, bound, a);
    }
  }

  /** Trial division up to the square root. */
  lemma TrialDivision(p: nat, bound: nat)
    requires 1 < p < bound * bound && NoDivisor(p, 2, bound)
    ensures Prime(p)
  {
    forall a: nat, b: nat | a * b == p
      ensures a == 1 || b == 1
    {
      if a != 1 && b != 1 {
        assert a != 0 && b != 0;
        var c, d := if a <= b then a else b, if a <= b then b else a;
        assert c * d == p && c < bound by {
          if c >= bound {
            Square(c, d, bound);
          }
        }
        NoDivisorAt(p, 2, bound, c);
        Multiple(c, d, p);
        assert false;
      }
    }
  }

  lemma Square(c: nat, d: nat, bound: nat)
    requires bound <= c <= d
    ensures bound * bound <= c * d
  {
    assert bound * bound <= bound * d;
    assert bound * d <= c * d;
  }

  lemma ProductGrows(c: nat, q: nat, d: nat)
    requires q < d
    ensures c * q + c <= c * d
  {
    assert c * (q + 1) <= c * d;
  }

  lemma Multiple(c: nat, d: nat, n: nat)
    requires c > 0 && n == c * d
    ensures n % c == 0
  {
    var q, r := n / c, n % c;
    assert n == c * q + r;
    if q < d {
      ProductGrows(c, q, d);
    } else if d < q {
      ProductGrows(c, d, q);
    }
  }

  lemma {:induction false} NoDivisorJoins(p: nat, d: nat, mid: nat, bound: nat)
    requires 0 < d <= mid <= bound && NoDivisor(p, d, mid) && NoDivisor(p, mid, bound)
    ensures NoDivisor(p, d, bound)
    decreases mid - d
  {
    if d != mid {
      NoDivisorJoins(p, d + 1, mid, bound);
    }
  }

  lemma FermatPrimes()
    ensures Prime(3) && Prime(5) && Prime(17) && Prime(257) && Prime(65537)
  {
    TrialDivision(3, 2);
    TrialDivision(5, 3);
    TrialDivision(17, 5);
    TrialDivision(257, 17);
    TrialDivision65537();
  }

  lemma NoDivisorBelow65()
    ensures NoDivisor(65537, 2, 65)
  {
    assert NoDivisor(65537, 2, 18);
    assert NoDivisor(65537, 18, 34);
    assert NoDivisor(65537, 34, 50);
    assert NoDivisor(65537, 50, 65);
    NoDivisorJoins(65537, 2, 18, 34);
    NoDivisorJoins(65537, 2, 34, 50);
    NoDivisorJoins(65537, 2, 50, 65);
  }

  lemma NoDivisorBelow129()
    ensures NoDivisor(65537, 65, 129)
  {
    assert NoDivisor(65537, 65, 81);
    assert NoDivisor(65537, 81, 97);
    assert NoDivisor(65537, 97, 113);
    assert NoDivisor(65537, 113, 129);
    NoDivisorJoins(65537, 65, 81, 97);
    NoDivisorJoins(65537, 65, 97, 113);
    NoDivisorJoins(65537, 65, 113, 129);
  }

  lemma NoDivisorBelow193()
    ensures NoDivisor(65537, 129, 193)
  {
    assert NoDivisor(65537, 129, 145);
    assert NoDivisor(65537, 145, 161);
    assert NoDivisor(65537, 161, 177);
    assert NoDivisor(65537, 177, 193);
    NoDivisorJoins(65537, 129, 145, 161);
    NoDivisorJoins(65537, 129, 161, 177);
    NoDivisorJoins(65537, 129, 177, 193);
  }

  lemma NoDivisorBelow257()
    ensures NoDivisor(65537, 193, 257)
  {
    assert NoDivisor(65537, 193, 209);
    assert NoDivisor(65537, 209, 225);
    assert NoDivisor(65537, 225, 241);
    assert NoDivisor(65537, 241, 257);
    NoDivisorJoins(65537, 193, 209, 225);
    NoDivisorJoins(65537, 193, 225, 241);
    NoDivisorJoins(65537, 193, 241, 257);
  }

  lemma TrialDivision65537()
    ensures Prime(65537)
  {
    NoDivisorBelow65();
    NoDivisorBelow129();
    NoDivisorBelow193();
    NoDivisorBelow257();
    NoDivisorJoins(65537, 2, 65, 129);
    NoDivisorJoins(65537, 2, 129, 193);
    NoDivisorJoins(65537, 2, 193, 257);
    TrialDivision(65537, 257);
  }

  /** Two divisors with a Bezout relation divide together. */
  lemma CoprimeProduct(k: nat, m: nat, p: nat, s: nat, t: nat)
    requires Divides(m, k) && Divides(p, k) && s * m == t * p + 1 && p > 0
    ensures Divides(m * p, k)
  {
    var a: nat :| k == m * a;
    var b: nat :| k == p * b;
    Bezout(m, p, s, t, a, b);
    var c := s * b - t * a;
    assert k == (m * p) * c by {
      assert m * a == m * (p * c);
      assert m * (p * c) == (m * p) * c;
    }
    SignOfFactor(p, c);
  }

  lemma SignOfFactor(p: nat, c: int)
    requires p > 0 && p * c >= 0
    ensures c >= 0
  {
  }

  lemma Bezout(m: nat, p: nat, s: nat, t: nat, a: nat, b: nat)
    requires s * m == t * p + 1 && m * a == p * b
    ensures a == p * (s * b - t * a)
  {
    calc {
      p * (s * b - t * a);
    ==
      p * (s * b) - p * (t * a);
    ==
      s * (p * b) - (t * p) * a;
    ==
      s * (m * a) - (t * p) * a;
    ==
      (s * m) * a - (t * p) * a;
    ==
      (t * p + 1) * a - (t * p) * a;
    ==
      a;
    }
  }
}
