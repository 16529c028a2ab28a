/** Natural-number powers and the facts about them under a modulus that the
    Chaum–Pedersen engine relies on: products and powers may be reduced
    modulo m at any point, and an exponent may be reduced modulo the order
    of the base. */
module ModArith {

  /** b^e over the naturals. */
  function Pow(b: nat, e: nat): nat
    decreases e
  {
    if e == 0 then 1 else b * Pow(b, e - 1)
  }

  /** The only multiple of m strictly between -m and m is zero. */
  lemma SmallMultipleIsZero(m: nat, d: int)
    requires m > 0
    requires -(m as int) < m * d < m
    ensures d == 0
  {
  }

  /** Adding a multiple of m does not change the residue modulo m. */
  lemma ModAddMultiple(t: int, u: int, m: nat)
    requires m > 0
    ensures (m * t + u) % m == u % m
  {
    var a := m * t + u;
    var q1, r1 := a / m, a % m;
    var q2, r2 := u / m, u % m;
    assert a == m * q1 + r1;
    assert u == m * q2 + r2;
    assert m * (t + q2 - q1) == r1 - r2;
    SmallMultipleIsZero(m, t + q2 - q1);
  }

  /** The right factor of a product may be reduced modulo m. */
  lemma MulModRight(a: nat, b: nat, m: nat)
    requires m > 0
    ensures (a * b) % m == (a * (b % m)) % m
  {
    var qb, rb := b / m, b % m;
    assert b == m * qb + rb;
    assert a * b == m * (a * qb) + a * rb;
    ModAddMultiple(a * qb, a * rb, m);
  }

  /** A product may be reduced factor by factor modulo m. */
  lemma MulMod(a: nat, b: nat, m: nat)
    requires m > 0
    ensures (a * b) % m == ((a % m) * (b % m)) % m
  {
    MulModRight(a, b, m);
    MulModRight(b % m, a, m);
    assert a * (b % m) == (b % m) * a;
    assert (b % m) * (a % m) == (a % m) * (b % m);
  }

  lemma {:induction false} PowAdd(b: nat, m: nat, n: nat)
    ensures Pow(b, m + n) == Pow(b, m) * Pow(b, n)
    decreases m
  {
    if m > 0 {
      PowAdd(b, m - 1, n);
      calc {
        Pow(b, m + n);
        b * Pow(b, m - 1 + n);
        b * (Pow(b, m - 1) * Pow(b, n));
        (b * Pow(b, m - 1)) * Pow(b, n);
      }
    }
  }

  lemma {:induction false} PowMul(b: nat, m: nat, n: nat)
    ensures Pow(b, m * n) == Pow(Pow(b, m), n)
    decreases n
  {
    if n > 0 {
      PowMul(b, m, n - 1);
      calc {
        Pow(b, m * n);
        { assert m * n == m * (n - 1) + m; }
        Pow(b, m * (n - 1) + m);
        { PowAdd(b, m * (n - 1), m); }
        Pow(b, m * (n - 1)) * Pow(b, m);
        Pow(Pow(b, m), n - 1) * Pow(b, m);
      }
    }
  }

  /** The base of a power may be reduced modulo m first. */
  lemma {:induction false} PowModBase(b: nat, e: nat, m: nat)
    requires m > 0
    ensures Pow(b % m, e) % m == Pow(b, e) % m
    decreases e
  {
    if e > 0 {
      var c := b % m;
      var lo, hi := Pow(c, e - 1), Pow(b, e - 1);
      PowModBase(b, e - 1, m);
      assert lo % m == hi % m;
      MulModRight(c, lo, m);
      MulModRight(c, hi, m);
      assert (c * lo) % m == (c * hi) % m;
      MulModRight(hi, b, m);
      assert (hi * b) % m == (hi * c) % m;
      assert Pow(c, e) == c * lo;
      assert Pow(b, e) == b * hi;
    }
  }

  lemma {:induction false} PowOfOne(n: nat)
    ensures Pow(1, n) == 1
    decreases n
  {
    if n > 0 {
      PowOfOne(n - 1);
    }
  }

  /** A natural number below m is its own residue. */
  lemma ModOfSmall(a: nat, m: nat)
    requires a < m
    ensures a % m == a
  {
  }

  /** Reducing a residue again changes nothing. */
  lemma ModOfMod(a: nat, m: nat)
    requires m > 0
    ensures (a % m) % m == a % m
  {
  }

  /** g^(q*j + r) splits into j full cycles of g^q and a remainder g^r. */
  lemma PowCycles(g: nat, q: nat, j: nat, r: nat)
    ensures Pow(g, q * j + r) == Pow(Pow(g, q), j) * Pow(g, r)
  {
    PowAdd(g, q * j, r);
    PowMul(g, q, j);
  }

  /** When g^q is 1 modulo p, exponents of g may be reduced modulo q. */
  lemma ExponentModOrder(g: nat, p: nat, q: nat, a: nat)
    requires p > 1 && q > 0
    requires Pow(g, q) % p == 1
    ensures Pow(g, a) % p == Pow(g, a % q) % p
  {
    var j, r := a / q, a % q;
    var cycles, rest := Pow(Pow(g, q), j), Pow(g, r);
    assert Pow(g, a) == cycles * rest by {
      assert a == q * j + r;
      PowCycles(g, q, j, r);
    }
    assert cycles % p == 1 by {
      PowModBase(Pow(g, q), j, p);
      PowOfOne(j);
      ModOfSmall(1, p);
    }
    assert (cycles * rest) % p == rest % p by {
      MulMod(cycles, rest, p);
      ModOfMod(rest, p);
    }
  }

  /** Exponents congruent modulo the order q give congruent powers. */
  lemma ExponentsCongruent(g: nat, p: nat, q: nat, a: nat, b: nat)
    requires p > 1 && q > 0
    requires Pow(g, q) % p == 1
    requires a % q == b % q
    ensures Pow(g, a) % p == Pow(g, b) % p
  {
    ExponentModOrder(g, p, q, a);
    ExponentModOrder(g, p, q, b);
  }

  /** Replacing a factor by a congruent one keeps the product's residue. */
  lemma MulCongruentRight(a: nat, b1: nat, b2: nat, m: nat)
    requires m > 0
    requires b1 % m == b2 % m
    ensures (a * b1) % m == (a * b2) % m
  {
    MulModRight(a, b1, m);
    MulModRight(a, b2, m);
  }
}
