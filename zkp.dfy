/** The proof engine of the Chaum–Pedersen protocol: a prover who knows x
    with y1 = g^x and y2 = h^x (mod p) commits with r1 = g^k, r2 = h^k,
    answers a challenge c with s = k - c*x (mod q), and the verifier checks
    r1 == (g^s * y1^c) % p and r2 == (h^s * y2^c) % p, so each r must be the
    reduced residue itself.
    Arbitrary-precision unsigned integers are natural numbers here. */
module Zkp {
  import opened ModArith

  /** The group description the engine is built over: the modulus p, the
      order q of the subgroup, and its two generators g and h. It is never
      changed after construction. */
  datatype ZKP = ZKP(p: nat, q: nat, g: nat, h: nat)

  /** g^e as g^(e/2) squared, times g once more when e is odd. */
  lemma PowHalves(n: nat, e: nat)
    ensures Pow(n, e) == Pow(n, e / 2) * Pow(n, e / 2) * (if e % 2 == 0 then 1 else n)
  {
    PowAdd(n, e / 2, e / 2);
    if e % 2 == 1 {
      PowAdd(n, e / 2 + e / 2, 1);
      assert Pow(n, 1) == n;
    }
  }

  /** n^e mod m by square-and-multiply on residues; the modulus must be
      positive, as a zero modulus makes the library call fail. */
  function Exponentiate(n: nat, e: nat, m: nat): (r: nat)
    requires m > 0
    ensures r < m
    ensures r == Pow(n, e) % m
    decreases e
  {
    if e == 0 then 1 % m
    else
      var half := Exponentiate(n, e / 2, m);
      var sq := (half * half) % m;
      var r := if e % 2 == 0 then sq else (sq * (n % m)) % m;
      SquareAndMultiplyStep(n, e, m, half, sq, r);
      r
  }

  /** One step of square-and-multiply keeps the residue of n^e. */
  lemma SquareAndMultiplyStep(n: nat, e: nat, m: nat, half: nat, sq: nat, r: nat)
    requires m > 0 && e > 0
    requires half == Pow(n, e / 2) % m
    requires sq == (half * half) % m
    requires r == if e % 2 == 0 then sq else (sq * (n % m)) % m
    ensures r == Pow(n, e) % m
  {
    var h := Pow(n, e / 2);
    PowHalves(n, e);
    MulMod(h, h, m);
    assert sq == (h * h) % m;
    if e % 2 == 1 {
      MulMod(h * h, n, m);
      ModOfMod(h * h, m);
      assert r == (h * h * n) % m;
    } else {
      assert Pow(n, e) == h * h;
    }
  }

  /** The prover's response s = (k - c*x) mod q, computed on unsigned values
      by branching on the sign of k - c*x. The order q must be positive, as a
      zero modulus makes the library call fail. */
  function Solve(zkp: ZKP, k: nat, c: nat, x: nat): (s: nat)
    requires zkp.q > 0
    ensures (s + c * x) % zkp.q == k % zkp.q
    ensures s % zkp.q == (k - c * x) % zkp.q
    ensures s <= zkp.q
    ensures k >= c * x ==> s < zkp.q
    ensures k < c * x ==> s > 0
    ensures s == zkp.q <==> k < c * x && (c * x - k) % zkp.q == 0
  {
    var cx := c * x;
    if k >= cx then
      var s := (k - cx) % zkp.q;
      NonNegativeBranch(zkp.q, k, cx, s);
      s
    else
      var s := zkp.q - (cx - k) % zkp.q;
      NegativeBranch(zkp.q, k, cx, s);
      s
  }

  /** When k >= c*x the plain remainder is the canonical residue. */
  lemma NonNegativeBranch(q: nat, k: nat, cx: nat, s: nat)
    requires q > 0 && k >= cx && s == (k - cx) % q
    ensures (s + cx) % q == k % q
    ensures s % q == (k - cx) % q
    ensures s < q
  {
    var d := k - cx;
    assert k == q * (d / q) + (s + cx);
    ModAddMultiple(d / q, s + cx, q);
    ModOfMod(d, q);
  }

  /** When k < c*x the response is q minus the remainder of c*x - k, which
      lies in (0, q] and is q exactly when q divides c*x - k. */
  lemma NegativeBranch(q: nat, k: nat, cx: nat, s: nat)
    requires q > 0 && k < cx && s == q - (cx - k) % q
    ensures (s + cx) % q == k % q
    ensures s % q == (k - cx) % q
    ensures 0 < s <= q
    ensures s == q <==> (cx - k) % q == 0
  {
    var d := cx - k;
    var t := d / q + 1;
    assert d == q * (d / q) + d % q;
    assert s + cx == q * t + k;
    ModAddMultiple(t, k, q);
    assert s == q * t + (k - cx);
    ModAddMultiple(t, k - cx, q);
  }

  /** Both verification equations, each computed as the library does: the
      two powers reduced modulo p, then their product reduced once more. The
      result says whether r1 equals the residue (g^s * y1^c) % p and r2 equals
      (h^s * y2^c) % p; an r that is merely congruent is rejected. */
  function Verify(zkp: ZKP, r1: nat, r2: nat, y1: nat, y2: nat, c: nat, s: nat): (ok: bool)
    requires zkp.p > 0
    ensures ok <==> (r1 == (Pow(zkp.g, s) * Pow(y1, c)) % zkp.p
                  && r2 == (Pow(zkp.h, s) * Pow(y2, c)) % zkp.p)
  {
    var cond1 := r1 == (Exponentiate(zkp.g, s, zkp.p) * Exponentiate(y1, c, zkp.p)) % zkp.p;
    var cond2 := r2 == (Exponentiate(zkp.h, s, zkp.p) * Exponentiate(y2, c, zkp.p)) % zkp.p;
    MulMod(Pow(zkp.g, s), Pow(y1, c), zkp.p);
    MulMod(Pow(zkp.h, s), Pow(y2, c), zkp.p);
    cond1 && cond2
  }

  /** The group law the completeness argument needs: g and h have order
      dividing q modulo p. The engine never checks it. */
  ghost predicate OrderDividesQ(zkp: ZKP)
  {
    zkp.p > 1 && zkp.q > 0 && Pow(zkp.g, zkp.q) % zkp.p == 1 && Pow(zkp.h, zkp.q) % zkp.p == 1
  }

  /** (g^x mod p)^c is g^(c*x) modulo p. */
  lemma ChallengePower(g: nat, p: nat, x: nat, c: nat)
    requires p > 0
    ensures Pow(Pow(g, x) % p, c) % p == Pow(g, c * x) % p
  {
    PowModBase(Pow(g, x), c, p);
    PowMul(g, x, c);
    assert x * c == c * x;
  }

  /** Multiplying g^s by a value congruent to g^e gives g^(s + e), modulo p. */
  lemma ShiftedExponent(g: nat, p: nat, s: nat, e: nat, z: nat)
    requires p > 0
    requires z % p == Pow(g, e) % p
    ensures (Pow(g, s) * z) % p == Pow(g, s + e) % p
  {
    MulCongruentRight(Pow(g, s), z, Pow(g, e), p);
    PowAdd(g, s, e);
  }

  /** One verification equation holds for an honest transcript: with
      y = g^x and r = g^k, a response s with g^(s + c*x) == g^k (mod p)
      gives g^s * y^c == r (mod p). */
  lemma HonestEquation(g: nat, p: nat, x: nat, k: nat, c: nat, s: nat)
    requires p > 0
    requires Pow(g, s + c * x) % p == Pow(g, k) % p
    ensures (Pow(g, s) * Pow(Pow(g, x) % p, c)) % p == Pow(g, k) % p
  {
    ChallengePower(g, p, x, c);
    ShiftedExponent(g, p, s, c * x, Pow(Pow(g, x) % p, c));
  }

  /** Completeness: when g and h have order dividing q, the honest prover's
      transcript verifies for every secret x, commitment k and challenge c,
      including when Solve returns q itself. */
  lemma Completeness(zkp: ZKP, x: nat, k: nat, c: nat)
    requires OrderDividesQ(zkp)
    ensures Verify(zkp,
                   Exponentiate(zkp.g, k, zkp.p), Exponentiate(zkp.h, k, zkp.p),
                   Exponentiate(zkp.g, x, zkp.p), Exponentiate(zkp.h, x, zkp.p),
                   c, Solve(zkp, k, c, x))
  {
    var s := Solve(zkp, k, c, x);
    ExponentsCongruent(zkp.g, zkp.p, zkp.q, s + c * x, k);
    ExponentsCongruent(zkp.h, zkp.p, zkp.q, s + c * x, k);
    HonestEquation(zkp.g, zkp.p, x, k, c, s);
    HonestEquation(zkp.h, zkp.p, x, k, c, s);
  }

  /** When g and h have order dividing q, Verify sees a response only modulo
      q: in particular the out-of-range response q verifies exactly when 0
      does. */
  lemma VerifyResponseModQ(zkp: ZKP, r1: nat, r2: nat, y1: nat, y2: nat, c: nat, s: nat)
    requires OrderDividesQ(zkp)
    ensures Verify(zkp, r1, r2, y1, y2, c, s) == Verify(zkp, r1, r2, y1, y2, c, s % zkp.q)
  {
    var p, q := zkp.p, zkp.q;
    ExponentModOrder(zkp.g, p, q, s);
    ExponentModOrder(zkp.h, p, q, s);
    ModOfMod(s, q);
    ExponentModOrder(zkp.g, p, q, s % q);
    ExponentModOrder(zkp.h, p, q, s % q);
    MulMod(Pow(zkp.g, s), Pow(y1, c), p);
    MulMod(Pow(zkp.g, s % q), Pow(y1, c), p);
    MulMod(Pow(zkp.h, s), Pow(y2, c), p);
    MulMod(Pow(zkp.h, s % q), Pow(y2, c), p);
  }
}
