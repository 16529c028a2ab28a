# Chaum–Pedersen proof engine, modelled in Dafny

This project models the proof engine of a small Rust library. The library
implements the Chaum–Pedersen protocol. A prover who knows a secret `x` with
`y1 = g^x` and `y2 = h^x (mod p)` commits to `r1 = g^k` and `r2 = h^k`. The
verifier sends a challenge `c`. The prover answers `s = (k - c·x) mod q`, and
the verifier accepts when `r1 == (g^s·y1^c) mod p` and
`r2 == (h^s·y2^c) mod p`. Each `r` must equal the reduced residue exactly, so
a value that is only congruent to it is rejected.

The engine is the `ZKP` struct (`src/lib.rs:3-8`), modelled by the datatype
`Zkp.ZKP`. It holds the fixed group `(p, q, g, h)` and has three operations, `exponentiate`, `solve` and `verify`. Everything is pure
arithmetic on unsigned big integers. The model uses Dafny's unbounded `nat`.

- `modarith.dfy` (module `ModArith`): the power function `Pow`, plus lemmas
  about it modulo `m`. Products and bases may be reduced modulo `m`, and
  exponents may be reduced modulo the order of the base.
- `zkp.dfy` (module `Zkp`): the `ZKP` datatype, `Exponentiate`, `Solve` and
  `Verify`, and the completeness theorem.
- `toy_group.dfy` (module `ToyGroup`): the toy group `p = 23, q = 11, g = 4,
  h = 9` and the test transcripts from the repository.

The library computes `solve` with unsigned integers, so it branches on whether
`k >= c·x`. When `k < c·x` it returns `q - ((c·x - k) mod q)`. That value is
exactly `q` whenever `q` divides `c·x - k`, which is outside `[0, q)`. The model
keeps this behaviour as written, because the code does not reduce a second
time. The comment at `src/lib.rs:16` (`s = k - c * x mod q`) suggests a
canonical residue, but line 21 can return `q`; the model follows the code.
`Solve`'s contract states exactly when the result equals `q`.
`Zkp.VerifyResponseModQ` shows that this does not matter to the verifier when
`g` and `h` have order dividing `q`. `Zkp.Completeness` covers that case too.

The comments at `src/lib.rs:24-25` describe the checks as `g^s * y1 * c`. The
code computes `y1^c` (`src/lib.rs:27-28`), and the model follows the code.
The library's `x.modpow(1, m)` is `x mod m`, and the model writes it that way.

## Model

| member | source | states |
|---|---|---|
| Zkp.Exponentiate | src/lib.rs:11-14 | for a positive modulus the result is `n^e mod m` and lies in `[0, m)`; computed by square-and-multiply on residues and proved equal to the plain power |
| Zkp.Solve | src/lib.rs:16-22 | `s + c·x ≡ k (mod q)`; `s ≡ k - c·x (mod q)` as an integer residue; `s <= q`; `s < q` when `k >= c·x`; `s > 0` when `k < c·x`; `s == q` exactly when `k < c·x` and `q` divides `c·x - k` |
| Zkp.NonNegativeBranch | src/lib.rs:18-19 | when `k >= c·x`, `(k - c·x) mod q` is below `q` and satisfies `s + c·x ≡ k (mod q)` |
| Zkp.NegativeBranch | src/lib.rs:21 | when `k < c·x`, `q - ((c·x - k) mod q)` lies in `(0, q]`, equals `q` exactly when `q` divides `c·x - k`, and satisfies `s + c·x ≡ k (mod q)` |
| Zkp.Verify | src/lib.rs:26-29 | true exactly when `r1 == (g^s·y1^c) mod p` and `r2 == (h^s·y2^c) mod p`: each `r` must equal the residue of the unreduced product, although the code reduces each power mod `p` before multiplying |
| Zkp.HonestEquation | src/lib.rs:27-28 | one verification equation of an honest transcript: if `g^(s + c·x) ≡ g^k (mod p)`, then `g^s·(g^x mod p)^c ≡ g^k (mod p)`, for every `x, k, c` |
| Zkp.Completeness | src/lib.rs:93-108 | if `g^q ≡ 1` and `h^q ≡ 1 (mod p)` with `p > 1`, the honest transcript `(g^k, h^k, g^x, h^x, c, Solve(k, c, x))` verifies for all `x, k, c`, including when `Solve` returns `q` |
| Zkp.VerifyResponseModQ | src/lib.rs:21 | under the same order conditions, `Verify` gives the same answer for `s` and `s mod q`, so the non-canonical response `q` is accepted exactly when `0` is |
| ToyGroup.Toy | src/lib.rs:45-50 | the test fixture `ZKP { p: 23, q: 11, g: 4, h: 9 }`; in it `4^11 ≡ 1` and `9^11 ≡ 1 (mod 23)`, so the completeness theorem applies to it |
| ToyGroup.PublicValues | src/lib.rs:58-61 | for `x = 6`, `y1 = 2` and `y2 = 3` |
| ToyGroup.CommitmentValues | src/lib.rs:63-66 | for `k = 7`, `r1 = 8` and `r2 = 4` |
| ToyGroup.HonestVector | src/lib.rs:68-72 | `Solve(7, 4, 6) = 5` and `Verify(8, 4, 2, 3, 4, 5)` holds |
| ToyGroup.UnreducedCommitmentRejected | src/lib.rs:27 | `r1 = 31` is congruent to the accepted `8` modulo 23, yet `Verify(31, 4, 2, 3, 4, 5)` is false: the check is exact equality with the residue |
| ToyGroup.FakeWitnessRejected | src/lib.rs:74-78 | the fake secret `14` gives `Solve(7, 4, 14) = 6`, and `Verify(8, 4, 2, 3, 4, 6)` is false |
| ToyGroup.RandomCommitmentAndChallenge | src/lib.rs:84-108 | for every `k, c < 11` the honest transcript for `x = 6` verifies in the toy group |
| ToyGroup.ResponseEqualToQ | src/lib.rs:21 | `Solve(1, 3, 4) = 11 = q`, and that transcript verifies, as it does with the response `0` |

## Left out

- `generate_random_below` (`src/lib.rs:32-35`) draws from the thread-local random generator. Its uniformity is a statistical claim. The lemmas quantify over all `k` and `c` instead of sampling them.
- The internals of the big-integer library are not modelled: limb representation, Montgomery multiplication, timing. `Exponentiate` is a square-and-multiply recursion on natural numbers, proved equal to `n^e mod m`.
- A zero modulus makes the library's `modpow` panic. The model makes this a precondition: `m > 0` for `Exponentiate`, `q > 0` for `Solve`, `p > 0` for `Verify`.
- Security claims are not modelled: soundness against a cheating prover, zero knowledge, the hardness of discrete logarithms, and leakage of `x` when `k` is reused. Only the concrete fake-witness transcript is checked.
- Group parameters are not validated or generated. The library checks neither primality, nor `q | p - 1`, nor the orders of `g` and `h`. Completeness takes `g^q ≡ 1` and `h^q ≡ 1 (mod p)` as preconditions (`Zkp.OrderDividesQ`).
- The Rust test attributes and assertion macros (`#[test]`, `assert_eq!`) are not modelled; the tests appear as lemmas about the same values.
- Purity and idempotence of `verify` have no lemma. `Zkp.Verify` is a Dafny function, so equal inputs always give equal results.
