/** The toy group p = 23, q = 11, g = 4, h = 9 and the transcripts worked
    through in the repository's own tests. */
module ToyGroup {
  import opened ModArith
  import opened Zkp

  /** The test fixture. 4 and 9 both have order 11 modulo 23, so the
      completeness theorem applies to it. */
  function Toy(): (zkp: ZKP)
    ensures OrderDividesQ(zkp)
  {
    assert Pow(4, 11) == 4194304;
    assert Pow(9, 11) == 31381059609;
    ZKP(23, 11, 4, 9)
  }

  /** The public values for the secret x = 6. */
  lemma PublicValues()
    ensures Exponentiate(4, 6, 23) == 2 && Exponentiate(9, 6, 23) == 3
  {
    assert Pow(4, 6) == 4096 && Pow(9, 6) == 531441;
  }

  /** The commitment values for k = 7. */
  lemma CommitmentValues()
    ensures Exponentiate(4, 7, 23) == 8 && Exponentiate(9, 7, 23) == 4
  {
    assert Pow(4, 7) == 16384 && Pow(9, 7) == 4782969;
  }

  /** The honest transcript for x = 6, k = 7, c = 4 has response 5 and
      verifies. */
  lemma HonestVector()
    ensures Solve(Toy(), 7, 4, 6) == 5
    ensures Verify(Toy(), 8, 4, 2, 3, 4, 5)
  {
    assert Pow(4, 5) == 1024 && Pow(9, 5) == 59049;
    assert Pow(2, 4) == 16 && Pow(3, 4) == 81;
  }

  /** Verify compares r1 with the reduced residue exactly: 31, which is
      congruent to the accepted 8 modulo 23, is rejected. */
  lemma UnreducedCommitmentRejected()
    ensures 31 % 23 == 8
    ensures Verify(Toy(), 8, 4, 2, 3, 4, 5) && !Verify(Toy(), 31, 4, 2, 3, 4, 5)
  {
    HonestVector();
  }

  /** A prover who uses the fake secret 14 with the same k and c answers 6,
      and that response is rejected. */
  lemma FakeWitnessRejected()
    ensures Solve(Toy(), 7, 4, 14) == 6
    ensures !Verify(Toy(), 8, 4, 2, 3, 4, 6)
  {
    assert Pow(4, 6) == 4096 && Pow(2, 4) == 16;
  }

  /** The test with a random commitment and challenge: for every k and c
      below q, the honest transcript for x = 6 verifies. */
  lemma RandomCommitmentAndChallenge(k: nat, c: nat)
    requires k < 11 && c < 11
    ensures Exponentiate(4, 6, 23) == 2 && Exponentiate(9, 6, 23) == 3
    ensures Verify(Toy(), Exponentiate(4, k, 23), Exponentiate(9, k, 23), 2, 3, c, Solve(Toy(), k, c, 6))
  {
    PublicValues();
    Completeness(Toy(), 6, k, c);
  }

  /** k = 1, c = 3, x = 4: c*x - k = 11 is a multiple of q, so Solve answers
      q itself, outside [0, q); the transcript (r1, r2) = (4, 9),
      (y1, y2) = (3, 6) still verifies, exactly as the canonical response 0
      would. */
  lemma ResponseEqualToQ()
    ensures Solve(Toy(), 1, 3, 4) == 11
    ensures Exponentiate(4, 1, 23) == 4 && Exponentiate(9, 1, 23) == 9
    ensures Exponentiate(4, 4, 23) == 3 && Exponentiate(9, 4, 23) == 6
    ensures Verify(Toy(), 4, 9, 3, 6, 3, 11) && Verify(Toy(), 4, 9, 3, 6, 3, 0)
  {
    assert Pow(4, 4) == 256 && Pow(9, 4) == 6561;
    assert Pow(3, 3) == 27 && Pow(6, 3) == 216;
    VerifyResponseModQ(Toy(), 4, 9, 3, 6, 3, 11);
  }
}
