/** Verification of dilithium/verify.py (class Verifier). `self._decompose`
    (dilithium/verify.py:25, 36) is not a Verifier method and `self.signer._sample_matrix`
    (dilithium/verify.py:24) is not a Signer method; the model uses the signer's decompose
    and the key generator's sampler, which is evidently what was meant.

    Note what the code compares: the reference challenge is derived from mu and the high
    bits of the public t, not from anything the signer hashed, so the verdict is whether
    the challenge of the high bits of A z - c t equals the challenge of the high bits of t. */
module Verify {
  import opened Bytes
  import opened Params
  import opened Ring
  import opened Hashing
  import opened KeyGen
  import opened Sign

  /** w[i] = A[i] z - c t[i], reduced. */
  function VerifierW(p: ParamSet, a: seq<seq<Poly>>, z: seq<Poly>, c: Poly, t: seq<Poly>): (w: seq<Poly>)
    requires Valid(p) && |a| == p.k && (forall i :: 0 <= i < p.k ==> Shaped(a[i], p.l, p.n))
    requires Shaped(z, p.l, p.n) && |c| == p.n && Shaped(t, p.k, p.n)
    ensures Shaped(w, p.k, p.n) && Bounded(w, 0, p.q - 1)
  {
    seq(p.k, i requires 0 <= i < p.k =>
      Subtract(RowSum(a[i], z, p.n, p.q, p.l), NegacyclicProduct(c, t[i], p.q), p.q))
  }

  /** The shapes `verify` relies on when it indexes z and t. */
  predicate InputShape(p: ParamSet, sig: Signature, pk: PublicKey) {
    Shaped(sig.z, p.l, p.n) && Shaped(pk.t, p.k, p.n)
  }

  /** The verdict of `verify`. It has no message argument: the message is never read. */
  predicate VerifyOf(p: ParamSet, xof: Xof, sig: Signature, pk: PublicKey)
    requires Valid(p) && InputShape(p, sig, pk)
  {
    && WithinBound(p, sig.z)
    && var c := ChallengeOf(p, xof, sig.mu, Decompose(p, pk.t));
       var w := VerifierW(p, MatrixOf(p, xof, pk.seed), sig.z, c, pk.t);
       ChallengeOf(p, xof, sig.mu, Decompose(p, w)) == c
  }

  /** The nested loops of `verify` computing w = A z - c t. */
  method Residue(p: ParamSet, xof: Xof, seed: seq<Byte>, a: array2<Poly>, z: seq<Poly>, c: Poly, t: seq<Poly>)
    returns (w: seq<Poly>)
    requires Valid(p) && HoldsMatrix(a, p, xof, seed)
    requires Shaped(z, p.l, p.n) && |c| == p.n && Shaped(t, p.k, p.n)
    ensures w == VerifierW(p, MatrixOf(p, xof, seed), z, c, t)
  {
    ghost var target := VerifierW(p, MatrixOf(p, xof, seed), z, c, t);
    var rows := new Poly[p.k](_ => Zero(p.n));
    for i := 0 to p.k
      invariant forall i' :: 0 <= i' < i ==> rows[i'] == target[i']
    {
      RowOfHeldMatrix(a, p, xof, seed, i);
      var acc := AccumulateRow(a, i, z, p.n, p.q);
      var product := Multiply(c, t[i], p.q);
      rows[i] := Subtract(acc, product, p.q);
    }
    w := rows[..];
  }

  /** `verify(message, signature, public_key)`: reject an out-of-bound z at once, otherwise
      recompute the challenge from A z - c t and compare it with c. */
  method VerifySignature(p: ParamSet, xof: Xof, message: seq<Byte>, sig: Signature, pk: PublicKey)
    returns (ok: bool)
    requires Valid(p) && InputShape(p, sig, pk)
    ensures ok == VerifyOf(p, xof, sig, pk)
  {
    if !WithinBound(p, sig.z) {
      return false;
    }
    var a := SampleMatrix(p, xof, pk.seed);
    var c := Challenge(p, xof, sig.mu, Decompose(p, pk.t));
    var w := Residue(p, xof, pk.seed, a, sig.z, c, pk.t);
    var cPrime := Challenge(p, xof, sig.mu, Decompose(p, w));
    ok := cPrime == c;
  }

  /** Each coefficient of w is (sum_j A[i][j] z[j] - c t[i]) mod q, with every ring product
      taken in [0, q). */
  lemma VerifierWFormula(p: ParamSet, a: seq<seq<Poly>>, z: seq<Poly>, c: Poly, t: seq<Poly>, i: int, x: int)
    requires Valid(p) && |a| == p.k && (forall i :: 0 <= i < p.k ==> Shaped(a[i], p.l, p.n))
    requires Shaped(z, p.l, p.n) && |c| == p.n && Shaped(t, p.k, p.n)
    requires 0 <= i < p.k && 0 <= x < p.n
    ensures VerifierW(p, a, z, c, t)[i][x]
            == (DotSum(a[i], z, p.n, p.q, x, p.l) - NegacyclicProduct(c, t[i], p.q)[x]) % p.q
  {
    RowSumFormula(a[i], z, p.n, p.q, x, p.l);
    ModOfSum(DotSum(a[i], z, p.n, p.q, x, p.l), -NegacyclicProduct(c, t[i], p.q)[x], p.q);
  }

  /** An accepted signature has every coefficient of z strictly inside (-(gamma1 - beta),
      gamma1 - beta), or equal to -2^31, which the int32 `np.abs` lets through. */
  lemma AcceptedSignature(p: ParamSet, xof: Xof, sig: Signature, pk: PublicKey)
    requires Valid(p) && InputShape(p, sig, pk) && VerifyOf(p, xof, sig, pk)
    ensures BoundedOrInt32Min(sig.z, 1 - RejectionBound(p), RejectionBound(p) - 1)
  {
    WithinBoundIsBounded(p, sig.z);
  }

  /** A response that `sign` returned always passes the first check of `verify`. */
  lemma SignedResponsePassesNormCheck(p: ParamSet, xof: Xof, message: seq<Byte>, sk: PrivateKey,
                                      masks: seq<seq<Poly>>)
    requires Valid(p) && SecretKeyShape(p, sk) && (forall b :: 0 <= b < |masks| ==> MaskShape(p, masks[b]))
    requires SignOf(p, xof, message, sk, masks).Success?
    ensures WithinBound(p, SignOf(p, xof, message, sk, masks).value.z)
  {
    var z := SignOf(p, xof, message, sk, masks).value.z;
    SignatureRange(p, xof, message, sk, masks);
    forall i | 0 <= i < |z| ensures forall c :: 0 <= c < |z[i]| ==> Abs32(z[i][c]) < RejectionBound(p) {
      assert Within(z[i], 0, RejectionBound(p) - 1);
    }
  }
}
