/** The Lorenz stream cipher and the hybrid scheme of dilithium/chaos.py.

    The Lorenz trajectory is floating point; it is the parameter `orbit`, which gives the
    byte `int(|x| + |y| + |z|) % 256` kept at each integration step of the trajectory
    started from SHA-256(seed + nonce). The random 16-byte nonce and the signer's mask
    draws are inputs. Every failure of the hybrid operations is a RuntimeError naming the
    operation and carrying the cause, as the `except Exception` wrappers do. */
module Chaos {
  import opened Bytes
  import opened Outcomes
  import opened Params
  import opened Ring
  import opened Hashing
  import opened KeyGen
  import opened Sign
  import opened Verify
  import Utf8

  /** The byte retained at each step of the trajectory for a given seed + nonce. */
  type Orbit = (seq<Byte>, nat) -> Byte

  const Warmup: nat := 1000
  const NonceLength: nat := 16
  const TagLength: nat := 32

  // ---------------------------------------------------------------- LorenzEncryption

  /** `_generate_keystream(length, nonce)`: one byte per step after the first 1000. */
  function Keystream(orbit: Orbit, seed: seq<Byte>, nonce: seq<Byte>, length: nat): (ks: seq<Byte>)
    ensures |ks| == length
  {
    seq(length, i requires 0 <= i < length => orbit(seed + nonce, Warmup + i))
  }

  /** The keystream loop, appending the byte of each step past the warm-up. */
  method GenerateKeystream(orbit: Orbit, seed: seq<Byte>, nonce: seq<Byte>, length: nat) returns (ks: seq<Byte>)
    ensures ks == Keystream(orbit, seed, nonce, length)
  {
    ks := [];
    for i := 0 to length
      invariant ks == Keystream(orbit, seed, nonce, i)
    {
      ks := ks + [orbit(seed + nonce, Warmup + i)];
    }
  }

  /** A shorter keystream is a prefix of a longer one, and the stream depends on seed and
      nonce only through their concatenation. */
  lemma KeystreamPrefix(orbit: Orbit, seed: seq<Byte>, nonce: seq<Byte>, seed': seq<Byte>, nonce': seq<Byte>,
                        m: nat, n: nat)
    requires m <= n && seed + nonce == seed' + nonce'
    ensures Keystream(orbit, seed, nonce, m) == Keystream(orbit, seed', nonce', n)[..m]
  {
  }

  /** The authentication tag: SHAKE-256(nonce + ciphertext + seed) read to 32 bytes. */
  function Tag(xof: Xof, nonce: seq<Byte>, ciphertext: seq<Byte>, seed: seq<Byte>): (t: seq<Byte>)
    ensures |t| == TagLength
  {
    xof(nonce + ciphertext + seed, TagLength)
  }

  /** `encrypt(plaintext)` with its random nonce as input: (ciphertext + tag, nonce). */
  function Encrypt(orbit: Orbit, xof: Xof, seed: seq<Byte>, plaintext: seq<Byte>, nonce: seq<Byte>)
    : (r: (seq<Byte>, seq<Byte>))
    requires |nonce| == NonceLength
    ensures r.1 == nonce && |r.0| == |plaintext| + TagLength
    ensures r.0[|plaintext|..] == Tag(xof, nonce, r.0[..|plaintext|], seed)
  {
    var ciphertext := Xor(plaintext, Keystream(orbit, seed, nonce, |plaintext|));
    assert (ciphertext + Tag(xof, nonce, ciphertext, seed))[..|plaintext|] == ciphertext;
    (ciphertext + Tag(xof, nonce, ciphertext, seed), nonce)
  }

  /** Python's `s[-k:]`: the last k bytes, or all of s when it is shorter. */
  function LastBytes(s: seq<Byte>, k: nat): (r: seq<Byte>)
    ensures |r| == if |s| >= k then k else |s|
  {
    if |s| >= k then s[|s| - k..] else s
  }

  /** Python's `s[:-k]` for k > 0: all but the last k bytes, or nothing when s is shorter. */
  function AllButLast(s: seq<Byte>, k: nat): (r: seq<Byte>)
    ensures |r| == if |s| >= k then |s| - k else 0
  {
    if |s| >= k then s[..|s| - k] else []
  }

  /** The causes the hybrid layer can report. */
  datatype Cause =
    | AuthenticationFailed          // the tag check of `decrypt`
    | SelfVerificationFailed        // the check right after signing
    | SignatureVerificationFailed   // the check before decrypting
    | NotUtf8                       // the decrypted bytes are not well-formed UTF-8
    | MasksExhausted                // no mask draw was accepted (the source keeps drawing)

  /** `decrypt(cipherdata, nonce)`: check the trailing tag, then XOR off the keystream. */
  function Decrypt(orbit: Orbit, xof: Xof, seed: seq<Byte>, cipherdata: seq<Byte>, nonce: seq<Byte>)
    : (r: Result<seq<Byte>, Cause>)
    ensures r.Failure? ==> r.error == AuthenticationFailed
  {
    var tag := LastBytes(cipherdata, TagLength);
    var ciphertext := AllButLast(cipherdata, TagLength);
    if tag != Tag(xof, nonce, ciphertext, seed) then Failure(AuthenticationFailed)
    else Success(Xor(ciphertext, Keystream(orbit, seed, nonce, |ciphertext|)))
  }

  /** Decryption succeeds exactly when the input has at least 32 bytes and its last 32 are
      the tag of the rest; it then returns as many bytes as precede the tag. Inputs shorter
      than the tag always fail. */
  lemma DecryptAuthenticates(orbit: Orbit, xof: Xof, seed: seq<Byte>, cipherdata: seq<Byte>, nonce: seq<Byte>)
    ensures var r := Decrypt(orbit, xof, seed, cipherdata, nonce);
      && (r.Success? <==>
            (|cipherdata| >= TagLength
             && cipherdata[|cipherdata| - TagLength..] == Tag(xof, nonce, cipherdata[..|cipherdata| - TagLength], seed)))
      && (r.Success? ==> |r.value| == |cipherdata| - TagLength)
      && (|cipherdata| < TagLength ==> r == Failure(AuthenticationFailed))
  {
  }

  /** Decrypting what `encrypt` produced, with the same seed and the returned nonce, gives
      back the plaintext. */
  lemma EncryptDecrypt(orbit: Orbit, xof: Xof, seed: seq<Byte>, plaintext: seq<Byte>, nonce: seq<Byte>)
    requires |nonce| == NonceLength
    ensures var (cipherdata, n) := Encrypt(orbit, xof, seed, plaintext, nonce);
      Decrypt(orbit, xof, seed, cipherdata, n) == Success(plaintext)
  {
    var (cipherdata, n) := Encrypt(orbit, xof, seed, plaintext, nonce);
    var pad := Keystream(orbit, seed, nonce, |plaintext|);
    var ciphertext := Xor(plaintext, pad);
    assert AllButLast(cipherdata, TagLength) == ciphertext;
    XorTwice(plaintext, pad);
  }

  // ---------------------------------------------------------------- HybridEncryption

  datatype Operation = KeyGeneration | Encryption | Decryption

  /** `RuntimeError(f"<operation> failed: {e}")`. */
  datatype HybridError = RuntimeError(operation: Operation, cause: Cause)

  /** `generate_keys`: key generation cannot fail for a valid parameter set, so the
      RuntimeError wrapper is never reached. */
  method GenerateKeys(p: ParamSet, xof: Xof, seed: seq<Byte>) returns (r: Result<(PublicKey, PrivateKey), HybridError>)
    requires Valid(p) && |seed| == 32
    ensures r.Success? && WellFormedKeys(p, r.value.0, r.value.1)
    ensures r.value.0.seed == seed && r.value.1.s1 == Secret1(p, xof, seed) && r.value.1.s2 == Secret2(p, xof, seed)
    ensures r.value.0.t == PublicT(p, MatrixOf(p, xof, seed), r.value.1.s1, r.value.1.s2)
  {
    var pk, sk := GenerateKeypair(p, xof, seed);
    r := Success((pk, sk));
  }

  predicate MasksShape(p: ParamSet, masks: seq<seq<Poly>>) {
    forall b :: 0 <= b < |masks| ==> MaskShape(p, masks[b])
  }

  /** What `encrypt_and_sign(message, private_key)` returns: encrypt under the private seed,
      sign the ciphertext-plus-tag bytes, and check the signature at once against the
      private-key record (whose seed and t fields are read as a public key). */
  function EncryptAndSignOf(p: ParamSet, xof: Xof, orbit: Orbit, message: seq<Byte>, sk: PrivateKey,
                            nonce: seq<Byte>, masks: seq<seq<Poly>>)
    : Result<(seq<Byte>, seq<Byte>, Signature), HybridError>
    requires Valid(p) && SecretKeyShape(p, sk) && MasksShape(p, masks) && |nonce| == NonceLength
  {
    var (ciphertext, n) := Encrypt(orbit, xof, sk.seed, message, nonce);
    var signed := SignOf(p, xof, ciphertext, sk, masks);
    if signed.Failure? then Failure(RuntimeError(Encryption, MasksExhausted))
    else
      SignatureRange(p, xof, ciphertext, sk, masks);
      if !VerifyOf(p, xof, signed.value, PublicKey(sk.seed, sk.t))
      then Failure(RuntimeError(Encryption, SelfVerificationFailed))
      else Success((ciphertext, n, signed.value))
  }

  method EncryptAndSign(p: ParamSet, xof: Xof, orbit: Orbit, message: seq<Byte>, sk: PrivateKey,
                        nonce: seq<Byte>, masks: seq<seq<Poly>>)
    returns (r: Result<(seq<Byte>, seq<Byte>, Signature), HybridError>)
    requires Valid(p) && SecretKeyShape(p, sk) && MasksShape(p, masks) && |nonce| == NonceLength
    ensures r == EncryptAndSignOf(p, xof, orbit, message, sk, nonce, masks)
  {
    var (ciphertext, n) := Encrypt(orbit, xof, sk.seed, message, nonce);
    var signed := SignMessage(p, xof, ciphertext, sk, masks);
    if signed.Failure? {
      return Failure(RuntimeError(Encryption, MasksExhausted));
    }
    SignatureRange(p, xof, ciphertext, sk, masks);
    var ok := VerifySignature(p, xof, ciphertext, signed.value, PublicKey(sk.seed, sk.t));
    if !ok {
      return Failure(RuntimeError(Encryption, SelfVerificationFailed));
    }
    r := Success((ciphertext, n, signed.value));
  }

  /** `encrypt_and_sign` signs the ciphertext-plus-tag, not the plaintext: on success the
      signature is the one `sign` gives for those bytes, its mu is their digest, and it
      passed `verify` against the private key's seed and t. */
  lemma EncryptAndSignSignsCiphertext(p: ParamSet, xof: Xof, orbit: Orbit, message: seq<Byte>, sk: PrivateKey,
                                      nonce: seq<Byte>, masks: seq<seq<Poly>>)
    requires Valid(p) && SecretKeyShape(p, sk) && MasksShape(p, masks) && |nonce| == NonceLength
    requires EncryptAndSignOf(p, xof, orbit, message, sk, nonce, masks).Success?
    ensures var (ciphertext, n, sig) := EncryptAndSignOf(p, xof, orbit, message, sk, nonce, masks).value;
      && (ciphertext, n) == Encrypt(orbit, xof, sk.seed, message, nonce)
      && SignOf(p, xof, ciphertext, sk, masks) == Success(sig)
      && sig.mu == xof(ciphertext, 64)
      && InputShape(p, sig, PublicKey(sk.seed, sk.t)) && VerifyOf(p, xof, sig, PublicKey(sk.seed, sk.t))
  {
    var (ciphertext, n) := Encrypt(orbit, xof, sk.seed, message, nonce);
    SignatureRange(p, xof, ciphertext, sk, masks);
    SignSucceeds(p, xof, ciphertext, sk, masks);
  }

  /** What `verify_and_decrypt(ciphertext, nonce, signature, public_key)` returns. */
  function VerifyAndDecryptOf(p: ParamSet, xof: Xof, orbit: Orbit, cipherdata: seq<Byte>, nonce: seq<Byte>,
                              sig: Signature, pk: PublicKey)
    : Result<seq<Byte>, HybridError>
    requires Valid(p) && InputShape(p, sig, pk)
  {
    if !VerifyOf(p, xof, sig, pk) then Failure(RuntimeError(Decryption, SignatureVerificationFailed))
    else match Decrypt(orbit, xof, pk.seed, cipherdata, nonce)
      case Failure(cause) => Failure(RuntimeError(Decryption, cause))
      case Success(plaintext) =>
        if Utf8.Valid(plaintext) then Success(plaintext) else Failure(RuntimeError(Decryption, NotUtf8))
  }

  method VerifyAndDecrypt(p: ParamSet, xof: Xof, orbit: Orbit, cipherdata: seq<Byte>, nonce: seq<Byte>,
                          sig: Signature, pk: PublicKey)
    returns (r: Result<seq<Byte>, HybridError>)
    requires Valid(p) && InputShape(p, sig, pk)
    ensures r == VerifyAndDecryptOf(p, xof, orbit, cipherdata, nonce, sig, pk)
  {
    var ok := VerifySignature(p, xof, cipherdata, sig, pk);
    if !ok {
      return Failure(RuntimeError(Decryption, SignatureVerificationFailed));
    }
    var decrypted := Decrypt(orbit, xof, pk.seed, cipherdata, nonce);
    if decrypted.Failure? {
      return Failure(RuntimeError(Decryption, decrypted.error));
    }
    if !Utf8.Valid(decrypted.value) {
      return Failure(RuntimeError(Decryption, NotUtf8));
    }
    r := Success(decrypted.value);
  }

  /** The order of the checks in `verify_and_decrypt`: a rejected signature fails before
      anything is decrypted, whatever the ciphertext; returned bytes passed the tag check
      and are well-formed UTF-8; and every failure is a RuntimeError of decryption. */
  lemma VerifyAndDecryptChecks(p: ParamSet, xof: Xof, orbit: Orbit, cipherdata: seq<Byte>, nonce: seq<Byte>,
                               sig: Signature, pk: PublicKey)
    requires Valid(p) && InputShape(p, sig, pk)
    ensures var r := VerifyAndDecryptOf(p, xof, orbit, cipherdata, nonce, sig, pk);
      && (!VerifyOf(p, xof, sig, pk) ==> r == Failure(RuntimeError(Decryption, SignatureVerificationFailed)))
      && (r.Success? ==> VerifyOf(p, xof, sig, pk)
                         && Decrypt(orbit, xof, pk.seed, cipherdata, nonce) == Success(r.value)
                         && Utf8.Valid(r.value))
      && (r.Failure? ==> r.error.operation == Decryption)
  {
  }

  /** Every failure of `encrypt_and_sign` is a RuntimeError of encryption. */
  lemma EncryptAndSignFailures(p: ParamSet, xof: Xof, orbit: Orbit, message: seq<Byte>, sk: PrivateKey,
                               nonce: seq<Byte>, masks: seq<seq<Poly>>)
    requires Valid(p) && SecretKeyShape(p, sk) && MasksShape(p, masks) && |nonce| == NonceLength
    ensures var r := EncryptAndSignOf(p, xof, orbit, message, sk, nonce, masks);
      r.Failure? ==> r.error.operation == Encryption && r.error.cause != AuthenticationFailed
  {
  }

  /** The hybrid round trip: with a generated key pair, what `encrypt_and_sign` returns
      passes `verify_and_decrypt` under the public key and yields the message, unless the
      message itself is not well-formed UTF-8. */
  lemma HybridRoundTrip(p: ParamSet, xof: Xof, orbit: Orbit, message: seq<Byte>, pk: PublicKey, sk: PrivateKey,
                        nonce: seq<Byte>, masks: seq<seq<Poly>>)
    requires Valid(p) && WellFormedKeys(p, pk, sk) && MasksShape(p, masks) && |nonce| == NonceLength
    requires EncryptAndSignOf(p, xof, orbit, message, sk, nonce, masks).Success?
    ensures var (ciphertext, n, sig) := EncryptAndSignOf(p, xof, orbit, message, sk, nonce, masks).value;
      InputShape(p, sig, pk) &&
      VerifyAndDecryptOf(p, xof, orbit, ciphertext, n, sig, pk)
        == if Utf8.Valid(message) then Success(message) else Failure(RuntimeError(Decryption, NotUtf8))
  {
    EncryptAndSignSignsCiphertext(p, xof, orbit, message, sk, nonce, masks);
    assert PublicKey(sk.seed, sk.t) == pk;
    EncryptDecrypt(orbit, xof, sk.seed, message, nonce);
  }
}
