/** The hash functions the code calls (hashlib's shake_256, sha3_256 and sha256) are not
    modelled inside; they appear as function values that promise only their output length
    and, for SHAKE-256, that a shorter digest is a prefix of a longer one. */
module Hashing {
  import opened Bytes

  /** SHAKE-256 (FIPS 202, section 6.2): `shake_256(input).digest(length)`. The output of
      an extendable-output function is one stream read to the length asked for, so a
      shorter digest is a prefix of a longer one. */
  type Xof = f: (seq<Byte>, nat) -> seq<Byte> |
    && (forall s: seq<Byte>, m: nat :: |f(s, m)| == m)
    && (forall s: seq<Byte>, m: nat, m': nat :: m <= m' ==> f(s, m) == f(s, m')[..m])
    witness (s: seq<Byte>, m: nat) => seq(m, _ => 0 as Byte)

  /** A 32-byte digest such as SHA3-256 (FIPS 202, section 6.1). */
  type Digest32 = f: seq<Byte> -> seq<Byte> | forall s: seq<Byte> :: |f(s)| == 32
    witness (s: seq<Byte>) => seq(32, _ => 0 as Byte)
}
