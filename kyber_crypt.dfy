/** The toy lattice/chaos cipher `QuantumChaoticCrypto` of kyber-crypt.py. A key of `length`
    bits XORs three streams bit by bit: a logistic-map bit, a Lorenz bit and the parity of a
    coefficient of a Kyber-like public key b = A s + e. The bits are packed eight per byte,
    first bit most significant, and a message is XORed with a key as long as itself. The
    floating-point maps and numpy's generator are parameters: a bit source per map and a
    sampler from the numpy seed to the draws. */
module KyberCrypt {
  import opened Bytes
  import opened Outcomes
  import Utf8
  import Ring

  /** The lattice dimension n, the modulus q, the rank k and the noise parameter eta. */
  const N: nat := 256
  const Q: nat := 3329
  const K: nat := 3
  const Eta: nat := 2

  /** The coefficients of a polynomial, as numpy holds them (exact integers in a float array). */
  type Poly = seq<int>

  predicate IsReduced(p: Poly) {
    |p| == N && forall c :: 0 <= c < N ==> 0 <= p[c] < Q
  }

  predicate IsNoise(p: Poly) {
    |p| == N && forall c :: 0 <= c < N ==> -(Eta as int) <= p[c] <= Eta
  }

  /** k x k polynomials of n coefficients. */
  predicate IsMatrix(a: seq<seq<Poly>>) {
    |a| == K && forall i :: 0 <= i < K ==> |a[i]| == K && forall j :: 0 <= j < K ==> |a[i][j]| == N
  }

  /** k polynomials of n coefficients. */
  predicate IsVector(s: seq<Poly>) {
    |s| == K && forall j :: 0 <= j < K ==> |s[j]| == N
  }

  /** What `generate_kyber_keypair` draws from numpy's generator: the matrix A of uniform
      polynomials (`randint(0, q, n)`), then the noise vectors for s and for e, each value
      the difference of two `binomial(eta, 0.5)` draws. */
  datatype Draws = Draws(a: seq<seq<Poly>>, sNoise: seq<Poly>, eNoise: seq<Poly>)

  predicate WellDrawn(d: Draws) {
    && IsMatrix(d.a)
    && (forall i, j :: 0 <= i < K && 0 <= j < K ==> IsReduced(d.a[i][j]))
    && |d.sNoise| == K && (forall j :: 0 <= j < K ==> IsNoise(d.sNoise[j]))
    && |d.eNoise| == K && (forall j :: 0 <= j < K ==> IsNoise(d.eNoise[j]))
  }

  const ZeroPoly: Poly := seq(N, _ => 0)
  const ZeroDraws: Draws := Draws(seq(K, _ => seq(K, _ => ZeroPoly)), seq(K, _ => ZeroPoly), seq(K, _ => ZeroPoly))

  /** numpy's generator after `np.random.seed(seed)`: what it draws depends on the seed alone. */
  type Sampler = f: nat -> Draws | forall seed: nat :: WellDrawn(f(seed))
    witness (seed: nat) => ZeroDraws

  /** Bit i of one chaotic map for a hash input (`logistic_seq[i] > 0.5` or
      `lorenz_seq[i] > 0.5`), the map started from the SHA-256 digest of that input. */
  type BitSource = (seq<Byte>, nat) -> bool

  /** A `QuantumChaoticCrypto` object: its seed string, and the sources its methods draw on. */
  datatype Crypto = Crypto(seed: string, logistic: BitSource, lorenz: BitSource, sampler: Sampler)

  // ---------------------------------------------------------------- Kyber-like key pair

  /** `_add_noise(np.zeros(n))`: numpy's `%` takes the sign of q, so a negative noise value v
      becomes q + v. */
  function Noisy(noise: Poly): (p: Poly)
    requires IsNoise(noise)
    ensures IsReduced(p)
    ensures forall c :: 0 <= c < N ==> p[c] == if noise[c] >= 0 then noise[c] else Q + noise[c]
  {
    seq(N, c requires 0 <= c < N => (0 + noise[c]) % Q)
  }

  /** The vectors s and e: k noisy polynomials. */
  function NoisyVector(noise: seq<Poly>): (s: seq<Poly>)
    requires |noise| == K && forall j :: 0 <= j < K ==> IsNoise(noise[j])
    ensures IsVector(s) && forall j :: 0 <= j < K ==> IsReduced(s[j])
  {
    seq(K, j requires 0 <= j < K => Noisy(noise[j]))
  }

  /** The sum over the first m pairs (i, j), i outer and j inner, of A[i][j][c] * s[j][c]:
      the products are coefficient-wise, not products in a polynomial ring. */
  function ProductSum(a: seq<seq<Poly>>, s: seq<Poly>, c: nat, m: nat): int
    requires IsMatrix(a) && IsVector(s) && c < N && m <= K * K
  {
    if m == 0 then 0
    else ProductSum(a, s, c, m - 1) + a[(m - 1) / K][(m - 1) % K][c] * s[(m - 1) % K][c]
  }

  /** b = A s + e, reduced once at the end, coefficient by coefficient. */
  function PublicKeyOf(a: seq<seq<Poly>>, s: seq<Poly>, e: seq<Poly>): (b: Poly)
    requires IsMatrix(a) && IsVector(s) && IsVector(e)
    ensures IsReduced(b)
  {
    seq(N, c requires 0 <= c < N => (ProductSum(a, s, c, K * K) + e[0][c]) % Q)
  }

  /** The pair (b, s) `generate_kyber_keypair` returns for the given draws. */
  function KyberKeypair(d: Draws): (r: (Poly, seq<Poly>))
    requires WellDrawn(d)
    ensures IsReduced(r.0) && IsVector(r.1)
  {
    var s := NoisyVector(d.sNoise);
    (PublicKeyOf(d.a, s, NoisyVector(d.eNoise)), s)
  }

  /** The first m products summed, each coefficient reduced mod q. */
  function Partial(a: seq<seq<Poly>>, s: seq<Poly>, m: nat): (p: Poly)
    requires IsMatrix(a) && IsVector(s) && m <= K * K
    ensures |p| == N
  {
    seq(N, c requires 0 <= c < N => ProductSum(a, s, c, m) % Q)
  }

  /** One step of the loop, `b = (b + A[i][j] * s[j]) % q`, takes the partial sums of the
      first K i + j products to those of the first K i + j + 1. */
  lemma PartialStep(a: seq<seq<Poly>>, s: seq<Poly>, i: nat, j: nat)
    requires IsMatrix(a) && IsVector(s) && i < K && j < K
    ensures var b := Partial(a, s, K * i + j);
      seq(N, c requires 0 <= c < N => (b[c] + a[i][j][c] * s[j][c]) % Q) == Partial(a, s, K * i + j + 1)
  {
    var m := K * i + j;
    assert m / K == i && m % K == j;
    var b := Partial(a, s, m);
    forall c | 0 <= c < N
      ensures (b[c] + a[i][j][c] * s[j][c]) % Q == ProductSum(a, s, c, m + 1) % Q
    {
      Ring.ModOfSum(ProductSum(a, s, c, m), a[i][j][c] * s[j][c], Q);
    }
  }

  /** The accumulation loop of `generate_kyber_keypair`, reducing after every product, ends
      with the once-reduced b = A s + e. */
  method PublicKey(a: seq<seq<Poly>>, s: seq<Poly>, e: seq<Poly>) returns (b: Poly)
    requires IsMatrix(a) && IsVector(s) && IsVector(e)
    ensures b == PublicKeyOf(a, s, e)
  {
    b := seq(N, _ => 0);
    assert b == Partial(a, s, 0);
    for i := 0 to K
      invariant b == Partial(a, s, K * i)
    {
      for j := 0 to K
        invariant b == Partial(a, s, K * i + j)
      {
        PartialStep(a, s, i, j);
        b := seq(N, c requires 0 <= c < N => (b[c] + a[i][j][c] * s[j][c]) % Q);
      }
    }
    NoiseStep(a, s, e);
    b := seq(N, c requires 0 <= c < N => (b[c] + e[0][c]) % Q);
  }

  /** The last step, `b = (b + e[0]) % q`, turns the reduced sum of all products into b. */
  lemma NoiseStep(a: seq<seq<Poly>>, s: seq<Poly>, e: seq<Poly>)
    requires IsMatrix(a) && IsVector(s) && IsVector(e)
    ensures var b := Partial(a, s, K * K);
      seq(N, c requires 0 <= c < N => (b[c] + e[0][c]) % Q) == PublicKeyOf(a, s, e)
  {
    forall c | 0 <= c < N
      ensures (ProductSum(a, s, c, K * K) % Q + e[0][c]) % Q == (ProductSum(a, s, c, K * K) + e[0][c]) % Q
    {
      Ring.ModOfSum(ProductSum(a, s, c, K * K), e[0][c], Q);
    }
  }

  /** `generate_kyber_keypair()` on the given draws. */
  method GenerateKyberKeypair(d: Draws) returns (b: Poly, s: seq<Poly>)
    requires WellDrawn(d)
    ensures (b, s) == KyberKeypair(d)
  {
    s := NoisyVector(d.sNoise);
    var e := NoisyVector(d.eNoise);
    b := PublicKey(d.a, s, e);
  }

  /** Every coefficient of the public key is in [0, q) and is A s + e modulo q. */
  lemma PublicKeyReduced(d: Draws, c: nat)
    requires WellDrawn(d) && c < N
    ensures var s := NoisyVector(d.sNoise);
      var b := KyberKeypair(d).0;
      0 <= b[c] < Q && (b[c] - ProductSum(d.a, s, c, K * K) - NoisyVector(d.eNoise)[0][c]) % Q == 0
  {
    var s := NoisyVector(d.sNoise);
    var x := ProductSum(d.a, s, c, K * K) + NoisyVector(d.eNoise)[0][c];
    assert x == Q * (x / Q) + x % Q;
  }

  // ---------------------------------------------------------------- bit packing

  /** `int(''.join(bits), 2)` for bits written as '0' and '1': first bit most significant. */
  function BitsValue(bits: seq<bool>): (v: nat)
    ensures v < Pow2(|bits|)
  {
    if bits == [] then 0 else 2 * BitsValue(bits[..|bits| - 1]) + (if bits[|bits| - 1] then 1 else 0)
  }

  /** The w low bits of v, most significant first. */
  function BitsOf(v: nat, w: nat): (bits: seq<bool>)
    ensures |bits| == w
  {
    if w == 0 then [] else BitsOf(v / 2, w - 1) + [v % 2 == 1]
  }

  lemma {:induction false} Pow2Byte(w: nat)
    requires w <= 8
    ensures Pow2(w) <= 256
    decreases 8 - w
  {
    if w < 8 {
      Pow2Byte(w + 1);
    }
  }

  /** `bytes(int(''.join(bits[i:i+8]), 2) for i in range(0, len(bits), 8))`: one byte per
      group of eight bits; a shorter last group is the value of the bits it has. */
  function Pack(bits: seq<bool>): (bytes: seq<Byte>)
    ensures |bytes| == (|bits| + 7) / 8
    decreases |bits|
  {
    if bits == [] then []
    else
      var w := if |bits| < 8 then |bits| else 8;
      Pow2Byte(w);
      [BitsValue(bits[..w]) as Byte] + Pack(bits[w..])
  }

  /** The bits of bytes, eight per byte, most significant first. */
  function Unpack(bytes: seq<Byte>): (bits: seq<bool>)
    ensures |bits| == 8 * |bytes|
  {
    if bytes == [] then [] else BitsOf(bytes[0] as nat, 8) + Unpack(bytes[1..])
  }

  /** Reading the w bits of a value below 2^w gives the value. */
  lemma {:induction false} ValueOfBits(v: nat, w: nat)
    requires v < Pow2(w)
    ensures BitsValue(BitsOf(v, w)) == v
  {
    if w > 0 {
      var bits := BitsOf(v, w);
      assert bits[..w - 1] == BitsOf(v / 2, w - 1);
      ValueOfBits(v / 2, w - 1);
    }
  }

  /** Writing the value of some bits at their width gives the bits. */
  lemma {:induction false} BitsOfValue(bits: seq<bool>)
    ensures BitsOf(BitsValue(bits), |bits|) == bits
  {
    if bits != [] {
      var front := bits[..|bits| - 1];
      var v := BitsValue(bits);
      assert v / 2 == BitsValue(front);
      BitsOfValue(front);
      assert bits == front + [bits[|bits| - 1]];
    }
  }

  /** Byte k of the packed bits is the value of bits 8k up to 8k + 8, or up to the end. */
  lemma {:induction false} PackGroup(bits: seq<bool>, k: nat)
    requires k < |Pack(bits)|
    ensures Pack(bits)[k] as nat == BitsValue(bits[8 * k..if 8 * k + 8 <= |bits| then 8 * k + 8 else |bits|])
    decreases |bits|
  {
    if k > 0 {
      assert |bits| > 8 * k;
      PackHead(bits);
      var tail := bits[8..];
      assert Pack(bits)[k] == Pack(tail)[k - 1];
      PackGroup(tail, k - 1);
      var hi := if 8 * k + 8 <= |bits| then 8 * k + 8 else |bits|;
      SliceOfTail(bits, 8 * k, hi);
    }
  }

  lemma SliceOfTail(bits: seq<bool>, lo: nat, hi: nat)
    requires 8 <= lo <= hi <= |bits|
    ensures bits[8..][lo - 8..hi - 8] == bits[lo..hi]
  {
  }

  /** Eight bits or more: the first byte is the value of the first eight bits. */
  lemma PackHead(bits: seq<bool>)
    requires |bits| >= 8
    ensures Pack(bits) == [BitsValue(bits[..8]) as Byte] + Pack(bits[8..])
  {
  }

  lemma UnpackCons(b: Byte, rest: seq<Byte>)
    ensures Unpack([b] + rest) == BitsOf(b as nat, 8) + Unpack(rest)
  {
    assert ([b] + rest)[1..] == rest;
  }

  /** Unpacking whole bytes of packed bits gives the bits back. */
  lemma {:induction false} UnpackPack(bits: seq<bool>)
    requires |bits| % 8 == 0
    ensures Unpack(Pack(bits)) == bits
    decreases |bits|
  {
    if bits != [] {
      var head, tail := bits[..8], bits[8..];
      assert |tail| % 8 == 0;
      PackHead(bits);
      UnpackCons(BitsValue(head) as Byte, Pack(tail));
      BitsOfValue(head);
      UnpackPack(tail);
      assert bits == head + tail;
    }
  }

  /** Packing the bits of bytes gives the bytes back. */
  lemma {:induction false} PackUnpack(bytes: seq<Byte>)
    ensures Pack(Unpack(bytes)) == bytes
  {
    if bytes != [] {
      var bits := Unpack(bytes);
      var head, tail := BitsOf(bytes[0] as nat, 8), Unpack(bytes[1..]);
      assert bits == head + tail;
      assert bits[..8] == head && bits[8..] == tail;
      PackHead(bits);
      assert Pow2(8) == 256;
      ValueOfBits(bytes[0] as nat, 8);
      PackUnpack(bytes[1..]);
      assert bytes == [bytes[0]] + bytes[1..];
    }
  }

  // ---------------------------------------------------------------- hybrid key

  /** `hash_input`: the UTF-8 seed followed by the nonce. */
  function HashInput(seed: string, nonce: seq<Byte>): (input: seq<Byte>)
    ensures |input| >= |nonce| && input[|input| - |nonce|..] == nonce
  {
    Utf8.Encode(seed) + nonce
  }

  /** `int.from_bytes(hash_input, 'big') % 2**32`. */
  function NumpySeed(input: seq<Byte>): (seed: nat)
    ensures seed < 0x1_0000_0000
  {
    BigEndian(input) % 0x1_0000_0000
  }

  /** Key bit i: `int(logistic_seq[i] > 0.5) ^ int(lorenz_seq[i] > 0.5) ^ kyber_bits[i]`,
      with `kyber_bits[i]` the parity of coefficient i of the public key. */
  function KeyBit(crypto: Crypto, input: seq<Byte>, b: Poly, i: nat): bool
    requires i < |b|
  {
    (crypto.logistic(input, i) != crypto.lorenz(input, i)) != (b[i] % 2 == 1)
  }

  /** The first `length` combined bits. */
  function KeyBits(crypto: Crypto, input: seq<Byte>, b: Poly, length: nat): (bits: seq<bool>)
    requires length <= |b|
    ensures |bits| == length
  {
    seq(length, i requires 0 <= i < length => KeyBit(crypto, input, b, i))
  }

  /** The error `generate_hybrid_key` raises past the n parity bits. */
  datatype KeyError = IndexError

  /** `generate_hybrid_key(length, nonce)`, the nonce already chosen: (key, nonce), or the
      IndexError that `kyber_bits[n]` raises when more than n bits are asked for. */
  function HybridKey(crypto: Crypto, length: nat, nonce: seq<Byte>): (r: Result<(seq<Byte>, seq<Byte>), KeyError>)
    ensures r.Failure? <==> length > N
    ensures r.Success? ==> r.value.1 == nonce && |r.value.0| == (length + 7) / 8
  {
    if length > N then Failure(IndexError)
    else
      var input := HashInput(crypto.seed, nonce);
      var b := KyberKeypair(crypto.sampler(NumpySeed(input))).0;
      Success((Pack(KeyBits(crypto, input, b, length)), nonce))
  }

  /** `generate_hybrid_key(length, nonce)`: `random` stands for `secrets.token_bytes(16)`,
      taken when no nonce is given. */
  method GenerateHybridKey(crypto: Crypto, length: nat, nonce: Option<seq<Byte>>, random: seq<Byte>)
    returns (r: Result<(seq<Byte>, seq<Byte>), KeyError>)
    ensures r == HybridKey(crypto, length, nonce.GetOr(random))
  {
    var chosen := nonce.GetOr(random);
    var input := HashInput(crypto.seed, chosen);
    var b, _ := GenerateKyberKeypair(crypto.sampler(NumpySeed(input)));
    if length > N {
      return Failure(IndexError);
    }
    var bits: seq<bool> := [];
    for i := 0 to length
      invariant bits == KeyBits(crypto, input, b, i)
    {
      bits := bits + [KeyBit(crypto, input, b, i)];
    }
    r := Success((Pack(bits), chosen));
  }

  /** For a whole number of bytes, bit i of the key is the logistic bit XOR the Lorenz bit XOR
      the parity of coefficient i of the public key drawn from the seed of the hash input. */
  lemma KeyBitsXor(crypto: Crypto, length: nat, nonce: seq<Byte>, i: nat)
    requires length <= N && length % 8 == 0 && i < length
    ensures var input := HashInput(crypto.seed, nonce);
      var b := KyberKeypair(crypto.sampler(NumpySeed(input))).0;
      Unpack(HybridKey(crypto, length, nonce).value.0)[i]
        == ((crypto.logistic(input, i) != crypto.lorenz(input, i)) != (b[i] % 2 == 1))
  {
    var input := HashInput(crypto.seed, nonce);
    var b := KyberKeypair(crypto.sampler(NumpySeed(input))).0;
    UnpackPack(KeyBits(crypto, input, b, length));
  }

  /** The value of bytes followed by more bytes. */
  lemma {:induction false} BigEndianAppend(x: seq<Byte>, y: seq<Byte>)
    ensures BigEndian(x + y) == BigEndian(x) * Pow256(|y|) + BigEndian(y)
    decreases |y|
  {
    if y == [] {
      assert x + y == x;
    } else {
      var front := y[..|y| - 1];
      var last := y[|y| - 1];
      assert x + y == (x + front) + [last];
      assert y == front + [last];
      BigEndianSnoc(x + front, last);
      BigEndianSnoc(front, last);
      BigEndianAppend(x, front);
      var bx, bf, p := BigEndian(x), BigEndian(front), Pow256(|front|);
      calc {
        BigEndian(x + y);
        256 * BigEndian(x + front) + last as nat;
        256 * (bx * p + bf) + last as nat;
        { MulShift(bx, p); }
        bx * (256 * p) + (256 * bf + last as nat);
        bx * Pow256(|y|) + BigEndian(y);
      }
    }
  }

  lemma MulShift(a: nat, p: nat)
    ensures 256 * (a * p) == a * (256 * p)
  {
  }

  lemma BigEndianSnoc(b: seq<Byte>, last: Byte)
    ensures BigEndian(b + [last]) == 256 * BigEndian(b) + last as nat
  {
    assert (b + [last])[..|b|] == b;
  }

  /** numpy's seed keeps only the last four bytes of the hash input: with a nonce of four
      bytes or more, it is the big-endian value of the nonce's last four bytes, whatever the
      seed string. */
  lemma SeedFromNonce(seed: string, nonce: seq<Byte>)
    requires |nonce| >= 4
    ensures NumpySeed(HashInput(seed, nonce)) == BigEndian(nonce[|nonce| - 4..])
  {
    var input := HashInput(seed, nonce);
    LastFour(input, nonce);
    LowWord(input[..|input| - 4], nonce[|nonce| - 4..]);
  }

  /** The value of some bytes followed by four more, modulo 2^32, is that of the four. */
  lemma LowWord(head: seq<Byte>, tail: seq<Byte>)
    requires |tail| == 4
    ensures BigEndian(head + tail) % 0x1_0000_0000 == BigEndian(tail)
  {
    BigEndianAppend(head, tail);
    assert Pow256(4) == 0x1_0000_0000;
    Ring.ModUnique(BigEndian(head + tail), 0x1_0000_0000, BigEndian(head), BigEndian(tail));
  }

  /** Bytes that end with a nonce of four bytes or more end with its last four. */
  lemma LastFour(input: seq<Byte>, nonce: seq<Byte>)
    requires |nonce| >= 4 && |input| >= |nonce| && input[|input| - |nonce|..] == nonce
    ensures input == input[..|input| - 4] + nonce[|nonce| - 4..]
  {
    assert input[|input| - 4..] == nonce[|nonce| - 4..];
  }

  // ---------------------------------------------------------------- encrypt and decrypt

  /** `encrypt(plaintext)`: the plaintext XORed with a key of 8 |plaintext| bits under a fresh
      nonce (`random`), and that nonce. */
  function Encrypt(crypto: Crypto, plaintext: seq<Byte>, random: seq<Byte>): (r: Result<(seq<Byte>, seq<Byte>), KeyError>)
    ensures r.Failure? <==> |plaintext| > 32
    ensures r.Success? ==> |r.value.0| == |plaintext| && r.value.1 == random
  {
    match HybridKey(crypto, |plaintext| * 8, random)
    case Failure(err) => Failure(err)
    case Success((key, nonce)) => Success((Xor(plaintext, key), nonce))
  }

  /** `decrypt(ciphertext, nonce)`: the ciphertext XORed with the key for that nonce. */
  function Decrypt(crypto: Crypto, ciphertext: seq<Byte>, nonce: seq<Byte>): (r: Result<seq<Byte>, KeyError>)
    ensures r.Failure? <==> |ciphertext| > 32
    ensures r.Success? ==> |r.value| == |ciphertext|
  {
    match HybridKey(crypto, |ciphertext| * 8, nonce)
    case Failure(err) => Failure(err)
    case Success((key, _)) => Success(Xor(ciphertext, key))
  }

  /** Decrypting with the nonce `encrypt` returned gives the plaintext back. */
  lemma DecryptEncrypt(crypto: Crypto, plaintext: seq<Byte>, random: seq<Byte>)
    requires |plaintext| <= 32
    ensures var r := Encrypt(crypto, plaintext, random);
      r.Success? && Decrypt(crypto, r.value.0, r.value.1) == Success(plaintext)
  {
    var key := HybridKey(crypto, |plaintext| * 8, random).value.0;
    var ciphertext := Xor(plaintext, key);
    assert Encrypt(crypto, plaintext, random) == Success((ciphertext, random));
    assert |ciphertext| == |plaintext|;
    XorTwice(plaintext, key);
  }
}
