# lostInEffect — a Dafny model of its cryptographic core

This project models the cryptographic and transport core of lostInEffect in Dafny. That core is:

- the toy Dilithium signature package: parameter sets, the polynomial ring `R_q = Z_q[X]/(X^n + 1)`, key generation, signing with rejection sampling, and verification;
- the Lorenz stream cipher and the hybrid "encrypt, then sign the ciphertext" scheme built on it;
- the hash-chained audit log;
- the JSON/base64 network protocol with its 4-byte length framing and `OK` acknowledgement;
- the receiver that collects fingerprint templates sent as hexadecimal text over a serial line;
- the toy lattice/chaos cipher `QuantumChaoticCrypto` of `kyber-crypt.py`.

Each source file has one module:

| module | source file |
|---|---|
| `Params`, `Ring` | `dilithium/core.py` |
| `KeyGen` | `dilithium/keygen.py` |
| `Sign` | `dilithium/sign.py` |
| `Verify` | `dilithium/verify.py` |
| `Chaos` | `dilithium/chaos.py` |
| `Audit` | `dilithium/security/audit.py` |
| `Protocol` | `dilithium/network/protocol.py` |
| `Fingerprint` | `fingerprintencryptor/fingerprint_encryptor.py` |
| `KyberCrypt` | `kyber-crypt.py` |

The shared modules hold the encodings those files rely on:

- `Bytes`: bytes, XOR, int32 little-endian and big-endian integers;
- `Base64`: RFC 4648, section 4;
- `Hex`: `hexlify`, `unhexlify` and the `{:0NX}` format;
- `Utf8`: RFC 3629, section 4;
- `Json`: a JSON value with key lookup;
- `Outcomes`: `Option` and `Result`;
- `Hashing`: SHAKE-256, SHA3-256 and SHA-256 as length-preserving function values.

The model takes the form of the code it describes:

- Array loops stay loops over arrays, proved against a specification function:
  - the negacyclic matrix;
  - both polynomial multiplications;
  - the matrix sampler;
  - the row accumulations of `t = A s1 + s2`, `w = A y` and `A z - c t`;
  - the challenge scatter;
  - the keystream;
  - the byte histogram;
  - the hex dump.
- Objects whose fields change are classes with `modifies` frames:
  - `AuditEvent`, whose `hash` is filled in;
  - `SecureAuditLog`, which keeps `previous_hash`;
  - a socket `Connection`;
  - `FingerprintReceiver`, with its serial port, `running` flag and saved files.
- Pure transformations are functions:
  - packing and unpacking;
  - base64 and hex;
  - tags;
  - the challenge;
  - decomposition.

Hashes, the chaotic trajectories and every random draw are parameters or inputs:

- `shake_256` is a function value, as are `sha3_256` and the SHA-256-seeded maps.
- The Lorenz orbit is a function value.
- numpy's generator is a sampler from its seed to the draws.
- The values from `secrets` and `os.urandom` are inputs.
- The mask draws of `sign` are inputs.

The model follows the code wherever the code departs from the scheme it is meant to implement:

- The mask y is drawn from `[-gamma1, gamma1]`, not `[-(gamma1 - beta), gamma1 - beta]`.
- The high bits are `floor((w + gamma2) / (2 gamma2))` of the reduced w, not of a centered value.
- The challenge writes tau positions that may repeat, so it has at most tau non-zero entries, not exactly tau.
- z is reduced mod q and not re-centered.
- Both bound checks are `|x| < gamma1 - beta`.
- The residual check applies `_check_bounds` to `w - c * t` taken coefficient-wise, not to its high bits.
- The verifier derives its reference challenge from mu and the high bits of the public t (`dilithium/verify.py:25`), not from the signer's commitment. An honest signature is therefore accepted only when the two challenges happen to coincide. The hybrid `encrypt_and_sign` fails unless its own verification passes, and `Chaos.EncryptAndSignSignsCiphertext` states exactly that.
- `dilithium/sign.py:56` and `dilithium/verify.py:24-25,36` call `_sample_matrix` or `_decompose` on objects that do not define them. The model uses the key generator's sampler and the signer's decomposition, which are evidently what was meant.
- The audit log keeps only `previous_hash`. It has no event buffer, no `get_logs` and no `verify_chain`; the ghost fields `records` and `hashes` exist only to state what that hash is.
- The numpy seed of `generate_hybrid_key` keeps only the low 32 bits of the big-endian hash input. Since that input ends with the nonce, for a nonce of at least four bytes (the generated nonce has 16) the whole lattice part of the key depends only on its last four bytes (`KyberCrypt.SeedFromNonce`). A shorter nonce given to `decrypt` leaves trailing bytes of the UTF-8 seed string in those 32 bits.

## Model

| member | source | states |
|---|---|---|
| Params.Make | dilithium/core.py:8-18 | The degree n is 256 and beta is `gamma1 // 4` (4 beta <= gamma1 < 4 beta + 4). |
| Params.GetParams | dilithium/core.py:20-30 | Succeeds exactly for levels 2, 3 and 5. Otherwise a ValueError. On success the set is valid, with q = 8380417, n = 256, d = 13, gamma1 = gamma2 = 2^17 and the rejection bound gamma1 - beta = 98304. |
| Params.LevelTable | dilithium/core.py:23-28 | The (k, l, eta, tau) of each level: (4,4,2,39), (6,5,4,49) and (8,7,2,60). |
| Ring.Add | dilithium/core.py:51-53 | The sum has the operands' length and every coefficient is reduced into [0, q). |
| Ring.Subtract | dilithium/core.py:55-57 | The difference has the operands' length and every coefficient is reduced into [0, q). |
| Ring.SubtractAfterAdd | dilithium/core.py:51-57 | `subtract(add(a, b), b)` is a reduced mod q: subtraction undoes addition. |
| Ring.NegacyclicMatrix | dilithium/core.py:66-72 | Row i of the n x n array is b rolled by i, with the first i entries negated. |
| Ring.Multiply | dilithium/core.py:59-75 | `(a @ b_matrix) % q`, computed by loops over the array, equals the negacyclic product: column j sums a[i] times b[j - i], with the sign flipped where i > j, reduced mod q. |
| Ring.MultiplyByOne | dilithium/core.py:59-75 | 1 is the unit of the product: `multiply(1, b)` is b reduced mod q. |
| Ring.MultiplyByX | dilithium/core.py:59-75 | Multiplying by X shifts b up one place and brings the top coefficient round negated, as X^n = -1 requires. |
| Ring.MultiplyFitsInt64 | dilithium/core.py:61-74 | For n <= 256, q <= 8380417 and operands in (-q, q), every partial dot product fits in a signed 64-bit integer, so the int64 arithmetic never wraps. |
| Ring.ChallengeProductFitsInt64 | dilithium/core.py:61-74 | For the verifier's `multiply(c, t[i])`, with c in {-1, 0, 1} and t any int32 array, every partial dot product stays within 2^39, so the int64 arithmetic never wraps there either. |
| Ring.ResponseProductFitsInt64 | dilithium/core.py:61-74 | For the verifier's `multiply(A[i][j], z[j])`, with A in [0, q) and z any int32 array (-2^31 included), every partial dot product stays below 2^62, so the int64 arithmetic never wraps. |
| Ring.HalfSignedMultiply | dilithium/core.py:32-42 | The double loop of `DilithiumParams.multiply` computes its specification: each product a[i] b[j] is added at (i + j) mod n, negated when j >= n/2, with a reduction after each step. |
| Ring.HalfSignedDisagrees | dilithium/core.py:32-42 | For every n >= 2 and q >= 3, `DilithiumParams.multiply(1, X^(n-1))` has top coefficient q - 1, while the ring product has 1. |
| KeyGen.CellPoly | dilithium/keygen.py:24-28 | The n coefficients read from 4-byte chunks of the XOF output lie in [0, q). |
| KeyGen.SampleMatrix | dilithium/keygen.py:12-31 | The k x l array cell (i, j) is the polynomial of the i*l+j-th XOF state. Each state is the first 32 bytes of the previous one's stream, starting from the seed, so the matrix is a pure function of the seed. |
| KeyGen.SmallPoly | dilithium/keygen.py:33-38 | Every coefficient lies in [-eta, eta]. |
| KeyGen.SecretSeedsDistinct | dilithium/keygen.py:49-52 | The seeds for s1[0..l) and s2[0..k) (seed + one index byte) differ for distinct indices, and only for them. |
| KeyGen.Secret1 | dilithium/keygen.py:49-50 | s1 is l polynomials of n coefficients, all in [-eta, eta]. |
| KeyGen.Secret2 | dilithium/keygen.py:51-52 | s2 is k polynomials of n coefficients, all in [-eta, eta]. |
| KeyGen.RowSumFormula | dilithium/keygen.py:56-59 | Coefficient x of the accumulated row sum is the negacyclic dot product of the row with v at x, reduced mod q. |
| KeyGen.AccumulateRow | dilithium/keygen.py:57-59 | The loop `w[i] = add(w[i], multiply(A[i][j], v[j]))` over a row of the array gives the row sum. |
| KeyGen.PublicTFormula | dilithium/keygen.py:54-60 | t[i][x] = (sum over j of (A[i][j] s1[j])[x] + s2[i][x]) mod q, for the sampled A, s1 and s2. |
| KeyGen.ComputeT | dilithium/keygen.py:55-60 | The loops over the sampled array give t = A s1 + s2. |
| KeyGen.GenerateKeypair | dilithium/keygen.py:40-75 | Both keys carry the 32-byte seed and the same t. s1 and s2 are the seed's secrets, t is `A s1 + s2`, and all have their k/l x n shapes and bounds. |
| Sign.HighBitsIsFloor | dilithium/sign.py:77-81 | `(w + gamma2) // (2 gamma2)` is the floor: 2 gamma2 r <= w + gamma2 < 2 gamma2 (r + 1). |
| Sign.DecomposeRange | dilithium/sign.py:77-81 | For w reduced mod q, every high-bits coefficient lies in [0, (q - 1 + gamma2) / (2 gamma2)]. |
| Sign.DecomposeRangeAtLevels | dilithium/sign.py:77-81 | At levels 2, 3 and 5 the high bits of a reduced w lie in [0, 32]. |
| Sign.WithinBoundIsBounded | dilithium/sign.py:83-85 | `_check_bounds` on an int32 array holds exactly when every coefficient lies in [1 - (gamma1 - beta), gamma1 - beta - 1] or is -2^31, whose `np.abs` stays negative. |
| Sign.WithinBoundAwayFromMin | dilithium/sign.py:83-85 | For arrays without a -2^31 entry, `_check_bounds` holds exactly when every coefficient lies in [1 - (gamma1 - beta), gamma1 - beta - 1]. |
| Sign.Int32MinPasses | dilithium/sign.py:83-85 | An array of -2^31 entries passes `_check_bounds`, however large the magnitude. |
| Sign.Absorb | dilithium/sign.py:15-19 | The SHAKE input is mu followed by the int32 little-endian bytes of each row of w1. |
| Sign.Positions | dilithium/sign.py:23-26 | tau positions, each the int32 read from 4 XOF bytes taken mod n, so each is in [0, n). |
| Sign.SignsFromPositionBytes | dilithium/sign.py:23-30 | `shake.digest(tau)` is a prefix of `shake.digest(tau * 4)`, so sign i is the low bit of byte i of the position bytes. |
| Sign.WriteChallenge | dilithium/sign.py:22-33 | The loop over positions writes the scatter: zeros, then +1 or -1 at each chosen position in order. |
| Sign.ScatterChosen | dilithium/sign.py:32-33 | A coefficient is non-zero exactly when some chosen position names it. |
| Sign.ScatterLastWrite | dilithium/sign.py:32-33 | A repeated position keeps the sign of its last write. |
| Sign.ScatterWeight | dilithium/sign.py:32-33 | The scatter has at most as many non-zero coefficients as writes. |
| Sign.Challenge | dilithium/sign.py:11-35 | `_challenge(mu, w1)` returns the challenge: n coefficients in {-1, 0, 1} drawn from SHAKE of mu and w1. |
| Sign.ChallengeWeight | dilithium/sign.py:11-35 | The challenge has at most tau non-zero coefficients. |
| Sign.Commit | dilithium/sign.py:54-61 | The loops give w = A y, with rows reduced mod q. |
| Sign.Respond | dilithium/sign.py:67-71 | The loop gives z[i] = (y[i] + c s1[i]) mod q. |
| Sign.SignMessage | dilithium/sign.py:37-75 | The rejection loop returns mu = SHAKE(message, 64) and the z of the first accepted mask, or Exhausted when no mask is accepted. |
| Sign.SignFails | dilithium/sign.py:46-75 | Signing fails if and only if the bound checks reject every mask. |
| Sign.SignSucceeds | dilithium/sign.py:44-75 | On success, the signature is (mu, z) of the first mask that passes both checks, and every earlier mask failed them. |
| Sign.SignatureRange | dilithium/sign.py:67-75 | A returned z has l x n coefficients in [0, gamma1 - beta). |
| Verify.VerifierWFormula | dilithium/verify.py:27-33 | w[i][x] = (sum over j of (A[i][j] z[j])[x] - (c t[i])[x]) mod q. |
| Verify.Residue | dilithium/verify.py:27-33 | The loops over the sampled array compute `A z - c t`, row by row. |
| Verify.VerifySignature | dilithium/verify.py:12-39 | The verdict is false when z fails the int32 bound check `np.abs(z) < gamma1 - beta`, which a -2^31 coefficient passes. Otherwise it is whether the challenge of the high bits of `A z - c t` equals c, the challenge of the high bits of t. |
| Verify.AcceptedSignature | dilithium/verify.py:20-21 | An accepted z has every coefficient within (-(gamma1 - beta), gamma1 - beta) or equal to -2^31, which the int32 `np.abs` lets through. |
| Verify.SignedResponsePassesNormCheck | dilithium/verify.py:17-21 | Every z that `sign` returns passes the verifier's norm check. |
| Chaos.GenerateKeystream | dilithium/chaos.py:52-65 | The loop returns the `length` orbit bytes after the first 1000 warm-up steps. |
| Chaos.KeystreamPrefix | dilithium/chaos.py:52-65 | The keystream depends only on seed + nonce, and a shorter keystream is a prefix of a longer one. |
| Chaos.Encrypt | dilithium/chaos.py:67-83 | The output keeps the nonce and is as long as the plaintext plus 32. Its last 32 bytes are the SHAKE-256 tag of the nonce, the XORed body and the seed. |
| Chaos.DecryptAuthenticates | dilithium/chaos.py:85-95 | Decryption succeeds exactly when the input holds at least 32 bytes and ends with the tag of the rest. Its output is then as long as that rest. Every failure is AuthenticationFailed, and a short input fails. |
| Chaos.EncryptDecrypt | dilithium/chaos.py:67-101 | Decrypting an encryption under the same seed and nonce returns the plaintext. |
| Chaos.GenerateKeys | dilithium/chaos.py:112-125 | Always succeeds, with the key generator's well-formed pair for the seed. |
| Chaos.EncryptAndSign | dilithium/chaos.py:127-156 | Returns exactly the specified outcome of encrypting, signing the ciphertext and checking the signature. |
| Chaos.EncryptAndSignSignsCiphertext | dilithium/chaos.py:138-149 | On success: the ciphertext and nonce are the cipher's, under the private seed; the signature is `sign` of the ciphertext, with mu = SHAKE(ciphertext, 64); the signature verifies under (seed, t). |
| Chaos.EncryptAndSignFailures | dilithium/chaos.py:155-156 | Every failure is an encryption RuntimeError whose cause is not authentication. |
| Chaos.VerifyAndDecrypt | dilithium/chaos.py:158-190 | Returns exactly the specified outcome of verifying, decrypting and decoding UTF-8. |
| Chaos.VerifyAndDecryptChecks | dilithium/chaos.py:167-185 | A signature that does not verify fails with "signature verification failed". Success means it verified, the cipher decrypted under the public seed and the plaintext is UTF-8. Every failure is a decryption RuntimeError. |
| Chaos.HybridRoundTrip | dilithium/chaos.py:127-190 | For a well-formed key pair, whatever `encrypt_and_sign` returns, `verify_and_decrypt` turns back into the message, or into a UTF-8 error when the message is not UTF-8. |
| Protocol.Pack | dilithium/network/protocol.py:17-40 | The packed message is valid UTF-8. |
| Protocol.Unpack | dilithium/network/protocol.py:42-66 | A successful unpack had UTF-8 input, and t is rows of int32 values. |
| Protocol.UnpackRequires | dilithium/network/protocol.py:42-66 | Success needs a JSON object whose `ciphertext`, `nonce`, `mu`, `z` and `public_key.seed` are base64 text, whose z decodes to a multiple of 4 bytes, and whose `public_key.t` is rows of int32 integers. |
| Protocol.DocumentWellFormed | dilithium/network/protocol.py:25-37 | The message document and its key are well-formed objects with distinct keys. |
| Protocol.DocumentFields | dilithium/network/protocol.py:31-52 | Each base64 field of the document decodes back to the bytes it was built from; z gives the int32 bytes of z. |
| Protocol.DocumentKey | dilithium/network/protocol.py:58-61 | The `public_key` entry yields the seed back from base64 and t back from its integer lists. |
| Protocol.RowsOfIntRows | dilithium/network/protocol.py:60 | `np.array(t, dtype=np.int32)` of `arr.tolist()` gives back the int32 rows. |
| Protocol.UnpackPack | dilithium/network/protocol.py:17-63 | With a parser that inverts the serializer, unpacking a packed message returns ciphertext, nonce, mu, z flattened as `frombuffer` gives it, seed and t. |
| Protocol.HeaderRoundTrip | dilithium/network/protocol.py:153 | `struct.unpack('>I')` inverts `struct.pack('>I')` on sizes below 2^32, and the reverse holds on 4-byte headers. |
| Protocol.Connection.Recv | dilithium/network/protocol.py:149-161 | `recv(max)` returns a prefix of the pending bytes of at most max bytes, and empty only at the end of the stream. |
| Protocol.Connection.SendAll | dilithium/network/protocol.py:85-88 | `sendall` appends the data to what the peer receives. |
| Protocol.ReceiveFrame | dilithium/network/protocol.py:149-165 | The frame and the unread rest split the bytes that arrived (`FrameOf`). Nothing arriving is Closed. A header cut short consumes one to three bytes. A complete frame is exactly the `size` bytes after the header, leaves the bytes after them unread, and is acknowledged with OK. A stream that ends early keeps everything after the header and sends no acknowledgement. |
| Protocol.FullFrame | dilithium/network/protocol.py:149-165 | When the bytes that arrived hold the whole frame the header announces, and the header was not cut short, the frame is Complete with exactly those `size` bytes and the rest is left unread. |
| Protocol.ServeConnection | dilithium/network/protocol.py:146-185 | The frame is the one `FrameOf` cuts from the bytes the peer sent, and the rest stays unread. OK goes out exactly for a complete frame. A message is delivered exactly when the frame is complete and unpacks. The audit chain gains one MESSAGE_RECEIVED event exactly then. |
| Protocol.Deliver | dilithium/network/protocol.py:168-183 | An unpackable frame is delivered and logged; one that does not unpack is neither. |
| Protocol.LogReceived | dilithium/network/protocol.py:174-183 | The chain gains the MESSAGE_RECEIVED event from "receiver" with the peer's address and stays valid. |
| Protocol.SendMessage | dilithium/network/protocol.py:77-107 | A size of 2^32 or more fails before anything is sent. Otherwise the header and message go out in that order. Success means the peer answered OK. The chain gains MESSAGE_SENT exactly on success. |
| Protocol.LogSent | dilithium/network/protocol.py:96-105 | The chain gains the MESSAGE_SENT event with host and port and stays valid. |
| Audit.AuditEvent.constructor | dilithium/security/audit.py:9-17 | The fields are as given, and the hash starts empty. |
| Audit.AuditEvent.Data | dilithium/security/audit.py:35-42 | `event_data` is a dict of six distinct keys, `timestamp`, `type`, `user`, `action`, `status` and `details`, each holding its field of the event, and it has no `hash` key. |
| Audit.EventDataKeys | dilithium/security/audit.py:35-42 | The dict has six distinct keys, each mapping to its field, and no `hash` key: the hash never covers itself. |
| Audit.Link | dilithium/security/audit.py:45-49 | A link is 64 characters long. |
| Audit.LinkIsHexDigest | dilithium/security/audit.py:45-49 | A link is lower-case hex that decodes to the SHA3-256 digest of the UTF-8 of the previous hash followed by the event's JSON text. |
| Audit.ChainSnoc | dilithium/security/audit.py:44-53 | Logging one more event appends one link, computed from the last hash. |
| Audit.ChainExtends | dilithium/security/audit.py:44-53 | The chain extended by the new link is the chain of the extended event list, and its latest hash is that link. |
| Audit.LinkedStep | dilithium/security/audit.py:44-53 | One `log_event` step keeps the log's invariant: after appending the new link, the hashes are still the chain of the events, and `previous_hash` is that link. |
| Audit.ChainPrefix | dilithium/security/audit.py:44-53 | The chain of the first m events is the first m hashes: later events never change earlier hashes. |
| Audit.ChainLinks | dilithium/security/audit.py:46-53 | Each stored hash links its predecessor, and the first links the empty string. |
| Audit.SecureAuditLog.constructor | dilithium/security/audit.py:20-23 | A new log has no previous hash and an empty chain. |
| Audit.SecureAuditLog.LogEvent | dilithium/security/audit.py:33-53 | The event's hash links the previous hash (or "") with its data, and `previous_hash` becomes that hash. The chain invariant is kept, and nothing else changes. |
| KyberCrypt.Noisy | kyber-crypt.py:64-67 | numpy's `%` maps noise v to v for v >= 0 and to q + v for v < 0; the result is reduced. |
| KyberCrypt.PartialStep | kyber-crypt.py:82-84 | Each step of the double loop adds `A[i][j] * s[j]` (coefficient-wise) to b mod q. |
| KyberCrypt.PublicKey | kyber-crypt.py:80-85 | The loops compute b = (sum of A[i][j] * s[j] + e[0]) mod q. |
| KyberCrypt.GenerateKyberKeypair | kyber-crypt.py:69-87 | Returns b and the noisy s built from the generator's draws. |
| KyberCrypt.PublicKeyReduced | kyber-crypt.py:80-87 | Every b[c] is in [0, q) and congruent to the product sum plus e[0][c]. |
| KyberCrypt.PackGroup | kyber-crypt.py:126-127 | Key byte k is `int(''.join(bits[8k:8k+8]), 2)`: the bits of its group read as a binary number, first bit most significant. A shorter last group is read as it is, without padding. |
| KyberCrypt.UnpackPack | kyber-crypt.py:126-127 | When the bit count is a multiple of 8, the key bytes hold exactly the key bits: reading each byte's eight bits back gives them. |
| KyberCrypt.PackUnpack | kyber-crypt.py:126-127 | Every byte string is the packing of its own bits, so the packing of whole groups is onto. |
| KyberCrypt.HashInput | kyber-crypt.py:95 | The hash input ends with the nonce. |
| KyberCrypt.SeedFromNonce | kyber-crypt.py:95-113 | The numpy seed is the big-endian value of the last four nonce bytes. |
| KyberCrypt.HybridKey | kyber-crypt.py:89-128 | A key longer than n bits is an IndexError, from indexing past `kyber_bits`. Otherwise the key has (length + 7) / 8 bytes and comes with its nonce. |
| KyberCrypt.GenerateHybridKey | kyber-crypt.py:89-128 | The method computes the hybrid key for the given nonce, or for the random one when none is given. |
| KyberCrypt.KeyBitsXor | kyber-crypt.py:118-127 | Key bit i is the logistic bit XOR the Lorenz bit XOR the parity of b[i]. |
| KyberCrypt.Encrypt | kyber-crypt.py:130-134 | Fails exactly for plaintexts over 32 bytes. Otherwise the ciphertext is as long as the plaintext and comes with its nonce. |
| KyberCrypt.Decrypt | kyber-crypt.py:136-139 | Fails exactly for ciphertexts over 32 bytes. Otherwise the plaintext is as long as the ciphertext. |
| KyberCrypt.DecryptEncrypt | kyber-crypt.py:130-139 | Decryption with the returned nonce recovers every plaintext of at most 32 bytes. |
| Fingerprint.DecodeByte | fingerprintencryptor/fingerprint_encryptor.py:118 | `decode('utf-8', errors='ignore')` of one byte keeps it exactly when it is ASCII. |
| Fingerprint.AssembleSnoc | fingerprintencryptor/fingerprint_encryptor.py:118-122 | Each byte read appends its character to the line, except a carriage return. |
| Fingerprint.AssembleChars | fingerprintencryptor/fingerprint_encryptor.py:118-122 | An assembled line holds only ASCII, never CR, and never LF before the first LF byte. |
| Fingerprint.NextLineAt | fingerprintencryptor/fingerprint_encryptor.py:110-127 | The line ends at the first LF, which is consumed, and is the stripped text before it. |
| Fingerprint.LineShape | fingerprintencryptor/fingerprint_encryptor.py:110-127 | A returned line is stripped, ASCII, and holds no CR or LF. |
| Fingerprint.StripIdempotent | fingerprintencryptor/fingerprint_encryptor.py:120 | Stripping twice is stripping once. |
| Fingerprint.StripSlice | fingerprintencryptor/fingerprint_encryptor.py:120 | `strip()` is a contiguous slice with only whitespace removed on either side. |
| Fingerprint.CleanChar | fingerprintencryptor/fingerprint_encryptor.py:219 | A character survives cleaning exactly when it is a hex digit of either case, and it comes out upper-case. |
| Fingerprint.CleanIdempotent | fingerprintencryptor/fingerprint_encryptor.py:219 | Cleaning a cleaned line changes nothing. |
| Fingerprint.CleanDigits | fingerprintencryptor/fingerprint_encryptor.py:219 | A line of upper-case digits is left as it is. |
| Fingerprint.UntilEndMarker | fingerprintencryptor/fingerprint_encryptor.py:214-216 | The gathered lines contain no end marker, and gathering stops exactly at the first one. |
| Fingerprint.GatherStep | fingerprintencryptor/fingerprint_encryptor.py:200-225 | A line that is not an end marker contributes its cleaned digits and reading continues. |
| Fingerprint.GatherStop | fingerprintencryptor/fingerprint_encryptor.py:200-225 | Silence or an end marker ends gathering with nothing more, and reading resumes right after that line. |
| Fingerprint.TemplateShape | fingerprintencryptor/fingerprint_encryptor.py:232-244 | A template comes back exactly when at least 100 digits of even count arrive. It then has half as many bytes, at least 50, and re-encodes to the digits. |
| Fingerprint.SuffixValue | fingerprintencryptor/fingerprint_encryptor.py:285 | The `_{:03d}` suffix reads back as the template number. |
| Fingerprint.DumpLineShows | fingerprintencryptor/fingerprint_encryptor.py:148-154 | Line r of the hex dump is the 4-digit offset 32r, ": " and the spaced upper-case digits of bytes 32r..32r+32. The offset and the digits read back as the position and the bytes. |
| Fingerprint.HexDump | fingerprintencryptor/fingerprint_encryptor.py:147-154 | The loop over 64-digit pieces produces the dump lines. |
| Fingerprint.ByteCounts | fingerprintencryptor/fingerprint_encryptor.py:175-177 | The loop builds the bytes in order of first occurrence and the count of each byte. |
| Fingerprint.FirstOccurrencesOrder | fingerprintencryptor/fingerprint_encryptor.py:175-177 | The keys are distinct, are the bytes of the data, and come in order of first occurrence. |
| Fingerprint.CountsAddUp | fingerprintencryptor/fingerprint_encryptor.py:175-180 | The counts sum to the data length. |
| Fingerprint.MostCommonExists | fingerprintencryptor/fingerprint_encryptor.py:181 | There is a most common byte exactly when the data is not empty. |
| Fingerprint.MostCommonByte | fingerprintencryptor/fingerprint_encryptor.py:181 | `max(byte_counts, key=byte_counts.get)` gives a byte of the data with the highest count. Among tied bytes it gives the one that occurs first. |
| Fingerprint.ZerosAndNonZeros | fingerprintencryptor/fingerprint_encryptor.py:182-183 | Zero and non-zero bytes add up to the size. |
| Fingerprint.Statistics | fingerprintencryptor/fingerprint_encryptor.py:170-183 | The loops produce the analysis written to the info file. |
| Fingerprint.SessionSaves | fingerprintencryptor/fingerprint_encryptor.py:246-319 | Every saved template has at least 50 bytes and the plain `_nnn` name, so the `_tiny` branch (lines 296-301) is never taken. |
| Fingerprint.SessionSilent | fingerprintencryptor/fingerprint_encryptor.py:262-269 | A silent port saves nothing more. |
| Fingerprint.SessionStart | fingerprintencryptor/fingerprint_encryptor.py:274-306 | HEX_START counts one more template, receives it, saves it and goes on after its end marker. |
| Fingerprint.SessionSkip | fingerprintencryptor/fingerprint_encryptor.py:260-311 | Any other line is passed over. |
| Fingerprint.FingerprintReceiver.constructor | fingerprintencryptor/fingerprint_encryptor.py:17-21 | No port, not running, nothing saved. |
| Fingerprint.FingerprintReceiver.Connect | fingerprintencryptor/fingerprint_encryptor.py:54-98 | After a successful connect the port is open and holds exactly what the board sends from then on. |
| Fingerprint.FingerprintReceiver.ReadLine | fingerprintencryptor/fingerprint_encryptor.py:110-127 | The byte loop returns the next line and consumes through its LF, or returns None and consumes everything when no LF comes. |
| Fingerprint.FingerprintReceiver.ReceiveHexTemplate | fingerprintencryptor/fingerprint_encryptor.py:191-244 | The loop returns the template of the gathered digits and leaves the port just after the end marker. |
| Fingerprint.FingerprintReceiver.SaveTemplate | fingerprintencryptor/fingerprint_encryptor.py:129-189 | Appends the files for the data under the identifier. |
| Fingerprint.FingerprintReceiver.ListenForTemplates | fingerprintencryptor/fingerprint_encryptor.py:246-319 | Without a port nothing changes. Otherwise the saved files grow by exactly the session's templates, the input is consumed and `running` ends false. |
| Fingerprint.FingerprintReceiver.ListenStep | fingerprintencryptor/fingerprint_encryptor.py:260-311 | One pass keeps "saved + what the rest of the input saves" constant, and makes progress or ends on silence. |
| Fingerprint.FingerprintReceiver.HandleTemplate | fingerprintencryptor/fingerprint_encryptor.py:274-306 | Saves what the announced template yields: nothing, `_nnn` or `_nnn_tiny`. The port is left after the end marker. |
| Base64.DecodeEncode | dilithium/network/protocol.py:49-52 | `b64decode(b64encode(x))` is x. |
| Hex.DecodeEncode | fingerprintencryptor/fingerprint_encryptor.py:148 | `unhexlify(hexlify(x))` is x, in either case. |
| Hex.EncodeDecode | fingerprintencryptor/fingerprint_encryptor.py:238 | Upper-case digits of even length decode to bytes whose upper-case hexlify is those digits. |
| Hex.FormatValue | fingerprintencryptor/fingerprint_encryptor.py:154 | `{:04X}` of an offset reads back as the offset. |
| Hex.FormatWidth | fingerprintencryptor/fingerprint_encryptor.py:154 | Offsets below 16^4 take exactly four digits. |
| Utf8.DecodeEncode | dilithium/network/protocol.py:40-46 | `.decode()` of `.encode()` is the string. |
| Utf8.EncodeValid | dilithium/security/audit.py:49 | Every encoded string is well-formed UTF-8. |
| Bytes.XorTwice | dilithium/chaos.py:98-101 | XOR with a pad of equal length, applied twice, is the identity. |
| Bytes.Int32sRoundTrip | dilithium/network/protocol.py:55 | `frombuffer(tobytes(xs), int32)` is xs for int32 values. |
| Bytes.BigEndianRoundTrip | dilithium/network/protocol.py:85 | Big-endian bytes of v read back as v when v fits. |
| Json.LookupDistinct | dilithium/network/protocol.py:49-52 | In an object with distinct keys, looking a member's key up finds that member's value. |

## Left out

- Floating point: the Lorenz and logistic trajectories, their initial conditions and numpy's binomial and randint draws are not computed. They are function values (`Orbit`, `BitSource`, `Sampler`), and the kyber-crypt public key holds the draws' exact integer values.
- Hash internals: SHAKE-256, SHA3-256 and SHA-256 appear as function values that only promise their output length.
- Randomness and clocks: seeds, nonces, `np.random` masks and timestamps are inputs.
- Sign.SignMessage: the source's `while True` keeps drawing masks forever. The model takes a finite sequence of draws and reports `Exhausted` when none is accepted.
- JSON text syntax: `json.dumps` and `json.loads` are a serializer and a parser. `UnpackPack` assumes the parser inverts the serializer.
- Base64.Decode: `b64decode` is modelled strictly, on canonical padded text. Text with missing padding is rejected, as `b64decode` rejects it. The model does not capture the two leniencies of the non-validating `b64decode`: characters outside the alphabet are discarded, and anything after a complete padding group is ignored.
- Sockets, threads, accept loops and `stop()`: a connection is a `Connection` holding each direction's bytes. `_listen` is modelled one connection at a time (`ServeConnection`).
- Protocol.ServeConnection: assumes a callback is registered and returns normally. The callback's own behaviour, and the path where it raises (reported, not logged), are not modelled.
- Protocol.Connection.Recv: the contract allows any non-empty prefix up to `max`, as a stream socket does, and the body returns the longest. The `OK` acknowledgement split across segments is covered only in that `SendMessage` then fails.
- The file handler and logging setup of `SecureAuditLog`, every `print`, and the GUIs are left out.
- Audit.AuditEvent: the fields other than `hash` are `const`, because no code assigns them after construction.
- Fingerprint: serial-port discovery, connect failures, file-writing failures, the timestamp in file names and the wording of the info text are not modelled. `save_template` records the data, hex dump and analysis of each saved template.
- Fingerprint.FingerprintReceiver.ReadLine: a timeout is modelled as the end of the input, so a silent port stands for every timeout. That covers the 2-second reads of `receive_hex_template`, which stop gathering after 10 seconds without data, and the 3-second reads of `listen_for_templates`, which wait again rather than stop.
- Fingerprint.FingerprintReceiver.ReceiveHexTemplate: the 45-second overall limit of `receive_hex_template` is not modelled. In the source that limit can end gathering while lines are still arriving, before the end marker. The digits gathered so far are then judged as a template, and the unread rest of the transmission, HEX_END included, goes back to `listen_for_templates`. In the model gathering always runs to the end marker or to silence.
- Fingerprint.FingerprintReceiver.ListenForTemplates: ends when the input is exhausted. The model does not capture the KeyboardInterrupt that ends the source's loop.
- Fingerprint.UpperChar: upper-cases ASCII letters only. Python's `upper()` also maps other letters, but none of them can survive the hex filter.
- Fingerprint.Statistics: `max` of an empty histogram raises ValueError in the source, which then leaves the info file unfinished. The model returns no most common byte instead; this cannot happen, because a saved template has at least 50 bytes.
- Bytes.Int32sRoundTrip: numpy coercions (int32 wrap-around of out-of-range values and dtype promotion) are not modelled. Rows are required to hold int32 values.
- Protocol.Unpack: `np.array(t, dtype=np.int32)` is modelled as accepting only a list of lists of integers within int32. The coercions numpy also performs are not modelled and make the model fail where the source succeeds: a bare number as a row, JSON floats (truncated), booleans, numeric strings, and out-of-range integers that wrap under numpy before 2.0. `Protocol.UnpackRequires` states the model's success condition, which is stronger than the source's for those inputs.
- Verify.VerifySignature (and with it Chaos.VerifyAndDecrypt and Chaos.VerifyAndDecryptOf): only a z of l rows of n coefficients and a t of k rows of n coefficients are modelled. A message received over the network is not: `unpack_message` returns a flat z from `np.frombuffer` and builds t as a Python list of arrays. `verify` then takes the high bits of that t, `(t + gamma2) // (2 * gamma2)`, and adding an int to a list raises TypeError before any product is computed (`self._decompose` is not even a Verifier attribute, so as written an AttributeError comes first). In the source every network-received message therefore fails in `verify_and_decrypt`. The model's t is already rows of integers, so there verification proceeds where the source raises.

## Findings

| source | as written | input that shows it | evidently intended | confidence | as-written member | corrected member |
|---|---|---|---|---|---|---|
| dilithium/core.py:38-41 | `DilithiumParams.multiply` negates a[i] b[j] when j >= n/2 | a = 1, b = X^(n-1): coefficient n-1 comes out as q - 1 | negate exactly the terms that wrap past X^n, i.e. when i + j >= n, giving 1 | not executed | Ring.HalfSignedMultiply, Ring.HalfSignedDisagrees | Ring.Multiply, Ring.MultiplyByX |
