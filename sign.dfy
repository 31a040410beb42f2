/** Signing of dilithium/sign.py (class Signer): the high-bits decomposition, the norm check,
    the challenge polynomial and the rejection loop of `sign`.

    The `while True` loop draws a fresh mask y from `np.random` on every attempt; here the
    draws are an input sequence `masks`, one per attempt, and running out of draws is the
    outcome `Exhausted` (the source would keep drawing). `self._sample_matrix`
    (dilithium/sign.py:56) is not a Signer method; the model uses the key generator's
    sampler, which is evidently what was meant. */
module Sign {
  import opened Bytes
  import opened Outcomes
  import opened Params
  import opened Ring
  import opened Hashing
  import opened KeyGen

  datatype Signature = Signature(mu: seq<Byte>, z: seq<Poly>)
  datatype SignError = Exhausted

  // ---------------------------------------------------------------- decompose

  /** One coefficient of `_decompose`: `(w + gamma2) // (2 * gamma2)` in int32 arithmetic. */
  function HighBits(p: ParamSet, v: int): (r: int)
    requires Valid(p)
    ensures InInt32(r)
  {
    var s := Wrap32(v + p.gamma2);
    DivShrinks(s, 2 * p.gamma2);
    s / (2 * p.gamma2)
  }

  lemma DivShrinks(s: int, d: int)
    requires InInt32(s) && d >= 1
    ensures InInt32(s / d)
  {
    var r := s / d;
    assert d * r <= s;
    if r > 0 {
      MulMonotone(1, d, r);
    } else if r < 0 {
      assert d * r <= r by { MulMonotone(1, d, -r); }
    }
  }

  /** `_decompose`: HighBits of every coefficient. */
  function Decompose(p: ParamSet, w: seq<Poly>): (r: seq<Poly>)
    requires Valid(p)
    ensures |r| == |w| && forall i :: 0 <= i < |w| ==> |r[i]| == |w[i]|
    ensures AllInt32(r)
  {
    seq(|w|, i requires 0 <= i < |w| =>
      seq(|w[i]|, x requires 0 <= x < |w[i]| => HighBits(p, w[i][x])))
  }

  /** HighBits is floor division: when w + gamma2 does not overflow, r is the unique integer
      with 2 gamma2 r <= w + gamma2 < 2 gamma2 (r + 1). */
  lemma HighBitsIsFloor(p: ParamSet, v: int)
    requires Valid(p) && InInt32(v + p.gamma2)
    ensures var r := HighBits(p, v);
      2 * p.gamma2 * r <= v + p.gamma2 < 2 * p.gamma2 * (r + 1)
  {
  }

  lemma DivMonotone(s1: int, s2: int, d: int)
    requires 0 <= s1 <= s2 && d > 0
    ensures 0 <= s1 / d <= s2 / d
  {
    var a, b := s1 / d, s2 / d;
    assert d * a <= s1 && s2 < d * b + d;
    assert d * (b + 1 - a) > 0;
    if b + 1 - a <= 0 {
      MulMonotone(0, a - b - 1, d);
    }
  }

  /** For coefficients in [0, q) the high bits lie in [0, (q - 1 + gamma2) // (2 gamma2)]. */
  lemma DecomposeRange(p: ParamSet, w: seq<Poly>)
    requires Valid(p) && p.q + p.gamma2 <= Int32Limit && Bounded(w, 0, p.q - 1)
    ensures Bounded(Decompose(p, w), 0, (p.q - 1 + p.gamma2) / (2 * p.gamma2))
  {
    var r := Decompose(p, w);
    forall i, x | 0 <= i < |w| && 0 <= x < |w[i]|
      ensures 0 <= r[i][x] <= (p.q - 1 + p.gamma2) / (2 * p.gamma2)
    {
      assert Within(w[i], 0, p.q - 1);
      DivMonotone(w[i][x] + p.gamma2, p.q - 1 + p.gamma2, 2 * p.gamma2);
    }
  }

  /** At every security level the high bits of a reduced coefficient lie in [0, 32]. */
  lemma DecomposeRangeAtLevels(level: int, w: seq<Poly>)
    requires GetParams(level).Success?
    requires Bounded(w, 0, GetParams(level).value.q - 1)
    ensures Bounded(Decompose(GetParams(level).value, w), 0, 32)
  {
    var p := GetParams(level).value;
    DecomposeRange(p, w);
    assert (p.q - 1 + p.gamma2) / (2 * p.gamma2) == 32;
  }

  // ---------------------------------------------------------------- norm check

  function Abs(x: int): nat {
    if x < 0 then -x else x
  }

  /** `np.abs` of an int32 entry: -2^31 has no int32 negation and stays -2^31. */
  function Abs32(x: int): int {
    if x == Int32Min then x else Abs(x)
  }

  /** `_check_bounds` on an int32 array: every coefficient has `np.abs(x) < gamma1 - beta`. */
  predicate WithinBound(p: ParamSet, x: seq<Poly>) {
    forall i :: 0 <= i < |x| ==> forall c :: 0 <= c < |x[i]| ==> Abs32(x[i][c]) < RejectionBound(p)
  }

  /** Every coefficient lies in [lo, hi] or is the int32 minimum. */
  predicate BoundedOrInt32Min(v: seq<Poly>, lo: int, hi: int) {
    forall i :: 0 <= i < |v| ==> forall c :: 0 <= c < |v[i]| ==> v[i][c] == Int32Min || lo <= v[i][c] <= hi
  }

  /** The check is a two-sided coefficient bound, except that a coefficient -2^31 passes it
      too, since its int32 absolute value is negative. */
  lemma WithinBoundIsBounded(p: ParamSet, x: seq<Poly>)
    requires Valid(p)
    ensures WithinBound(p, x) <==> BoundedOrInt32Min(x, 1 - RejectionBound(p), RejectionBound(p) - 1)
  {
    if WithinBound(p, x) {
      forall i, c | 0 <= i < |x| && 0 <= c < |x[i]|
        ensures x[i][c] == Int32Min || 1 - RejectionBound(p) <= x[i][c] <= RejectionBound(p) - 1
      {
        assert Abs32(x[i][c]) < RejectionBound(p);
      }
    }
    if BoundedOrInt32Min(x, 1 - RejectionBound(p), RejectionBound(p) - 1) {
      forall i | 0 <= i < |x| ensures forall c :: 0 <= c < |x[i]| ==> Abs32(x[i][c]) < RejectionBound(p) {
      }
    }
  }

  /** On coefficients that are not -2^31 the check is exactly the bound (-(gamma1 - beta),
      gamma1 - beta). */
  lemma WithinBoundAwayFromMin(p: ParamSet, x: seq<Poly>)
    requires Valid(p)
    requires forall i :: 0 <= i < |x| ==> forall c :: 0 <= c < |x[i]| ==> x[i][c] != Int32Min
    ensures WithinBound(p, x) <==> Bounded(x, 1 - RejectionBound(p), RejectionBound(p) - 1)
  {
    WithinBoundIsBounded(p, x);
    if BoundedOrInt32Min(x, 1 - RejectionBound(p), RejectionBound(p) - 1) {
      forall i | 0 <= i < |x| ensures Within(x[i], 1 - RejectionBound(p), RejectionBound(p) - 1) {
      }
    }
    if Bounded(x, 1 - RejectionBound(p), RejectionBound(p) - 1) {
      forall i | 0 <= i < |x|
        ensures forall c :: 0 <= c < |x[i]| ==> x[i][c] == Int32Min || 1 - RejectionBound(p) <= x[i][c] <= RejectionBound(p) - 1
      {
        assert Within(x[i], 1 - RejectionBound(p), RejectionBound(p) - 1);
      }
    }
  }

  /** A polynomial of -2^31 coefficients passes the check: `np.abs` leaves them negative. */
  lemma Int32MinPasses(p: ParamSet, x: seq<Poly>)
    requires Valid(p)
    requires forall i :: 0 <= i < |x| ==> forall c :: 0 <= c < |x[i]| ==> x[i][c] == Int32Min
    ensures WithinBound(p, x)
  {
  }

  // ---------------------------------------------------------------- challenge

  /** The bytes fed to SHAKE-256 after mu: `poly.tobytes()` of each row of w1 in order. */
  function SerializeRows(w1: seq<Poly>): (r: seq<Byte>)
    requires AllInt32(w1)
  {
    if |w1| == 0 then [] else SerializeRows(w1[..|w1| - 1]) + Int32sToBytes(w1[|w1| - 1])
  }

  /** The `tau` positions: the stream read as int32 values, each `% n`. */
  function Positions(p: ParamSet, xof: Xof, input: seq<Byte>): (r: seq<int>)
    requires Valid(p)
    ensures |r| == p.tau && forall i :: 0 <= i < p.tau ==> 0 <= r[i] < p.n
  {
    var bytes := xof(input, 4 * p.tau);
    seq(p.tau, i requires 0 <= i < p.tau => Int32At(bytes, i) % p.n)
  }

  /** The `tau` signs: the low bit of each int8 of the stream (`& 1`). */
  function Signs(p: ParamSet, xof: Xof, input: seq<Byte>): (r: seq<bool>)
    requires Valid(p)
    ensures |r| == p.tau
  {
    var bytes := xof(input, p.tau);
    seq(p.tau, i requires 0 <= i < p.tau => Int8(bytes[i]) % 2 == 1)
  }

  /** Both digests read the same SHAKE stream: sign i is the low bit of byte i of the
      position bytes, that is of the (i % 4)-th byte of position i / 4. */
  lemma SignsFromPositionBytes(p: ParamSet, xof: Xof, input: seq<Byte>, i: int)
    requires Valid(p) && 0 <= i < p.tau
    ensures Signs(p, xof, input)[i] == (Int8(xof(input, 4 * p.tau)[i]) % 2 == 1)
  {
    assert xof(input, p.tau) == xof(input, 4 * p.tau)[..p.tau];
  }

  function SignValue(b: bool): int {
    if b then 1 else -1
  }

  predicate ValidPositions(n: int, positions: seq<int>, signs: seq<bool>) {
    |positions| == |signs| && forall i :: 0 <= i < |positions| ==> 0 <= positions[i] < n
  }

  /** The challenge after the first m writes `c[pos] = 1 if sign else -1`, starting from zero. */
  function Scatter(n: nat, positions: seq<int>, signs: seq<bool>, m: nat): (c: Poly)
    requires ValidPositions(n, positions, signs) && m <= |positions|
    ensures |c| == n && Within(c, -1, 1)
  {
    if m == 0 then Zero(n)
    else Scatter(n, positions, signs, m - 1)[positions[m - 1] := SignValue(signs[m - 1])]
  }

  /** `_challenge(mu, w1)`. */
  function ChallengeOf(p: ParamSet, xof: Xof, mu: seq<Byte>, w1: seq<Poly>): (c: Poly)
    requires Valid(p) && AllInt32(w1)
    ensures |c| == p.n && Within(c, -1, 1)
  {
    var input := mu + SerializeRows(w1);
    Scatter(p.n, Positions(p, xof, input), Signs(p, xof, input), p.tau)
  }

  /** `_challenge`: the hash input is absorbed row by row, then c is written position by
      position into a zero array. */
  method Challenge(p: ParamSet, xof: Xof, mu: seq<Byte>, w1: seq<Poly>) returns (c: Poly)
    requires Valid(p) && AllInt32(w1)
    ensures c == ChallengeOf(p, xof, mu, w1)
  {
    var input := Absorb(mu, w1);
    c := WriteChallenge(p.n, Positions(p, xof, input), Signs(p, xof, input));
  }

  /** The hash input: mu, then each row of w1 as int32 bytes. */
  method Absorb(mu: seq<Byte>, w1: seq<Poly>) returns (input: seq<Byte>)
    requires AllInt32(w1)
    ensures input == mu + SerializeRows(w1)
  {
    input := mu;
    for i := 0 to |w1|
      invariant input == mu + SerializeRows(w1[..i])
    {
      assert w1[..i + 1][..i] == w1[..i];
      input := input + Int32sToBytes(w1[i]);
    }
    assert w1[..|w1|] == w1;
  }

  /** The writes `c[pos] = 1 if sign else -1` into a zero array of n cells. */
  method WriteChallenge(n: nat, positions: seq<int>, signs: seq<bool>) returns (c: Poly)
    requires ValidPositions(n, positions, signs)
    ensures c == Scatter(n, positions, signs, |positions|)
  {
    var cells := new int[n](_ => 0);
    for i := 0 to |positions|
      invariant cells[..] == Scatter(n, positions, signs, i)
    {
      cells[positions[i]] := if signs[i] then 1 else -1;
    }
    c := cells[..];
  }

  /** A coefficient is nonzero exactly when some write chose its position. */
  lemma {:induction false} ScatterChosen(n: nat, positions: seq<int>, signs: seq<bool>, m: nat, x: int)
    requires ValidPositions(n, positions, signs) && m <= |positions| && 0 <= x < n
    ensures Scatter(n, positions, signs, m)[x] != 0 <==> exists i :: 0 <= i < m && positions[i] == x
  {
    if m > 0 {
      ScatterChosen(n, positions, signs, m - 1, x);
    }
  }

  /** A chosen position holds the sign of the last write to it. */
  lemma {:induction false} ScatterLastWrite(n: nat, positions: seq<int>, signs: seq<bool>, m: nat, i: int)
    requires ValidPositions(n, positions, signs) && m <= |positions| && 0 <= i < m
    requires forall j :: i < j < m ==> positions[j] != positions[i]
    ensures Scatter(n, positions, signs, m)[positions[i]] == SignValue(signs[i])
  {
    if m - 1 != i {
      ScatterLastWrite(n, positions, signs, m - 1, i);
    }
  }

  function NonZero(c: Poly): set<int> {
    set x | 0 <= x < |c| && c[x] != 0
  }

  /** At most m coefficients are nonzero after m writes (positions may repeat). */
  lemma {:induction false} ScatterWeight(n: nat, positions: seq<int>, signs: seq<bool>, m: nat)
    requires ValidPositions(n, positions, signs) && m <= |positions|
    ensures |NonZero(Scatter(n, positions, signs, m))| <= m
  {
    if m == 0 {
      assert NonZero(Scatter(n, positions, signs, 0)) == {};
    } else {
      ScatterWeight(n, positions, signs, m - 1);
      var before := NonZero(Scatter(n, positions, signs, m - 1));
      var after := NonZero(Scatter(n, positions, signs, m));
      assert after <= before + {positions[m - 1]};
      SubsetCard(after, before + {positions[m - 1]});
    }
  }

  lemma SubsetCard(a: set<int>, b: set<int>)
    requires a <= b
    ensures |a| <= |b|
  {
    assert b == a + (b - a);
  }

  /** The challenge has n coefficients in {-1, 0, 1}, at most tau of them nonzero. */
  lemma ChallengeWeight(p: ParamSet, xof: Xof, mu: seq<Byte>, w1: seq<Poly>)
    requires Valid(p) && AllInt32(w1)
    ensures |NonZero(ChallengeOf(p, xof, mu, w1))| <= p.tau
  {
    var input := mu + SerializeRows(w1);
    ScatterWeight(p.n, Positions(p, xof, input), Signs(p, xof, input), p.tau);
  }

  // ---------------------------------------------------------------- one signing attempt

  /** w = A y: row i is the reduced sum of A[i][j] y[j]. */
  function Commitment(p: ParamSet, a: seq<seq<Poly>>, y: seq<Poly>): (w: seq<Poly>)
    requires Valid(p) && |a| == p.k && (forall i :: 0 <= i < p.k ==> Shaped(a[i], p.l, p.n))
    requires Shaped(y, p.l, p.n)
    ensures Shaped(w, p.k, p.n) && Bounded(w, 0, p.q - 1)
  {
    seq(p.k, i requires 0 <= i < p.k => RowSum(a[i], y, p.n, p.q, p.l))
  }

  /** z = y + c s1, row by row, each row reduced. */
  function Response(p: ParamSet, c: Poly, s1: seq<Poly>, y: seq<Poly>): (z: seq<Poly>)
    requires Valid(p) && |c| == p.n && Shaped(s1, p.l, p.n) && Shaped(y, p.l, p.n)
    ensures Shaped(z, p.l, p.n) && Bounded(z, 0, p.q - 1)
  {
    seq(p.l, i requires 0 <= i < p.l => Add(y[i], NegacyclicProduct(c, s1[i], p.q), p.q))
  }

  /** `w - c * t` with numpy broadcasting: c multiplies every row coefficient by coefficient. */
  function Residual(w: seq<Poly>, c: Poly, t: seq<Poly>): (r: seq<Poly>)
    requires Shaped(w, |t|, |c|) && Shaped(t, |t|, |c|)
    ensures Shaped(r, |t|, |c|)
  {
    seq(|w|, i requires 0 <= i < |w| => seq(|c|, x requires 0 <= x < |c| => w[i][x] - c[x] * t[i][x]))
  }

  predicate SecretKeyShape(p: ParamSet, sk: PrivateKey) {
    |sk.seed| == 32 && Shaped(sk.s1, p.l, p.n) && Shaped(sk.t, p.k, p.n)
  }

  /** Each mask is l polynomials with coefficients drawn from [-gamma1, gamma1]. */
  predicate MaskShape(p: ParamSet, y: seq<Poly>) {
    Shaped(y, p.l, p.n) && Bounded(y, -p.gamma1, p.gamma1)
  }

  datatype Attempt = Attempt(w: seq<Poly>, c: Poly, z: seq<Poly>)

  /** Everything one pass of the loop computes from mask y. */
  function AttemptOf(p: ParamSet, xof: Xof, mu: seq<Byte>, sk: PrivateKey, y: seq<Poly>): (at: Attempt)
    requires Valid(p) && SecretKeyShape(p, sk) && MaskShape(p, y)
    ensures Shaped(at.w, p.k, p.n) && |at.c| == p.n && Shaped(at.z, p.l, p.n)
    ensures Bounded(at.z, 0, p.q - 1)
  {
    var w := Commitment(p, MatrixOf(p, xof, sk.seed), y);
    var c := ChallengeOf(p, xof, mu, Decompose(p, w));
    Attempt(w, c, Response(p, c, sk.s1, y))
  }

  /** The condition under which `sign` returns. */
  predicate Accepts(p: ParamSet, xof: Xof, mu: seq<Byte>, sk: PrivateKey, y: seq<Poly>)
    requires Valid(p) && SecretKeyShape(p, sk) && MaskShape(p, y)
  {
    var at := AttemptOf(p, xof, mu, sk, y);
    WithinBound(p, at.z) && WithinBound(p, Residual(at.w, at.c, sk.t))
  }

  /** Whether the attempt with each mask passes both checks. */
  function Verdicts(p: ParamSet, xof: Xof, mu: seq<Byte>, sk: PrivateKey, masks: seq<seq<Poly>>): (v: seq<bool>)
    requires Valid(p) && SecretKeyShape(p, sk) && (forall b :: 0 <= b < |masks| ==> MaskShape(p, masks[b]))
    ensures |v| == |masks|
  {
    seq(|masks|, b requires 0 <= b < |masks| => Accepts(p, xof, mu, sk, masks[b]))
  }

  /** The first index at or after a holding true, or |v| if there is none. */
  function FirstFrom(v: seq<bool>, a: nat): (b: nat)
    requires a <= |v|
    ensures a <= b <= |v| && (b < |v| ==> v[b])
    ensures forall i :: a <= i < b ==> !v[i]
    decreases |v| - a
  {
    if a == |v| then |v| else if v[a] then a else FirstFrom(v, a + 1)
  }

  /** `sign(message, private_key)` given the sequence of mask draws: the response of the
      first accepted mask, with mu = SHAKE-256(message) read to 64 bytes. */
  function SignOf(p: ParamSet, xof: Xof, message: seq<Byte>, sk: PrivateKey, masks: seq<seq<Poly>>)
    : Result<Signature, SignError>
    requires Valid(p) && SecretKeyShape(p, sk) && (forall b :: 0 <= b < |masks| ==> MaskShape(p, masks[b]))
  {
    var mu := xof(message, 64);
    var b := FirstFrom(Verdicts(p, xof, mu, sk, masks), 0);
    if b == |masks| then Failure(Exhausted) else Success(Signature(mu, AttemptOf(p, xof, mu, sk, masks[b]).z))
  }

  // ---------------------------------------------------------------- the loops of `sign`

  /** Computing w = A y: the nested accumulation loops. */
  method Commit(p: ParamSet, xof: Xof, seed: seq<Byte>, a: array2<Poly>, y: seq<Poly>) returns (w: seq<Poly>)
    requires Valid(p) && HoldsMatrix(a, p, xof, seed) && Shaped(y, p.l, p.n)
    ensures w == Commitment(p, MatrixOf(p, xof, seed), y)
  {
    ghost var target := Commitment(p, MatrixOf(p, xof, seed), y);
    var rows := new Poly[p.k](_ => Zero(p.n));
    for i := 0 to p.k
      invariant forall i' :: 0 <= i' < i ==> rows[i'] == target[i']
    {
      RowOfHeldMatrix(a, p, xof, seed, i);
      rows[i] := AccumulateRow(a, i, y, p.n, p.q);
    }
    w := rows[..];
  }

  /** Computing z = y + c s1 in a copy of y. */
  method Respond(p: ParamSet, c: Poly, s1: seq<Poly>, y: seq<Poly>) returns (z: seq<Poly>)
    requires Valid(p) && |c| == p.n && Shaped(s1, p.l, p.n) && Shaped(y, p.l, p.n)
    ensures z == Response(p, c, s1, y)
  {
    var rows := new Poly[p.l](i requires 0 <= i < p.l => y[i]);
    for i := 0 to p.l
      invariant forall i' :: 0 <= i' < i ==> rows[i'] == Response(p, c, s1, y)[i']
      invariant forall i' :: i <= i' < p.l ==> rows[i'] == y[i']
    {
      var product := Multiply(c, s1[i], p.q);
      rows[i] := Add(rows[i], product, p.q);
    }
    z := rows[..];
  }

  /** `sign`: try the masks in order and return (mu, z) for the first attempt that passes
      both norm checks. */
  method SignMessage(p: ParamSet, xof: Xof, message: seq<Byte>, sk: PrivateKey, masks: seq<seq<Poly>>)
    returns (r: Result<Signature, SignError>)
    requires Valid(p) && SecretKeyShape(p, sk) && (forall b :: 0 <= b < |masks| ==> MaskShape(p, masks[b]))
    ensures r == SignOf(p, xof, message, sk, masks)
  {
    var mu := xof(message, 64);
    ghost var verdicts := Verdicts(p, xof, mu, sk, masks);
    var attempt := 0;
    while attempt < |masks|
      invariant 0 <= attempt <= |masks|
      invariant FirstFrom(verdicts, attempt) == FirstFrom(verdicts, 0)
      decreases |masks| - attempt
    {
      var y := masks[attempt];
      var a := SampleMatrix(p, xof, sk.seed);
      var w := Commit(p, xof, sk.seed, a, y);
      var c := Challenge(p, xof, mu, Decompose(p, w));
      var z := Respond(p, c, sk.s1, y);
      if WithinBound(p, z) && WithinBound(p, Residual(w, c, sk.t)) {
        return Success(Signature(mu, z));
      }
      attempt := attempt + 1;
    }
    return Failure(Exhausted);
  }

  // ---------------------------------------------------------------- what `sign` promises

  /** The number of the attempt whose response `sign` returns (|masks| if none passes). */
  function AcceptedAttempt(p: ParamSet, xof: Xof, message: seq<Byte>, sk: PrivateKey, masks: seq<seq<Poly>>): nat
    requires Valid(p) && SecretKeyShape(p, sk) && (forall b :: 0 <= b < |masks| ==> MaskShape(p, masks[b]))
  {
    FirstFrom(Verdicts(p, xof, xof(message, 64), sk, masks), 0)
  }

  /** `sign` runs out only if every mask fails one of the two checks. */
  lemma SignFails(p: ParamSet, xof: Xof, message: seq<Byte>, sk: PrivateKey, masks: seq<seq<Poly>>)
    requires Valid(p) && SecretKeyShape(p, sk) && (forall b :: 0 <= b < |masks| ==> MaskShape(p, masks[b]))
    ensures SignOf(p, xof, message, sk, masks).Failure? <==>
            forall b :: 0 <= b < |masks| ==> !Accepts(p, xof, xof(message, 64), sk, masks[b])
  {
    var mu := xof(message, 64);
    var v := Verdicts(p, xof, mu, sk, masks);
    assert forall i :: 0 <= i < |masks| ==> v[i] == Accepts(p, xof, mu, sk, masks[i]);
  }

  /** A signature is (SHAKE-256(message, 64), z) where z is the response of an accepted
      mask and every earlier mask was rejected. */
  lemma SignSucceeds(p: ParamSet, xof: Xof, message: seq<Byte>, sk: PrivateKey, masks: seq<seq<Poly>>)
    requires Valid(p) && SecretKeyShape(p, sk) && (forall b :: 0 <= b < |masks| ==> MaskShape(p, masks[b]))
    requires SignOf(p, xof, message, sk, masks).Success?
    ensures var mu := xof(message, 64);
      var b := AcceptedAttempt(p, xof, message, sk, masks);
      && b < |masks|
      && Accepts(p, xof, mu, sk, masks[b])
      && (forall i :: 0 <= i < b ==> !Accepts(p, xof, mu, sk, masks[i]))
      && SignOf(p, xof, message, sk, masks).value == Signature(mu, AttemptOf(p, xof, mu, sk, masks[b]).z)
  {
    var mu := xof(message, 64);
    var v := Verdicts(p, xof, mu, sk, masks);
    assert forall i :: 0 <= i < |masks| ==> v[i] == Accepts(p, xof, mu, sk, masks[i]);
  }

  /** A returned response has l rows of n coefficients, all in [0, gamma1 - beta): reduced
      mod q by `add` and below the bound by the check. */
  lemma SignatureRange(p: ParamSet, xof: Xof, message: seq<Byte>, sk: PrivateKey, masks: seq<seq<Poly>>)
    requires Valid(p) && SecretKeyShape(p, sk) && (forall b :: 0 <= b < |masks| ==> MaskShape(p, masks[b]))
    requires SignOf(p, xof, message, sk, masks).Success?
    ensures var z := SignOf(p, xof, message, sk, masks).value.z;
      Shaped(z, p.l, p.n) && Bounded(z, 0, RejectionBound(p) - 1)
  {
    var mu := xof(message, 64);
    SignSucceeds(p, xof, message, sk, masks);
    var b := AcceptedAttempt(p, xof, message, sk, masks);
    var z := AttemptOf(p, xof, mu, sk, masks[b]).z;
    assert WithinBound(p, z);
    forall i | 0 <= i < |z| ensures Within(z[i], 0, RejectionBound(p) - 1) {
      assert Within(z[i], 0, p.q - 1);
    }
  }
}
