/** Key generation of dilithium/keygen.py (class KeyGenerator). The SHAKE-256 stream is the
    parameter `xof`; the 32 random seed bytes (`secrets.token_bytes`) are an input.

    The matrix sampler and the row accumulation `w[i] = add(w[i], multiply(A[i][j], v[j]))`
    are shared with signing and verification: dilithium/sign.py:56 and dilithium/verify.py:24
    call `_sample_matrix` on objects that do not define it, and the evident intent is this
    sampler. */
module KeyGen {
  import opened Bytes
  import opened Params
  import opened Ring
  import opened Hashing

  datatype PublicKey = PublicKey(seed: seq<Byte>, t: seq<Poly>)
  datatype PrivateKey = PrivateKey(seed: seq<Byte>, s1: seq<Poly>, s2: seq<Poly>, t: seq<Poly>)

  // ---------------------------------------------------------------- matrix sampling

  /** The XOF input used for cell number c in row-major order: the seed for the first cell,
      then the first 32 output bytes of the previous cell's stream. */
  function CellSeed(xof: Xof, seed: seq<Byte>, c: nat): seq<Byte>
  {
    if c == 0 then seed else xof(CellSeed(xof, seed, c - 1), 32)
  }

  /** One sampled polynomial: the stream read as n little-endian int32 values, each `% q`. */
  function CellPoly(p: ParamSet, xof: Xof, s: seq<Byte>): (r: Poly)
    requires Valid(p)
    ensures |r| == p.n && Within(r, 0, p.q - 1)
  {
    var bytes := xof(s, 4 * p.n);
    seq(p.n, m requires 0 <= m < p.n => Int32At(bytes, m) % p.q)
  }

  /** The k x l matrix A that `_sample_matrix` derives from a seed. */
  function MatrixOf(p: ParamSet, xof: Xof, seed: seq<Byte>): (a: seq<seq<Poly>>)
    requires Valid(p)
    ensures |a| == p.k
    ensures forall i :: 0 <= i < p.k ==> Shaped(a[i], p.l, p.n) && Bounded(a[i], 0, p.q - 1)
  {
    seq(p.k, i requires 0 <= i < p.k => seq(p.l, j requires 0 <= j < p.l => Cell(p, xof, seed, i, j)))
  }

  /** Entry (i, j) of the matrix: the cell with row-major number i * l + j. */
  function Cell(p: ParamSet, xof: Xof, seed: seq<Byte>, i: nat, j: nat): (r: Poly)
    requires Valid(p)
    ensures |r| == p.n && Within(r, 0, p.q - 1)
  {
    CellPoly(p, xof, CellSeed(xof, seed, i * p.l + j))
  }

  /** `_sample_matrix`: fills the k x l array cell by cell, re-seeding the XOF from its own
      32-byte output after every cell. */
  method SampleMatrix(p: ParamSet, xof: Xof, seed: seq<Byte>) returns (a: array2<Poly>)
    requires Valid(p)
    ensures fresh(a) && a.Length0 == p.k && a.Length1 == p.l
    ensures forall i, j :: 0 <= i < p.k && 0 <= j < p.l ==> a[i, j] == MatrixOf(p, xof, seed)[i][j]
  {
    a := new Poly[p.k, p.l]((_, _) => Zero(p.n));
    var state := seed;
    for i := 0 to p.k
      invariant state == CellSeed(xof, seed, i * p.l)
      invariant forall i', j' :: 0 <= i' < i && 0 <= j' < p.l ==> a[i', j'] == Cell(p, xof, seed, i', j')
    {
      for j := 0 to p.l
        invariant state == CellSeed(xof, seed, i * p.l + j)
        invariant forall i', j' :: 0 <= i' < i && 0 <= j' < p.l ==> a[i', j'] == Cell(p, xof, seed, i', j')
        invariant forall j' :: 0 <= j' < j ==> a[i, j'] == Cell(p, xof, seed, i, j')
      {
        state := FillCell(a, p, xof, seed, i, j, state);
      }
      assert (i + 1) * p.l == i * p.l + p.l;
    }
  }

  /** One cell of `_sample_matrix`: sample it from the current XOF state, then re-seed. */
  method FillCell(a: array2<Poly>, p: ParamSet, xof: Xof, seed: seq<Byte>, i: nat, j: nat, state: seq<Byte>)
    returns (next: seq<Byte>)
    requires Valid(p) && i < a.Length0 && j < a.Length1 == p.l
    requires state == CellSeed(xof, seed, i * p.l + j)
    modifies a
    ensures a[i, j] == Cell(p, xof, seed, i, j)
    ensures forall i', j' :: 0 <= i' < a.Length0 && 0 <= j' < a.Length1 && (i' != i || j' != j)
              ==> a[i', j'] == old(a[i', j'])
    ensures next == CellSeed(xof, seed, i * p.l + j + 1)
  {
    var bytes := xof(state, 4 * p.n);
    a[i, j] := seq(p.n, m requires 0 <= m < p.n => Int32At(bytes, m) % p.q);
    next := xof(state, 32);
  }

  /** Row i of a matrix held in an array. */
  function MatrixRow(a: array2<Poly>, i: int): (r: seq<Poly>)
    requires 0 <= i < a.Length0
    reads a
    ensures |r| == a.Length1 && forall j :: 0 <= j < a.Length1 ==> r[j] == a[i, j]
  {
    seq(a.Length1, j requires 0 <= j < a.Length1 reads a => a[i, j])
  }

  /** The array holds exactly the matrix `_sample_matrix` derives from the seed. */
  predicate HoldsMatrix(a: array2<Poly>, p: ParamSet, xof: Xof, seed: seq<Byte>)
    requires Valid(p)
    reads a
  {
    && a.Length0 == p.k && a.Length1 == p.l
    && forall i, j :: 0 <= i < p.k && 0 <= j < p.l ==> a[i, j] == MatrixOf(p, xof, seed)[i][j]
  }

  lemma RowOfHeldMatrix(a: array2<Poly>, p: ParamSet, xof: Xof, seed: seq<Byte>, i: int)
    requires Valid(p) && HoldsMatrix(a, p, xof, seed) && 0 <= i < p.k
    ensures MatrixRow(a, i) == MatrixOf(p, xof, seed)[i]
  {
  }

  // ---------------------------------------------------------------- row accumulation

  /** The accumulator `w[i]` after the first m steps of the inner loop: zero, then `add` of
      each ring product `multiply(row[j], v[j])`. */
  function RowSum(row: seq<Poly>, v: seq<Poly>, n: nat, q: int, m: nat): (r: Poly)
    requires q > 0 && Shaped(row, |v|, n) && Shaped(v, |v|, n) && m <= |v|
    ensures |r| == n && Reduced(r, q)
  {
    if m == 0 then Zero(n)
    else Add(RowSum(row, v, n, q, m - 1), NegacyclicProduct(row[m - 1], v[m - 1], q), q)
  }

  /** Coefficient x of sum_{j < m} row[j] * v[j], each ring product taken in [0, q). */
  function DotSum(row: seq<Poly>, v: seq<Poly>, n: nat, q: int, x: int, m: nat): int
    requires q > 0 && Shaped(row, |v|, n) && Shaped(v, |v|, n) && m <= |v| && 0 <= x < n
  {
    if m == 0 then 0 else DotSum(row, v, n, q, x, m - 1) + NegacyclicProduct(row[m - 1], v[m - 1], q)[x]
  }

  /** Reducing after every step gives the reduced sum of the products. */
  lemma {:induction false} RowSumFormula(row: seq<Poly>, v: seq<Poly>, n: nat, q: int, x: int, m: nat)
    requires q > 0 && Shaped(row, |v|, n) && Shaped(v, |v|, n) && m <= |v| && 0 <= x < n
    ensures RowSum(row, v, n, q, m)[x] == DotSum(row, v, n, q, x, m) % q
  {
    if m > 0 {
      var prev := RowSum(row, v, n, q, m - 1);
      var product := NegacyclicProduct(row[m - 1], v[m - 1], q);
      assert RowSum(row, v, n, q, m)[x] == (prev[x] + product[x]) % q;
      RowSumFormula(row, v, n, q, x, m - 1);
      ModOfSum(DotSum(row, v, n, q, x, m - 1), product[x], q);
    }
  }

  /** The inner loop over j: `acc = add(acc, multiply(A[i][j], v[j]))` from zero. */
  method AccumulateRow(a: array2<Poly>, i: int, v: seq<Poly>, n: nat, q: int) returns (acc: Poly)
    requires q > 0 && 0 <= i < a.Length0 && a.Length1 == |v|
    requires Shaped(MatrixRow(a, i), |v|, n) && Shaped(v, |v|, n)
    ensures acc == RowSum(MatrixRow(a, i), v, n, q, |v|)
  {
    acc := Zero(n);
    for j := 0 to |v|
      invariant acc == RowSum(MatrixRow(a, i), v, n, q, j)
    {
      var product := Multiply(a[i, j], v[j], q);
      acc := Add(acc, product, q);
    }
  }

  // ---------------------------------------------------------------- secrets and keys

  /** `_sample_small`: n stream bytes read as signed int8, each `% (2 eta + 1) - eta`. */
  function SmallPoly(p: ParamSet, xof: Xof, s: seq<Byte>): (r: Poly)
    requires Valid(p)
    ensures |r| == p.n && Within(r, -p.eta, p.eta)
  {
    var bytes := xof(s, p.n);
    seq(p.n, m requires 0 <= m < p.n => Int8(bytes[m]) % (2 * p.eta + 1) - p.eta)
  }

  /** The XOF input of secret polynomial number idx: the seed followed by the byte idx. */
  function SecretSeed(seed: seq<Byte>, idx: int): (r: seq<Byte>)
    requires 0 <= idx < 256
    ensures |r| == |seed| + 1 && r[|seed|] as int == idx
  {
    seed + [idx as Byte]
  }

  /** s1 uses suffix bytes 0 .. l-1 and s2 uses l .. k+l-1, so no two secrets share an input. */
  lemma SecretSeedsDistinct(p: ParamSet, seed: seq<Byte>, a: int, b: int)
    requires Valid(p) && 0 <= a < p.k + p.l && 0 <= b < p.k + p.l
    ensures SecretSeed(seed, a) == SecretSeed(seed, b) <==> a == b
  {
    if SecretSeed(seed, a) == SecretSeed(seed, b) {
      assert SecretSeed(seed, a)[|seed|] == SecretSeed(seed, b)[|seed|];
    }
  }

  /** Secret polynomial number idx: s1[i] is number i, s2[i] is number l + i. */
  function SecretPoly(p: ParamSet, xof: Xof, seed: seq<Byte>, idx: int): (r: Poly)
    requires Valid(p) && 0 <= idx < p.k + p.l
    ensures |r| == p.n && Within(r, -p.eta, p.eta)
  {
    SmallPoly(p, xof, SecretSeed(seed, idx))
  }

  function Secret1(p: ParamSet, xof: Xof, seed: seq<Byte>): (s1: seq<Poly>)
    requires Valid(p)
    ensures Shaped(s1, p.l, p.n) && Bounded(s1, -p.eta, p.eta)
  {
    seq(p.l, i requires 0 <= i < p.l => SecretPoly(p, xof, seed, i))
  }

  function Secret2(p: ParamSet, xof: Xof, seed: seq<Byte>): (s2: seq<Poly>)
    requires Valid(p)
    ensures Shaped(s2, p.k, p.n) && Bounded(s2, -p.eta, p.eta)
  {
    var s2 := seq(p.k, i requires 0 <= i < p.k => SecretPoly(p, xof, seed, i + p.l));
    assert forall i :: 0 <= i < p.k ==> s2[i] == SecretPoly(p, xof, seed, i + p.l);
    s2
  }

  /** t = A s1 + s2, row by row. */
  function PublicT(p: ParamSet, a: seq<seq<Poly>>, s1: seq<Poly>, s2: seq<Poly>): (t: seq<Poly>)
    requires Valid(p) && |a| == p.k && (forall i :: 0 <= i < p.k ==> Shaped(a[i], p.l, p.n))
    requires Shaped(s1, p.l, p.n) && Shaped(s2, p.k, p.n)
    ensures Shaped(t, p.k, p.n) && Bounded(t, 0, p.q - 1)
  {
    seq(p.k, i requires 0 <= i < p.k => Add(RowSum(a[i], s1, p.n, p.q, p.l), s2[i], p.q))
  }

  /** Each coefficient of t is (sum_j A[i][j] s1[j] + s2[i]) mod q. */
  lemma PublicTFormula(p: ParamSet, xof: Xof, seed: seq<Byte>, i: int, x: int)
    requires Valid(p) && 0 <= i < p.k && 0 <= x < p.n
    ensures var a := MatrixOf(p, xof, seed);
            var s1 := Secret1(p, xof, seed);
            var s2 := Secret2(p, xof, seed);
            PublicT(p, a, s1, s2)[i][x] == (DotSum(a[i], s1, p.n, p.q, x, p.l) + s2[i][x]) % p.q
  {
    var a := MatrixOf(p, xof, seed);
    var s1 := Secret1(p, xof, seed);
    var s2 := Secret2(p, xof, seed);
    RowSumFormula(a[i], s1, p.n, p.q, x, p.l);
    ModOfSum(DotSum(a[i], s1, p.n, p.q, x, p.l), s2[i][x], p.q);
  }

  /** The shapes and ranges a generated key pair has. */
  predicate WellFormedKeys(p: ParamSet, pk: PublicKey, sk: PrivateKey) {
    && |pk.seed| == 32 && sk.seed == pk.seed && sk.t == pk.t
    && Shaped(sk.s1, p.l, p.n) && Bounded(sk.s1, -p.eta, p.eta)
    && Shaped(sk.s2, p.k, p.n) && Bounded(sk.s2, -p.eta, p.eta)
    && Shaped(pk.t, p.k, p.n) && Bounded(pk.t, 0, p.q - 1)
  }

  /** The loop of `generate_keypair` that accumulates t = A s1 + s2 row by row. */
  method ComputeT(p: ParamSet, xof: Xof, seed: seq<Byte>, a: array2<Poly>, s1: seq<Poly>, s2: seq<Poly>)
    returns (t: seq<Poly>)
    requires Valid(p) && HoldsMatrix(a, p, xof, seed)
    requires Shaped(s1, p.l, p.n) && Shaped(s2, p.k, p.n)
    ensures t == PublicT(p, MatrixOf(p, xof, seed), s1, s2)
  {
    ghost var target := PublicT(p, MatrixOf(p, xof, seed), s1, s2);
    var rows := new Poly[p.k](_ => Zero(p.n));
    for i := 0 to p.k
      invariant forall i' :: 0 <= i' < i ==> rows[i'] == target[i']
    {
      RowOfHeldMatrix(a, p, xof, seed, i);
      var acc := AccumulateRow(a, i, s1, p.n, p.q);
      rows[i] := Add(acc, s2[i], p.q);
    }
    t := rows[..];
  }

  /** `generate_keypair` with the random seed as input. */
  method GenerateKeypair(p: ParamSet, xof: Xof, seed: seq<Byte>) returns (pk: PublicKey, sk: PrivateKey)
    requires Valid(p) && |seed| == 32
    ensures WellFormedKeys(p, pk, sk)
    ensures pk.seed == seed
    ensures sk.s1 == Secret1(p, xof, seed) && sk.s2 == Secret2(p, xof, seed)
    ensures pk.t == PublicT(p, MatrixOf(p, xof, seed), sk.s1, sk.s2)
  {
    var a := SampleMatrix(p, xof, seed);
    var s1 := Secret1(p, xof, seed);
    var s2 := Secret2(p, xof, seed);
    var t := ComputeT(p, xof, seed, a, s1, s2);
    pk := PublicKey(seed, t);
    sk := PrivateKey(seed, s1, s2, t);
  }
}
