/** Polynomial arithmetic of dilithium/core.py: class PolynomialRing (add, subtract and the
    negacyclic product of Z_q[X]/(X^n + 1)) and DilithiumParams.multiply, a different
    "multiply" that the rest of the code never calls. Polynomials are sequences of n
    integer coefficients. */
module Ring {
  import opened Bytes

  type Poly = seq<int>

  /** Every coefficient lies in [0, q). */
  predicate Reduced(a: Poly, q: int) {
    Within(a, 0, q - 1)
  }

  function Zero(n: nat): (r: Poly)
    ensures |r| == n && forall i :: 0 <= i < n ==> r[i] == 0
  {
    seq(n, _ => 0)
  }

  /** The constant polynomial 1. */
  function One(n: nat): (r: Poly)
    requires n >= 1
    ensures |r| == n && r[0] == 1 && forall i :: 1 <= i < n ==> r[i] == 0
  {
    seq(n, i => if i == 0 then 1 else 0)
  }

  /** The monomial X. */
  function MonomialX(n: nat): (r: Poly)
    requires n >= 2
    ensures |r| == n && r[1] == 1 && forall i :: 0 <= i < n && i != 1 ==> r[i] == 0
  {
    seq(n, i => if i == 1 then 1 else 0)
  }

  /** A vector of `count` polynomials, each of n coefficients. */
  predicate Shaped(v: seq<Poly>, count: int, n: int) {
    |v| == count && forall i :: 0 <= i < |v| ==> |v[i]| == n
  }

  /** Every coefficient of a lies in [lo, hi]. */
  predicate Within(a: Poly, lo: int, hi: int) {
    forall x :: 0 <= x < |a| ==> lo <= a[x] <= hi
  }

  /** Every coefficient of every polynomial of v lies in [lo, hi]. */
  predicate Bounded(v: seq<Poly>, lo: int, hi: int) {
    forall i :: 0 <= i < |v| ==> Within(v[i], lo, hi)
  }

  /** Coefficient-wise `% q` (Python's remainder, never negative for q > 0). */
  function Reduce(a: Poly, q: int): (r: Poly)
    requires q > 0
    ensures |r| == |a| && Reduced(r, q)
    ensures forall i :: 0 <= i < |a| ==> r[i] == a[i] % q
  {
    seq(|a|, i requires 0 <= i < |a| => a[i] % q)
  }

  /** PolynomialRing.add: `(a + b) % q`. */
  function Add(a: Poly, b: Poly, q: int): (r: Poly)
    requires q > 0 && |a| == |b|
    ensures |r| == |a| && Reduced(r, q)
  {
    seq(|a|, i requires 0 <= i < |a| => (a[i] + b[i]) % q)
  }

  /** PolynomialRing.subtract: `(a - b) % q`. */
  function Subtract(a: Poly, b: Poly, q: int): (r: Poly)
    requires q > 0 && |a| == |b|
    ensures |r| == |a| && Reduced(r, q)
  {
    seq(|a|, i requires 0 <= i < |a| => (a[i] - b[i]) % q)
  }

  // ---------------------------------------------------------------- modular facts

  lemma ModUnique(x: int, q: int, d: int, r: int)
    requires q > 0 && 0 <= r < q && x == q * d + r
    ensures x % q == r
  {
    var d' := x / q;
    var r' := x % q;
    assert q * (d - d') == r' - r;
    SmallMultipleIsZero(q, d - d');
  }

  lemma SmallMultipleIsZero(q: int, e: int)
    requires q > 0 && -q < q * e < q
    ensures e == 0
  {
    assert e >= 1 ==> q * e >= q * 1;
    assert e <= -1 ==> q * e <= q * -1;
  }

  lemma MulMonotone(x: int, y: int, z: int)
    requires 0 <= x <= y && 0 <= z
    ensures x * z <= y * z
  {
  }

  /** Reducing before adding more does not change the final remainder. */
  lemma ModOfSum(x: int, y: int, q: int)
    requires q > 0
    ensures (x % q + y) % q == (x + y) % q
  {
    var s := x + y;
    ModUnique(x % q + y, q, s / q - x / q, s % q);
  }

  lemma SubtractAfterAdd(a: Poly, b: Poly, q: int)
    requires q > 0 && |a| == |b|
    ensures Subtract(Add(a, b, q), b, q) == Reduce(a, q)
  {
    var r := Subtract(Add(a, b, q), b, q);
    forall i | 0 <= i < |a| ensures r[i] == a[i] % q {
      ModOfSum(a[i] + b[i], -b[i], q);
    }
  }

  // ---------------------------------------------------------------- negacyclic product

  /** Entry (i, j) of the negacyclic matrix of b: row i is b rotated right by i places,
      its first i entries negated (the wrapped terms, since X^n = -1). */
  function Entry(b: Poly, i: int, j: int): int
    requires 0 <= i < |b| && 0 <= j < |b|
  {
    if i <= j then b[j - i] else -b[|b| + j - i]
  }

  /** The integer sum over i < m of a[i] * Entry(b, i, j): over all of a it is
      sum_{i <= j} a[i] b[j - i] - sum_{i > j} a[i] b[n + j - i]. */
  function ColumnSum(a: Poly, b: Poly, j: int, m: int): int
    requires |a| == |b| && 0 <= j < |b| && 0 <= m <= |a|
  {
    if m == 0 then 0 else ColumnSum(a, b, j, m - 1) + a[m - 1] * Entry(b, m - 1, j)
  }

  /** The product of Z_q[X]/(X^n + 1), every coefficient reduced into [0, q). */
  function NegacyclicProduct(a: Poly, b: Poly, q: int): (r: Poly)
    requires |a| == |b| && q > 0
    ensures |r| == |a| && Reduced(r, q)
  {
    seq(|a|, j requires 0 <= j < |a| => ColumnSum(a, b, j, |a|) % q)
  }

  /** `a @ M` for a square matrix held in an array, column j summed over rows i < m. */
  function MatrixColumn(a: Poly, m2: array2<int>, j: int, m: int): int
    reads m2
    requires m2.Length0 == |a| && 0 <= j < m2.Length1 && 0 <= m <= |a|
  {
    if m == 0 then 0 else MatrixColumn(a, m2, j, m - 1) + a[m - 1] * m2[m - 1, j]
  }

  lemma {:induction false} MatrixColumnIsColumnSum(a: Poly, b: Poly, m2: array2<int>, j: int, m: int)
    requires |a| == |b| && m2.Length0 == |b| && m2.Length1 == |b| && 0 <= j < |b| && 0 <= m <= |a|
    requires forall r, c :: 0 <= r < |b| && 0 <= c < |b| ==> m2[r, c] == Entry(b, r, c)
    ensures MatrixColumn(a, m2, j, m) == ColumnSum(a, b, j, m)
  {
    if m > 0 {
      MatrixColumnIsColumnSum(a, b, m2, j, m - 1);
    }
  }

  /** The `b_matrix` loop of PolynomialRing.multiply: row i is `np.roll(b, i)` with its
      first i entries then negated. */
  method NegacyclicMatrix(b: Poly) returns (m2: array2<int>)
    ensures fresh(m2) && m2.Length0 == |b| && m2.Length1 == |b|
    ensures forall row, c :: 0 <= row < |b| && 0 <= c < |b| ==> m2[row, c] == Entry(b, row, c)
  {
    var n := |b|;
    m2 := new int[n, n]((_, _) => 0);
    for i := 0 to n
      invariant forall row, c :: 0 <= row < i && 0 <= c < n ==> m2[row, c] == Entry(b, row, c)
    {
      forall c | 0 <= c < n {
        m2[i, c] := b[(c - i) % n];
      }
      if i > 0 {
        forall c | 0 <= c < i {
          m2[i, c] := -m2[i, c];
        }
      }
      RotatedRow(b, i, m2);
    }
  }

  lemma RotatedRow(b: Poly, i: int, m2: array2<int>)
    requires m2.Length0 == |b| && m2.Length1 == |b| && 0 <= i < |b|
    requires forall c :: 0 <= c < i ==> m2[i, c] == -b[(c - i) % |b|]
    requires forall c :: i <= c < |b| ==> m2[i, c] == b[(c - i) % |b|]
    ensures forall c :: 0 <= c < |b| ==> m2[i, c] == Entry(b, i, c)
  {
    forall c | 0 <= c < |b| ensures m2[i, c] == Entry(b, i, c) {
      if c < i {
        ModUnique(c - i, |b|, -1, |b| + c - i);
      } else {
        ModUnique(c - i, |b|, 0, c - i);
      }
    }
  }

  /** PolynomialRing.multiply: `(a @ b_matrix) % q`. */
  method Multiply(a: Poly, b: Poly, q: int) returns (r: Poly)
    requires |a| == |b| && q > 0
    ensures r == NegacyclicProduct(a, b, q)
  {
    var n := |b|;
    var bMatrix := NegacyclicMatrix(b);
    r := seq(n, j requires 0 <= j < n reads bMatrix => MatrixColumn(a, bMatrix, j, n) % q);
    forall j | 0 <= j < n ensures r[j] == NegacyclicProduct(a, b, q)[j] {
      MatrixColumnIsColumnSum(a, b, bMatrix, j, n);
    }
  }

  lemma {:induction false} ColumnSumUnit(a: Poly, b: Poly, j: int, m: int, u: int)
    requires |a| == |b| && 0 <= j < |b| && 0 <= u < m <= |a|
    requires a[u] == 1 && forall i :: 0 <= i < |a| && i != u ==> a[i] == 0
    ensures ColumnSum(a, b, j, m) == Entry(b, u, j)
  {
    if m - 1 > u {
      ColumnSumUnit(a, b, j, m - 1, u);
    } else {
      ColumnSumZero(a, b, j, m - 1, u);
    }
  }

  lemma {:induction false} ColumnSumZero(a: Poly, b: Poly, j: int, m: int, u: int)
    requires |a| == |b| && 0 <= j < |b| && 0 <= m <= u < |a|
    requires forall i :: 0 <= i < |a| && i != u ==> a[i] == 0
    ensures ColumnSum(a, b, j, m) == 0
  {
    if m > 0 {
      ColumnSumZero(a, b, j, m - 1, u);
    }
  }

  /** Multiplying by the constant 1 returns b reduced mod q. */
  lemma MultiplyByOne(b: Poly, q: int)
    requires |b| >= 1 && q > 0
    ensures NegacyclicProduct(One(|b|), b, q) == Reduce(b, q)
  {
    var r := NegacyclicProduct(One(|b|), b, q);
    forall j | 0 <= j < |b| ensures r[j] == b[j] % q {
      ColumnSumUnit(One(|b|), b, j, |b|, 0);
    }
  }

  /** Multiplying by X shifts every coefficient up one place; the top one wraps to
      position 0 negated. */
  lemma MultiplyByX(b: Poly, q: int)
    requires |b| >= 2 && q > 0
    ensures var r := NegacyclicProduct(MonomialX(|b|), b, q);
      && r[0] == (-b[|b| - 1]) % q
      && forall j :: 1 <= j < |b| ==> r[j] == b[j - 1] % q
  {
    var r := NegacyclicProduct(MonomialX(|b|), b, q);
    forall j | 0 <= j < |b| ensures r[j] == (if j == 0 then -b[|b| - 1] else b[j - 1]) % q {
      ColumnSumUnit(MonomialX(|b|), b, j, |b|, 1);
    }
  }

  // ---------------------------------------------------------------- int64 accumulation

  lemma ProductBound(x: int, y: int, bx: int, bnd: int)
    requires -bx <= x <= bx && -bnd <= y <= bnd
    ensures -(bx * bnd) <= x * y <= bx * bnd
  {
    var ax := if x >= 0 then x else -x;
    var ay := if y >= 0 then y else -y;
    MagnitudeBound(ax, ay, bx, bnd);
    assert x * y == ax * ay || x * y == -(ax * ay);
  }

  lemma MagnitudeBound(x: int, y: int, bx: int, bnd: int)
    requires 0 <= x <= bx && 0 <= y <= bnd
    ensures 0 <= x * y <= bx * bnd
  {
    MulMonotone(x, bx, y);
    MulMonotone(y, bnd, bx);
  }

  /** Every partial sum of a column is bounded by m * ba * bb. */
  lemma {:induction false} ColumnSumBound(a: Poly, b: Poly, j: int, m: int, ba: int, bb: int)
    requires |a| == |b| && 0 <= j < |b| && 0 <= m <= |a|
    requires forall i :: 0 <= i < |a| ==> -ba <= a[i] <= ba
    requires forall i :: 0 <= i < |b| ==> -bb <= b[i] <= bb
    ensures -(m * (ba * bb)) <= ColumnSum(a, b, j, m) <= m * (ba * bb)
  {
    if m > 0 {
      ColumnSumBound(a, b, j, m - 1, ba, bb);
      ProductBound(a[m - 1], Entry(b, m - 1, j), ba, bb);
      assert m * (ba * bb) == (m - 1) * (ba * bb) + ba * bb;
    }
  }

  /** For coefficients of magnitude below q = 8380417 and n <= 256 the largest sum
      n * (q - 1)^2 stays below 2^63, so the int64 accumulation of `a @ b_matrix`
      never wraps and equals the exact integer sum. */
  lemma MultiplyFitsInt64(a: Poly, b: Poly, q: int)
    requires |a| == |b| <= 256 && 0 < q <= 8380417
    requires forall i :: 0 <= i < |a| ==> -q < a[i] < q
    requires forall i :: 0 <= i < |b| ==> -q < b[i] < q
    ensures forall j, m :: 0 <= j < |b| && 0 <= m <= |a| ==> -Int64Limit <= ColumnSum(a, b, j, m) < Int64Limit
  {
    forall j, m | 0 <= j < |b| && 0 <= m <= |a|
      ensures -Int64Limit <= ColumnSum(a, b, j, m) < Int64Limit
    {
      ColumnSumBound(a, b, j, m, q - 1, q - 1);
      ProductBound(q - 1, q - 1, 8380416, 8380416);
      var p := (q - 1) * (q - 1);
      assert 0 <= p <= 70231372333056;
      MulMonotone(m, 256, p);
      assert 256 * p <= 256 * 70231372333056;
    }
  }

  /** The verifier's `multiply(c, t[i])`: c has coefficients in {-1, 0, 1} and t is any
      int32 array, so each partial sum stays within 256 * 2^31 = 2^39 and the int64
      accumulation never wraps there either. */
  lemma ChallengeProductFitsInt64(c: Poly, t: Poly)
    requires |c| == |t| <= 256
    requires forall i :: 0 <= i < |c| ==> -1 <= c[i] <= 1
    requires forall i :: 0 <= i < |t| ==> InInt32(t[i])
    ensures forall j, m :: 0 <= j < |t| && 0 <= m <= |c| ==> -Int64Limit <= ColumnSum(c, t, j, m) < Int64Limit
  {
    forall j, m | 0 <= j < |t| && 0 <= m <= |c|
      ensures -Int64Limit <= ColumnSum(c, t, j, m) < Int64Limit
    {
      ColumnSumBound(c, t, j, m, 1, Int32Limit);
      MulMonotone(m, 256, Int32Limit);
    }
  }

  /** The verifier's `multiply(A[i][j], z[j])`: A has coefficients in [0, q) and z is any
      int32 array, -2^31 included, since the norm check lets it through; each partial sum
      stays within 256 * (q - 1) * 2^31 < 2^62, so the int64 accumulation never wraps. */
  lemma ResponseProductFitsInt64(a: Poly, z: Poly, q: int)
    requires |a| == |z| <= 256 && 0 < q <= 8380417
    requires forall i :: 0 <= i < |a| ==> 0 <= a[i] < q
    requires forall i :: 0 <= i < |z| ==> InInt32(z[i])
    ensures forall j, m :: 0 <= j < |z| && 0 <= m <= |a| ==> -Int64Limit <= ColumnSum(a, z, j, m) < Int64Limit
  {
    forall j, m | 0 <= j < |z| && 0 <= m <= |a|
      ensures -Int64Limit <= ColumnSum(a, z, j, m) < Int64Limit
    {
      ColumnSumBound(a, z, j, m, q - 1, Int32Limit);
      MulMonotone(q - 1, 8380416, Int32Limit);
      var p := (q - 1) * Int32Limit;
      assert 0 <= p <= 8380416 * Int32Limit;
      MulMonotone(m, 256, p);
      assert 256 * p <= 256 * (8380416 * Int32Limit);
    }
  }

  // ---------------------------------------------------------------- DilithiumParams.multiply

  /** The sign DilithiumParams.multiply gives the product a[i] * b[j]: negative exactly
      when j >= n / 2, whatever i is. */
  function HalfSign(n: int, j: int): int {
    if j >= n / 2 then -1 else 1
  }

  /** For output index k, the pair (i, j) with (i + j) % n == k has j == (k - i) % n;
      this sums the signed products of those pairs over i < m. */
  function WrapSum(a: Poly, b: Poly, k: int, m: int): int
    requires |a| == |b| && 0 <= k < |b| && 0 <= m <= |a|
  {
    if m == 0 then 0
    else
      var j := (k - (m - 1)) % |b|;
      WrapSum(a, b, k, m - 1) + HalfSign(|b|, j) * (a[m - 1] * b[j])
  }

  /** What DilithiumParams.multiply computes: a[i] * b[j] lands at (i + j) % n, negated
      when j >= n / 2, and the total is reduced mod q. */
  function HalfSignedProduct(a: Poly, b: Poly, q: int): (r: Poly)
    requires |a| == |b| && q > 0
    ensures |r| == |a| && Reduced(r, q)
  {
    seq(|a|, k requires 0 <= k < |a| => WrapSum(a, b, k, |a|) % q)
  }

  lemma IndexArithmetic(i: int, j: int, x: int, n: int)
    requires 0 <= i < n && 0 <= j < n && 0 <= x < n
    ensures ((i + j) % n - i) % n == j
    ensures (x - i) % n == j ==> x == (i + j) % n
  {
    if i + j < n {
      ModUnique(i + j, n, 0, i + j);
    } else {
      ModUnique(i + j, n, 1, i + j - n);
      ModUnique(j - n, n, -1, j);
    }
    ModUnique(j, n, 0, j);
    if x >= i {
      ModUnique(x - i, n, 0, x - i);
    } else {
      ModUnique(x - i, n, -1, x - i + n);
    }
  }

  /** The contribution of row i to output index x once the inner loop has visited j' < j. */
  function RowTerm(a: Poly, b: Poly, i: int, x: int, j: int): int
    requires |a| == |b| && 0 <= i < |a| && 0 <= x < |b|
  {
    var jx := (x - i) % |b|;
    if jx < j then HalfSign(|b|, jx) * (a[i] * b[jx]) else 0
  }

  /** The loop invariant of DilithiumParams.multiply after row i, column j. */
  predicate Progress(s: seq<int>, a: Poly, b: Poly, q: int, i: int, j: int)
    requires |a| == |b| && 0 <= i < |a| && q > 0
  {
    |s| == |a| && forall x :: 0 <= x < |s| ==> s[x] == (WrapSum(a, b, x, i) + RowTerm(a, b, i, x, j)) % q
  }

  lemma InnerStep(s: seq<int>, a: Poly, b: Poly, q: int, i: int, j: int)
    requires |a| == |b| && 0 <= i < |a| && 0 <= j < |a| && q > 0
    requires Progress(s, a, b, q, i, j)
    ensures var k := (i + j) % |a|;
      Progress(s[k := (s[k] + HalfSign(|a|, j) * (a[i] * b[j])) % q], a, b, q, i, j + 1)
  {
    var n := |a|;
    var k := (i + j) % n;
    var s' := s[k := (s[k] + HalfSign(n, j) * (a[i] * b[j])) % q];
    IndexArithmetic(i, j, k, n);
    ModOfSum(WrapSum(a, b, k, i), HalfSign(n, j) * (a[i] * b[j]), q);
    forall x | 0 <= x < n ensures s'[x] == (WrapSum(a, b, x, i) + RowTerm(a, b, i, x, j + 1)) % q {
      IndexArithmetic(i, j, x, n);
    }
  }

  /** One step of the inner loop: `result[(i + j) % n]` gains (or loses) a[i] * b[j]. */
  method AddSignedProduct(result: array<int>, a: Poly, b: Poly, q: int, i: int, j: int)
    requires |a| == |b| && 0 <= i < |a| && 0 <= j < |a| && q > 0
    requires Progress(result[..], a, b, q, i, j)
    modifies result
    ensures Progress(result[..], a, b, q, i, j + 1)
  {
    var n := |a|;
    var k := (i + j) % n;
    InnerStep(result[..], a, b, q, i, j);
    if j >= n / 2 {
      result[k] := (result[k] - a[i] * b[j]) % q;
    } else {
      result[k] := (result[k] + a[i] * b[j]) % q;
    }
  }

  /** Once the inner loop has visited every column, row i is part of the sum. */
  lemma RowComplete(s: seq<int>, a: Poly, b: Poly, q: int, i: int)
    requires |a| == |b| && 0 <= i < |a| && q > 0
    requires Progress(s, a, b, q, i, |a|)
    ensures forall x :: 0 <= x < |s| ==> s[x] == WrapSum(a, b, x, i + 1) % q
  {
    forall x | 0 <= x < |s| ensures s[x] == WrapSum(a, b, x, i + 1) % q {
      assert 0 <= (x - i) % |a| < |a|;
    }
  }

  /** DilithiumParams.multiply, as written: a nested loop that adds (or, for j >= n / 2,
      subtracts) a[i] * b[j] into result[(i + j) % n], reducing mod q at every step. */
  method HalfSignedMultiply(a: Poly, b: Poly, q: int) returns (r: Poly)
    requires |a| == |b| && q > 0
    ensures r == HalfSignedProduct(a, b, q)
  {
    var n := |a|;
    var result := new int[n](_ => 0);
    for i := 0 to n
      invariant forall x :: 0 <= x < n ==> result[x] == WrapSum(a, b, x, i) % q
    {
      for j := 0 to n
        invariant Progress(result[..], a, b, q, i, j)
      {
        AddSignedProduct(result, a, b, q, i, j);
      }
      RowComplete(result[..], a, b, q, i);
    }
    r := result[..];
  }

  /** DilithiumParams.multiply is not the ring product: multiplying the constant 1 by
      X^(n-1) gives -X^(n-1) there, since j = n - 1 >= n / 2, where the ring gives X^(n-1). */
  lemma HalfSignedDisagrees(n: int, q: int)
    requires n >= 2 && q >= 3
    ensures var b := seq(n, i => if i == n - 1 then 1 else 0);
      && NegacyclicProduct(One(n), b, q)[n - 1] == 1
      && HalfSignedProduct(One(n), b, q)[n - 1] == q - 1
  {
    var b := seq(n, i => if i == n - 1 then 1 else 0);
    ColumnSumUnit(One(n), b, n - 1, n, 0);
    WrapSumUnit(One(n), b, n - 1, n);
    ModUnique(n - 1, n, 0, n - 1);
    ModUnique(-1, q, -1, q - 1);
    ModUnique(1, q, 0, 1);
  }

  lemma {:induction false} WrapSumUnit(a: Poly, b: Poly, k: int, m: int)
    requires |a| == |b| && 0 <= k < |b| && 1 <= m <= |a|
    requires a[0] == 1 && forall i :: 1 <= i < |a| ==> a[i] == 0
    ensures WrapSum(a, b, k, m) == HalfSign(|b|, k % |b|) * b[k % |b|]
  {
    if m > 1 {
      WrapSumUnit(a, b, k, m - 1);
    }
  }
}
