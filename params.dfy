/** The Dilithium parameter sets (dilithium/core.py, class DilithiumParams). */
module Params {
  import opened Outcomes
  import Bytes

  /** One parameter set. `n` is always 256 and `beta` is derived from `gamma1`. */
  datatype ParamSet = ParamSet(
    k: int,       // rows of the public matrix A
    l: int,       // length of the secret vector s1
    eta: int,     // coefficient bound of the short secrets
    gamma1: int,  // rounding / masking range
    gamma2: int,  // rounding divisor used by decompose
    tau: int,     // number of challenge positions
    d: int,       // dropped bits (stored, never used)
    q: int,       // prime modulus
    n: int,       // ring dimension
    beta: int)    // gamma1 // 4

  const DefaultModulus: int := 8380417
  const Degree: int := 256

  datatype ParamError = ValueError

  /** The constructor: `n` fixed at 256 and `beta = gamma1 // 4` (Python floor division). */
  function Make(k: int, l: int, eta: int, gamma1: int, gamma2: int, tau: int, d: int, q: int := DefaultModulus): (p: ParamSet)
    ensures p.n == Degree
    ensures 4 * p.beta <= gamma1 < 4 * p.beta + 4
  {
    ParamSet(k, l, eta, gamma1, gamma2, tau, d, q, Degree, gamma1 / 4)
  }

  /** The bound every response and check coefficient must stay strictly below in absolute value. */
  function RejectionBound(p: ParamSet): int {
    p.gamma1 - p.beta
  }

  /** What the rest of the model relies on: the parameters `GetParams` can produce have it. */
  predicate Valid(p: ParamSet) {
    && p.n == Degree
    && 2 <= p.q < Bytes.Int32Limit
    && 1 <= p.k && 1 <= p.l && p.k + p.l <= 256
    && 0 <= p.eta
    && 4 <= p.gamma1 && 1 <= p.gamma2
    && 0 <= p.tau
    && p.beta == p.gamma1 / 4
  }

  /** `get_params`: the three security levels; anything else is a ValueError. */
  function GetParams(level: int): (r: Result<ParamSet, ParamError>)
    ensures r.Success? <==> level == 2 || level == 3 || level == 5
    ensures r.Success? ==> Valid(r.value)
    ensures r.Success? ==> r.value.q == DefaultModulus && r.value.n == 256 && r.value.d == 13
    ensures r.Success? ==> r.value.gamma1 == 0x2_0000 && r.value.gamma2 == 0x2_0000
    ensures r.Success? ==> RejectionBound(r.value) == 98304
  {
    if level == 2 then Success(Make(4, 4, 2, 0x2_0000, 0x2_0000, 39, 13))
    else if level == 3 then Success(Make(6, 5, 4, 0x2_0000, 0x2_0000, 49, 13))
    else if level == 5 then Success(Make(8, 7, 2, 0x2_0000, 0x2_0000, 60, 13))
    else Failure(ValueError)
  }

  /** The per-level table: (k, l, eta, tau). */
  lemma LevelTable(level: int)
    requires GetParams(level).Success?
    ensures var p := GetParams(level).value;
      && (level == 2 ==> (p.k, p.l, p.eta, p.tau) == (4, 4, 2, 39))
      && (level == 3 ==> (p.k, p.l, p.eta, p.tau) == (6, 5, 4, 49))
      && (level == 5 ==> (p.k, p.l, p.eta, p.tau) == (8, 7, 2, 60))
  {
  }
}
