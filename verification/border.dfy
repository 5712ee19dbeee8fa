/** The border-extrapolation policies of `border.hpp`: each maps a possibly
    out-of-range index `p` to the index that is read instead, given the
    length `maxBoundary` of the row or column. */
module Border {
  import opened Primitive
  import opened Outcome

  /** The values of the `BorderTypes` enumeration. */
  const BORDER_CONSTANT: int := 0
  const BORDER_REPLICATE: int := 1
  const BORDER_REFLECT: int := 2
  const BORDER_REFLECT_101: int := 3
  const BORDER_DEFAULT: int := BORDER_REFLECT_101

  /** The four `BorderPolicy` subclasses. */
  datatype Policy = Constant | Replicate | Reflect | Reflect101

  /** `is_constant()`: only the constant policy asks the caller to use a
      fixed border value instead of a remapped index. */
  predicate IsConstant(policy: Policy) {
    policy.Constant?
  }

  /** `ConstantBorderPolicy::calculate`: the index is handed back as is. */
  function ConstantIndex(p: int, maxBoundary: int): (r: int)
    ensures r == p
  {
    p
  }

  /** `ReplicateBorderPolicy::calculate`: the nearest valid index (the edge
      pixel is repeated). */
  function ReplicateIndex(p: int, maxBoundary: int): (r: int)
    ensures maxBoundary >= 1 ==> 0 <= r < maxBoundary
    ensures 0 <= p < maxBoundary ==> r == p
    ensures maxBoundary >= 1 && p < 0 ==> r == 0
    ensures maxBoundary >= 1 && p >= maxBoundary ==> r == maxBoundary - 1
  {
    Max(Min(p, maxBoundary - 1), 0)
  }

  /** `ReflectBorderPolicy::calculate`: mirror about the edge, repeating the
      edge pixel (`fedcba|abcdefgh|hgfedcb`), clamped to the valid range. */
  function ReflectIndex(p: int, maxBoundary: int): (r: int)
    ensures maxBoundary >= 1 ==> 0 <= r < maxBoundary
    ensures 0 <= p < maxBoundary ==> r == p
    ensures -maxBoundary <= p < 0 ==> r == -p - 1
    ensures maxBoundary <= p < 2 * maxBoundary ==> r == 2 * maxBoundary - p - 1
  {
    if p < 0 then Min(-p - 1, maxBoundary - 1)
    else if p >= maxBoundary then Max(maxBoundary - (p - maxBoundary) - 1, 0)
    else p
  }

  /** `Reflect101BorderPolicy::calculate`: mirror about the edge pixel
      without repeating it (`gfedcb|abcdefgh|gfedcba`), clamped to the valid
      range. */
  function Reflect101Index(p: int, maxBoundary: int): (r: int)
    ensures maxBoundary >= 1 ==> 0 <= r < maxBoundary
    ensures 0 <= p < maxBoundary ==> r == p
    ensures -maxBoundary < p < 0 ==> r == -p
    ensures maxBoundary <= p < 2 * maxBoundary - 1 ==> r == 2 * maxBoundary - p - 2
  {
    if p < 0 then Min(-p, maxBoundary - 1)
    else if p >= maxBoundary then Max(maxBoundary - (p - maxBoundary) - 2, 0)
    else p
  }

  /** The virtual `calculate` of `BorderPolicy`, dispatched on the policy. */
  function Calculate(policy: Policy, p: int, maxBoundary: int): (r: int)
    ensures IsConstant(policy) ==> r == p
    ensures !IsConstant(policy) && maxBoundary >= 1 ==> 0 <= r < maxBoundary
    ensures 0 <= p < maxBoundary ==> r == p
  {
    match policy
    case Constant => ConstantIndex(p, maxBoundary)
    case Replicate => ReplicateIndex(p, maxBoundary)
    case Reflect => ReflectIndex(p, maxBoundary)
    case Reflect101 => Reflect101Index(p, maxBoundary)
  }

  /** The `BorderTypes` value that selects a policy. */
  function Code(policy: Policy): int {
    match policy
    case Constant => BORDER_CONSTANT
    case Replicate => BORDER_REPLICATE
    case Reflect => BORDER_REFLECT
    case Reflect101 => BORDER_REFLECT_101
  }

  /** `BorderPolicyStorage::get_policy`: the policy whose code is `borderType`,
      or nullptr (`None`) for any other integer. */
  function GetPolicy(borderType: int): (r: Option<Policy>)
    ensures r.Some? <==> BORDER_CONSTANT <= borderType <= BORDER_REFLECT_101
    ensures r.Some? ==> Code(r.value) == borderType
  {
    if borderType == BORDER_CONSTANT then Some(Constant)
    else if borderType == BORDER_REPLICATE then Some(Replicate)
    else if borderType == BORDER_REFLECT then Some(Reflect)
    else if borderType == BORDER_REFLECT_101 then Some(Reflect101)
    else None
  }

  /** Every policy is reachable through its own code, and `BORDER_DEFAULT`
      selects reflect-101. */
  lemma GetPolicyOfCode(policy: Policy)
    ensures GetPolicy(Code(policy)) == Some(policy)
    ensures GetPolicy(BORDER_DEFAULT) == Some(Reflect101)
  {
  }

  /** Reflect repeats the edge pixel; reflect-101 skips it. */
  lemma ReflectEdges(maxBoundary: int)
    requires maxBoundary >= 2
    ensures ReflectIndex(-1, maxBoundary) == 0
    ensures ReflectIndex(maxBoundary, maxBoundary) == maxBoundary - 1
    ensures Reflect101Index(-1, maxBoundary) == 1
    ensures Reflect101Index(maxBoundary, maxBoundary) == maxBoundary - 2
  {
  }

  /** Reflect is symmetric about the midpoint between -1 and 0, and about the
      midpoint between maxBoundary - 1 and maxBoundary, within one period. */
  lemma ReflectSymmetric(p: int, maxBoundary: int)
    requires maxBoundary >= 1
    ensures -maxBoundary <= p < maxBoundary ==> ReflectIndex(p, maxBoundary) == ReflectIndex(-1 - p, maxBoundary)
    ensures 0 <= p < 2 * maxBoundary ==> ReflectIndex(p, maxBoundary) == ReflectIndex(2 * maxBoundary - 1 - p, maxBoundary)
  {
  }

  /** Reflect-101 is symmetric about index 0 and about index maxBoundary - 1,
      within one period. */
  lemma Reflect101Symmetric(p: int, maxBoundary: int)
    requires maxBoundary >= 1
    ensures -maxBoundary < p < maxBoundary ==> Reflect101Index(p, maxBoundary) == Reflect101Index(-p, maxBoundary)
    ensures 0 <= p < 2 * maxBoundary - 1 ==> Reflect101Index(p, maxBoundary) == Reflect101Index(2 * maxBoundary - 2 - p, maxBoundary)
  {
  }

  /** The source computes in 32-bit `int`. For int32 arguments with
      `p > INT32_MIN` and a positive bound, every intermediate value of the
      non-constant policies (`-p`, `-p - 1`, `p - maxBoundary`,
      `maxBoundary - (p - maxBoundary) - 2`) fits in int32, so the unbounded
      model computes what the source computes. */
  lemma IntermediatesFitInt32(p: int, maxBoundary: int)
    requires INT32_MIN < p <= INT32_MAX
    requires 1 <= maxBoundary <= INT32_MAX
    ensures InRange(Int, -p) && InRange(Int, -p - 1)
    ensures p >= maxBoundary ==> InRange(Int, p - maxBoundary)
    ensures p >= maxBoundary ==> InRange(Int, maxBoundary - (p - maxBoundary) - 2)
  {
  }
}
