/** The `(min, max)` configuration shared by the count rules (length, upper
    case, breach count): constructor validation, the range test, and the
    five-way message decision table. */
module RangeRule {
  import opened Wrappers
  import opened Messages

  /** A lower bound and an optional upper bound on a count. */
  datatype Bounds = Bounds(min: int, max: Option<int>)

  /** The constructor's `InvalidArgumentException`s, in the order checked. */
  datatype ConfigError = NegativeMin | MaxBelowMin | ZeroMinUnbounded

  /** The configurations the constructor accepts: a non-negative minimum, a
      maximum no smaller than it, and at least one real constraint. */
  predicate Valid(b: Bounds) {
    0 <= b.min && match b.max
      case None => 0 < b.min
      case Some(hi) => b.min <= hi
  }

  /** The constructor. On success the getters return exactly the arguments;
      otherwise the first failing check decides the error. */
  function New(min: int, max: Option<int>): (r: Result<Bounds, ConfigError>)
    ensures r.Success? <==> Valid(Bounds(min, max))
    ensures r.Success? ==> r.value.min == min && r.value.max == max
    ensures min < 0 ==> r == Failure(NegativeMin)
    ensures 0 <= min && max.Some? && max.value < min ==> r == Failure(MaxBelowMin)
    ensures r == Failure(ZeroMinUnbounded) <==> min == 0 && max.None?
  {
    if min < 0 then Failure(NegativeMin)
    else if max.Some? && max.value < min then Failure(MaxBelowMin)
    else if min == 0 && max.None? then Failure(ZeroMinUnbounded)
    else Success(Bounds(min, max))
  }

  /** `test`: the count is rejected when below the minimum, or above the
      maximum when one is set. */
  function Test(b: Bounds, count: int): (r: bool)
    ensures r <==> b.min <= count && (b.max.None? || count <= b.max.value)
  {
    if count < b.min then false
    else if b.max.Some? && b.max.value < count then false
    else true
  }

  /** `getMessage`: the decision table, checked in this order: no maximum,
      maximum zero, minimum zero, minimum equal to maximum, otherwise a range. */
  function CountMessage(b: Bounds): (m: Message)
    ensures b.max.None? ==> m == AtLeast(b.min)
    ensures b.max == Some(0) ==> m == NoneAllowed
    ensures b.max.Some? && b.max.value != 0 && b.min == 0 ==> m == AtMost(b.max.value)
    ensures b.max.Some? && b.max.value != 0 && b.min != 0 && b.min == b.max.value ==> m == Exactly(b.min)
    ensures b.max.Some? && b.max.value != 0 && b.min != 0 && b.min != b.max.value ==>
              m == Between(b.min, b.max.value)
  {
    match b.max
    case None => AtLeast(b.min)
    case Some(hi) =>
      if hi == 0 then NoneAllowed
      else if b.min == 0 then AtMost(hi)
      else if b.min == hi then Exactly(b.min)
      else Between(b.min, hi)
  }

  /** For every configuration the constructor accepts, the message admits
      exactly the counts the test accepts. */
  lemma MessageDescribesTest(b: Bounds, count: nat)
    requires Valid(b)
    ensures Admits(CountMessage(b), count) <==> Test(b, count)
  {
  }

  /** With both bounds zero only a count of zero passes, and the message says
      "none": the maximum-zero branch comes before the minimum-zero and
      minimum-equals-maximum branches. */
  lemma ZeroZero(count: nat)
    ensures CountMessage(Bounds(0, Some(0))) == NoneAllowed
    ensures Test(Bounds(0, Some(0)), count) <==> count == 0
  {
  }
}
