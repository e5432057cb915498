/** The password-change interval rule: weighted constraints on the time since
    the password was last changed, kept in descending weight order. Dates and
    durations are integers in one unit; the constraint class's own interval
    test is modelled as `min <= elapsed <= max`. */
module ChangeWithIntervalRule {
  import opened Wrappers
  import opened Messages
  import opened WeightOrder

  /** A date-interval constraint: minimum and optional maximum time since the
      last change, and a weight. */
  datatype Constraint = Constraint(min: int, max: Option<int>, weight: int)

  /** A former password, with the date it was set. */
  datatype FormerPassword = FormerPassword(hash: string, date: int)

  /** What the rule is given: a bare string, or a password object carrying its
      history, most recent first. */
  datatype Password =
    | Plain(text: string)
    | WithHistory(text: string, formerPasswords: seq<FormerPassword>)

  /** The rule: its constraints, heaviest first. */
  datatype Rule = Rule(constraints: seq<Constraint>)

  /** The validation error `validate` returns. */
  datatype ValidationError = ValidationError(message: Message, password: Password, weight: int)

  function Weight(c: Constraint): int {
    c.weight
  }

  /** The constraint's test on the time elapsed since the last change. */
  predicate Holds(c: Constraint, elapsed: int) {
    c.min <= elapsed && (c.max.None? || elapsed <= c.max.value)
  }

  /** A constraint is looked at when there is no threshold or its weight
      reaches the threshold. */
  predicate Considered(c: Constraint, threshold: Option<int>) {
    threshold.None? || threshold.value <= c.weight
  }

  /** `addConstraint`: append, then stable-sort by descending weight. */
  function AddConstraint(rule: Rule, min: int, max: Option<int>, weight: int): (r: Rule)
    ensures SortedDesc(Weight, r.constraints)
    ensures multiset(r.constraints) == multiset(rule.constraints) + multiset{Constraint(min, max, weight)}
    ensures Stable(Weight, rule.constraints + [Constraint(min, max, weight)], r.constraints)
  {
    var all := rule.constraints + [Constraint(min, max, weight)];
    SortSortsAndPermutes(Weight, all);
    SortIsStable(Weight, all);
    assert multiset(all) == multiset(rule.constraints) + multiset{Constraint(min, max, weight)};
    Rule(StableSort(Weight, all))
  }

  /** The constructor: a rule with one constraint. */
  function New(min: int, max: Option<int>, weight: int): (r: Rule)
    ensures r.constraints == [Constraint(min, max, weight)]
  {
    var r := AddConstraint(Rule([]), min, max, weight);
    assert |r.constraints| == 1 by {
      assert |multiset(r.constraints)| == 1;
    }
    assert r.constraints[0] in multiset(r.constraints);
    r
  }

  /** On a sorted list, `addConstraint` places the new constraint after every
      constraint at least as heavy and before every lighter one, leaving the
      others in place. */
  lemma AddConstraintPlacement(rule: Rule, min: int, max: Option<int>, weight: int) returns (p: nat)
    requires SortedDesc(Weight, rule.constraints)
    ensures p <= |rule.constraints|
    ensures AddConstraint(rule, min, max, weight).constraints
         == rule.constraints[..p] + [Constraint(min, max, weight)] + rule.constraints[p..]
    ensures forall i :: 0 <= i < p ==> rule.constraints[i].weight >= weight
    ensures forall i :: p <= i < |rule.constraints| ==> rule.constraints[i].weight < weight
  {
    var c := Constraint(min, max, weight);
    AppendThenSortIsInsert(Weight, rule.constraints, c);
    p := InsertSplit(Weight, c, rule.constraints);
  }

  /** `getDate`: the date of the most recent former password, if any. */
  function GetDate(password: Password): (r: Option<int>)
    ensures r.Some? <==> password.WithHistory? && |password.formerPasswords| > 0
    ensures r.Some? ==> r.value == password.formerPasswords[0].date
  {
    match password
    case Plain(_) => None
    case WithHistory(_, former) => if former != [] then Some(former[0].date) else None
  }

  /** The loop of `getViolation`: the first considered constraint that fails. */
  function FirstViolation(cs: seq<Constraint>, elapsed: int, threshold: Option<int>): (r: Option<Constraint>)
    ensures r.None? <==> forall i :: 0 <= i < |cs| && Considered(cs[i], threshold) ==> Holds(cs[i], elapsed)
    ensures r.Some? ==> exists i :: 0 <= i < |cs| && cs[i] == r.value &&
                          Considered(cs[i], threshold) && !Holds(cs[i], elapsed) &&
                          forall j :: 0 <= j < i && Considered(cs[j], threshold) ==> Holds(cs[j], elapsed)
  {
    if cs == [] then None
    else if Considered(cs[0], threshold) && !Holds(cs[0], elapsed) then Some(cs[0])
    else
      var r := FirstViolation(cs[1..], elapsed, threshold);
      assert forall i :: 1 <= i < |cs| ==> cs[i] == cs[1..][i - 1];
      if r.Some? then
        var i :| 0 <= i < |cs[1..]| && cs[1..][i] == r.value &&
                 Considered(cs[1..][i], threshold) && !Holds(cs[1..][i], elapsed) &&
                 forall j :: 0 <= j < i && Considered(cs[1..][j], threshold) ==> Holds(cs[1..][j], elapsed);
        assert cs[i + 1] == r.value;
        assert forall j :: 1 <= j < i + 1 ==> cs[j] == cs[1..][j - 1];
        r
      else r
  }

  /** `getViolation`: nothing without a date; otherwise the first failing
      considered constraint, on the time elapsed from `date` to `now`. */
  function GetViolation(rule: Rule, date: Option<int>, now: int, threshold: Option<int>): (r: Option<Constraint>)
    ensures date.None? ==> r.None?
    ensures date.Some? ==> r == FirstViolation(rule.constraints, now - date.value, threshold)
  {
    match date
    case None => None
    case Some(d) => FirstViolation(rule.constraints, now - d, threshold)
  }

  /** `test`: compliant iff no considered constraint fails; without a usable
      date every password complies. The interface's default threshold is 1. */
  function Test(rule: Rule, password: Password, now: int, threshold: Option<int>): (r: bool)
    ensures r <==> (GetDate(password).None? ||
              forall i :: 0 <= i < |rule.constraints| && Considered(rule.constraints[i], threshold) ==>
                Holds(rule.constraints[i], now - GetDate(password).value))
  {
    GetViolation(rule, GetDate(password), now, threshold).None?
  }

  /** `getMessage`'s decision table: no maximum, minimum zero, minimum equal
      to maximum, otherwise a range. There is no "none" branch. */
  function GetMessage(c: Constraint): (m: Message)
    ensures !m.NoneAllowed?
    ensures c.max.None? ==> m == AtLeast(c.min)
    ensures c.max.Some? && c.min == 0 ==> m == AtMost(c.max.value)
    ensures c.max.Some? && c.min != 0 && c.min == c.max.value ==> m == Exactly(c.min)
    ensures c.max.Some? && c.min != 0 && c.min != c.max.value ==> m == Between(c.min, c.max.value)
  {
    match c.max
    case None => AtLeast(c.min)
    case Some(hi) =>
      if c.min == 0 then AtMost(hi)
      else if c.min == hi then Exactly(c.min)
      else Between(c.min, hi)
  }

  /** `validate`: all constraints are considered; the error carries the
      message and weight of the first violated constraint in list order. */
  function Validate(rule: Rule, password: Password, now: int): (r: Option<ValidationError>)
    ensures r.None? <==> Test(rule, password, now, None)
    ensures r.Some? ==> (r.value.password == password &&
              exists i :: 0 <= i < |rule.constraints| &&
                r.value.weight == rule.constraints[i].weight &&
                r.value.message == GetMessage(rule.constraints[i]) &&
                !Holds(rule.constraints[i], now - GetDate(password).value) &&
                forall j :: 0 <= j < i ==> Holds(rule.constraints[j], now - GetDate(password).value))
  {
    match GetViolation(rule, GetDate(password), now, None)
    case None => None
    case Some(c) => Some(ValidationError(GetMessage(c), password, c.weight))
  }

  /** A plain string, or a password without history, always complies. */
  lemma NoDateAlwaysPasses(rule: Rule, password: Password, now: int, threshold: Option<int>)
    requires password.Plain? || password.formerPasswords == []
    ensures Test(rule, password, now, threshold)
    ensures Validate(rule, password, now).None?
  {
  }

  /** A threshold above every weight leaves nothing to violate. */
  lemma HighThresholdPasses(rule: Rule, password: Password, now: int, threshold: int)
    requires forall i :: 0 <= i < |rule.constraints| ==> rule.constraints[i].weight < threshold
    ensures Test(rule, password, now, Some(threshold))
  {
  }

  /** Raising the threshold can only turn failure into compliance, and
      compliance with no threshold implies compliance with any. */
  lemma ThresholdMonotone(rule: Rule, password: Password, now: int, low: int, high: int)
    requires low <= high
    ensures Test(rule, password, now, Some(low)) ==> Test(rule, password, now, Some(high))
    ensures Test(rule, password, now, None) ==> Test(rule, password, now, Some(low))
  {
  }

  /** On a sorted rule the reported violation is a heaviest violated one. */
  lemma ViolationIsHeaviest(rule: Rule, password: Password, now: int)
    requires SortedDesc(Weight, rule.constraints)
    requires Validate(rule, password, now).Some?
    ensures forall j :: (0 <= j < |rule.constraints| &&
              !Holds(rule.constraints[j], now - GetDate(password).value)) ==>
                rule.constraints[j].weight <= Validate(rule, password, now).value.weight
  {
  }

  /** For a constraint with a non-negative minimum and a maximum no smaller
      than it, the message admits exactly the elapsed times that comply. */
  lemma MessageDescribesConstraint(c: Constraint, elapsed: nat)
    requires 0 <= c.min && (c.max.Some? ==> c.min <= c.max.value)
    ensures Admits(GetMessage(c), elapsed) <==> Holds(c, elapsed)
  {
  }

  /** A zero-length window (0, 0) reads "at most 0", not "none": this table
      has no maximum-zero branch. */
  lemma ZeroWindowMessage(weight: int)
    ensures GetMessage(Constraint(0, Some(0), weight)) == AtMost(0)
  {
  }
}
