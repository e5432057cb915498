/** The symbol rule's message table over a count constraint. The constraint
    class and the counting itself belong to the character-class rule, which
    is not part of this model. */
module SymbolRule {
  import opened Wrappers
  import opened Messages
  import RangeRule

  /** A count constraint: bounds on the number of symbols, with a weight. */
  datatype CountConstraint = CountConstraint(min: int, max: Option<int>, weight: int)

  /** A message: its kind, and the symbol characters it quotes. */
  datatype SymbolMessage = SymbolMessage(kind: Message, characters: string)

  /** `getMessage`: the five-way table, with the rule's characters quoted in
      every branch. */
  function GetMessage(constraint: CountConstraint, characters: string): (r: SymbolMessage)
    ensures r.characters == characters
    ensures constraint.max.None? ==> r.kind == AtLeast(constraint.min)
    ensures constraint.max == Some(0) ==> r.kind == NoneAllowed
    ensures constraint.min == 0 && constraint.max.Some? && constraint.max.value != 0 ==>
              r.kind == AtMost(constraint.max.value)
    ensures constraint.min != 0 && constraint.max == Some(constraint.min) ==>
              r.kind == Exactly(constraint.min)
    ensures (constraint.max.Some? && constraint.max.value != 0 && constraint.min != 0 &&
             constraint.min != constraint.max.value) ==> r.kind == Between(constraint.min, constraint.max.value)
  {
    SymbolMessage(RangeRule.CountMessage(RangeRule.Bounds(constraint.min, constraint.max)), characters)
  }

  /** For a constraint with a non-negative minimum and a maximum no smaller
      than it, the message admits exactly the symbol counts within its bounds. */
  lemma MessageDescribesConstraint(constraint: CountConstraint, characters: string, count: nat)
    requires 0 <= constraint.min
    requires constraint.max.Some? ==> constraint.min <= constraint.max.value
    ensures Admits(GetMessage(constraint, characters).kind, count) <==>
              constraint.min <= count && (constraint.max.None? || count <= constraint.max.value)
  {
  }

  /** The table's rows, one sample each, with the characters "$%" quoted:
      (3, none), (0, 0), (0, 5), (2, 2) and (1, 4). */
  lemma Samples(weight: int)
    ensures GetMessage(CountConstraint(3, None, weight), "$%") == SymbolMessage(AtLeast(3), "$%")
    ensures GetMessage(CountConstraint(0, Some(0), weight), "$%") == SymbolMessage(NoneAllowed, "$%")
    ensures GetMessage(CountConstraint(0, Some(5), weight), "$%") == SymbolMessage(AtMost(5), "$%")
    ensures GetMessage(CountConstraint(2, Some(2), weight), "$%") == SymbolMessage(Exactly(2), "$%")
    ensures GetMessage(CountConstraint(1, Some(4), weight), "$%") == SymbolMessage(Between(1, 4), "$%")
  {
  }
}
