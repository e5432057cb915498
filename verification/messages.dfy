/** What a rule's violation message says, as a kind plus the numbers it
    quotes. Translation, pluralisation and wording are outside the model. */
module Messages {

  /** The message kinds of the count rules: "at least n", "none", "at most n",
      "exactly n" and "between a and b". */
  datatype Message =
    | AtLeast(count: int)
    | NoneAllowed
    | AtMost(count: int)
    | Exactly(count: int)
    | Between(low: int, high: int)

  /** The values a reader of the message takes to be allowed. */
  predicate Admits(m: Message, n: int) {
    match m
    case AtLeast(k) => k <= n
    case NoneAllowed => n == 0
    case AtMost(k) => n <= k
    case Exactly(k) => n == k
    case Between(lo, hi) => lo <= n <= hi
  }

  /** The exception a rule throws when a password breaks it. */
  datatype RuleException = RuleException(message: Message)
}
