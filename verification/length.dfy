/** The length rule: bounds on the number of characters (code points). */
module Length {
  import opened Wrappers
  import opened Messages
  import opened RangeRule

  /** `test`: the character length lies within the bounds. */
  function Test(b: Bounds, password: string): (r: bool)
    ensures r <==> b.min <= |password| && (b.max.None? || |password| <= b.max.value)
  {
    RangeRule.Test(b, |password|)
  }

  /** `enforce`: throws, with the rule's message, exactly when `test` fails. */
  function Enforce(b: Bounds, password: string): (r: Outcome<RuleException>)
    ensures r.Pass? <==> Test(b, password)
    ensures r.Fail? ==> r.error.message == CountMessage(b)
  {
    if !Test(b, password) then Fail(RuleException(CountMessage(b))) else Pass
  }

  /** A valid rule's message admits exactly the lengths the rule accepts, and
      appending characters to a too-long password never makes it pass. */
  lemma MessageMatchesLength(b: Bounds, password: string, extra: string)
    requires Valid(b)
    ensures Admits(CountMessage(b), |password|) <==> Enforce(b, password).Pass?
    ensures !Test(b, password) && b.min <= |password| ==> !Test(b, password + extra)
  {
    MessageDescribesTest(b, |password|);
  }
}
