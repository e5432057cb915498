/** The upper-case rule: bounds on the number of characters that change under
    lower-casing. The lower-casing of one code point is a parameter. */
module UpperCase {
  import opened Wrappers
  import opened Messages
  import opened RangeRule
  import Ascii

  /** The number of characters of `s` that differ from their lower-case form. */
  function UpperCount(lower: char -> char, s: string): (r: nat)
    ensures r <= |s|
    ensures r == 0 <==> forall i :: 0 <= i < |s| ==> lower(s[i]) == s[i]
    ensures r == |s| <==> forall i :: 0 <= i < |s| ==> lower(s[i]) != s[i]
  {
    if s == [] then 0
    else
      var rest := UpperCount(lower, s[1..]);
      assert forall i :: 1 <= i < |s| ==> s[i] == s[1..][i - 1];
      (if s[0] != lower(s[0]) then 1 else 0) + rest
  }

  /** `getCount`: walks the characters from the last to the first and counts
      those whose lower-case form differs. */
  method Count(lower: char -> char, password: string) returns (count: nat)
    ensures count == UpperCount(lower, password)
    ensures count <= |password|
  {
    count := 0;
    var i := |password|;
    while i > 0
      invariant 0 <= i <= |password|
      invariant count == UpperCount(lower, password[i..])
    {
      i := i - 1;
      assert password[i..][1..] == password[i + 1..];
      if password[i] != lower(password[i]) {
        count := count + 1;
      }
    }
    assert password[0..] == password;
  }

  /** The count is additive over concatenation. */
  lemma {:induction false} UpperCountAppend(lower: char -> char, a: string, b: string)
    ensures UpperCount(lower, a + b) == UpperCount(lower, a) + UpperCount(lower, b)
  {
    if a == [] {
      assert a + b == b;
    } else {
      assert (a + b)[1..] == a[1..] + b;
      UpperCountAppend(lower, a[1..], b);
    }
  }

  /** With ASCII lower-casing, a string of `n` capital letters counts `n`,
      and one with no capital letter counts zero. */
  lemma AsciiCount(s: string)
    ensures (forall i :: 0 <= i < |s| ==> Ascii.IsUpper(s[i])) ==> UpperCount(Ascii.ToLower, s) == |s|
    ensures (forall i :: 0 <= i < |s| ==> !Ascii.IsUpper(s[i])) ==> UpperCount(Ascii.ToLower, s) == 0
  {
  }

  /** `test`: the upper-case count lies within the bounds. */
  function Test(b: Bounds, lower: char -> char, password: string): (r: bool)
    ensures r <==> b.min <= UpperCount(lower, password) &&
                   (b.max.None? || UpperCount(lower, password) <= b.max.value)
  {
    RangeRule.Test(b, UpperCount(lower, password))
  }

  /** `enforce`: throws, with the rule's message, exactly when `test` fails. */
  function Enforce(b: Bounds, lower: char -> char, password: string): (r: Outcome<RuleException>)
    ensures r.Pass? <==> Test(b, lower, password)
    ensures r.Fail? ==> r.error.message == CountMessage(b)
  {
    if !Test(b, lower, password) then Fail(RuleException(CountMessage(b))) else Pass
  }

  /** A valid rule's message admits exactly the counts the rule accepts; a
      password without cased characters passes iff the minimum is zero. */
  lemma MessageMatchesCount(b: Bounds, lower: char -> char, password: string)
    requires Valid(b)
    ensures Admits(CountMessage(b), UpperCount(lower, password)) <==> Enforce(b, lower, password).Pass?
    ensures (forall i :: 0 <= i < |password| ==> lower(password[i]) == password[i]) ==>
              (Test(b, lower, password) <==> b.min == 0)
  {
    MessageDescribesTest(b, UpperCount(lower, password));
  }
}
