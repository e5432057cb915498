/** The identity word formatter: the pass-through stage of a formatter chain. */
module Unformatter {
  import LeetDecoder
  import MixedCase

  /** `applyCurrent`: yields the words it is given, as they are. */
  function ApplyCurrent(words: seq<string>): (r: seq<string>)
    ensures |r| == |words|
    ensures forall i :: 0 <= i < |words| ==> r[i] == words[i]
  {
    words
  }

  /** Applying the stage twice is applying it once, and no input gives no output. */
  lemma Idempotent(words: seq<string>)
    ensures ApplyCurrent(ApplyCurrent(words)) == ApplyCurrent(words)
    ensures ApplyCurrent([]) == []
  {
  }

  /** The stage is a neutral element for the other formatters: placing it
      before or after a decoding or case-expansion stage changes nothing. */
  lemma NeutralInChain(t: LeetDecoder.Table, lower: char -> char, upper: char -> char, words: seq<string>)
    requires LeetDecoder.WellFormed(t)
    ensures LeetDecoder.ApplyWith(t, ApplyCurrent(words)) == LeetDecoder.ApplyWith(t, words)
    ensures ApplyCurrent(LeetDecoder.ApplyWith(t, words)) == LeetDecoder.ApplyWith(t, words)
    ensures MixedCase.Apply(lower, upper, ApplyCurrent(words)) == MixedCase.Apply(lower, upper, words)
    ensures ApplyCurrent(MixedCase.Apply(lower, upper, words)) == MixedCase.Apply(lower, upper, words)
  {
  }
}
