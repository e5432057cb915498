/** The enumeration step shared by the branching word formatters: a set of
    candidate first characters combined with every variant of the rest of the
    word. Both the leetspeak decoder and the mixed-case formatter loop over
    the suffix variants on the outside and over the first-character choices
    on the inside, so the first character varies fastest. */
module Variants {

  /** Every character of `letters` prepended to `suffix`, in order. */
  function Prefixed(letters: seq<char>, suffix: string): (r: seq<string>)
    ensures |r| == |letters|
    ensures forall i :: 0 <= i < |letters| ==> r[i] == [letters[i]] + suffix
  {
    seq(|letters|, i requires 0 <= i < |letters| => [letters[i]] + suffix)
  }

  /** `foreach (suffixes as suffix) foreach (letters as c) yield c.suffix`. */
  function Expand(letters: seq<char>, suffixes: seq<string>): (r: seq<string>)
    ensures |r| == |letters| * |suffixes|
  {
    if suffixes == [] then []
    else
      var rest := Expand(letters, suffixes[1..]);
      assert |letters| * |suffixes| == |letters| + |letters| * |suffixes[1..]| by {
        assert |suffixes| == 1 + |suffixes[1..]|;
      }
      Prefixed(letters, suffixes[0]) + rest
  }

  /** Position `j * |letters| + i` of the product holds letter `i` in front of
      suffix `j`: the letter index is the fast-moving one. */
  lemma {:induction false} ExpandAt(letters: seq<char>, suffixes: seq<string>, j: nat, i: nat)
    requires j < |suffixes| && i < |letters|
    ensures j * |letters| + i < |Expand(letters, suffixes)|
    ensures Expand(letters, suffixes)[j * |letters| + i] == [letters[i]] + suffixes[j]
  {
    var r := Expand(letters, suffixes);
    var head := Prefixed(letters, suffixes[0]);
    var rest := Expand(letters, suffixes[1..]);
    assert r == head + rest;
    if j == 0 {
      assert r[i] == head[i];
    } else {
      ExpandAt(letters, suffixes[1..], j - 1, i);
      assert j * |letters| + i == |letters| + ((j - 1) * |letters| + i);
      assert r[j * |letters| + i] == rest[(j - 1) * |letters| + i];
    }
  }

  /** A string is in the product exactly when its first character is one of
      the letters and the remainder is one of the suffixes. */
  lemma {:induction false} ExpandMember(letters: seq<char>, suffixes: seq<string>, s: string)
    ensures s in Expand(letters, suffixes) <==> |s| > 0 && s[0] in letters && s[1..] in suffixes
  {
    if suffixes == [] {
    } else {
      var head := Prefixed(letters, suffixes[0]);
      var rest := Expand(letters, suffixes[1..]);
      assert Expand(letters, suffixes) == head + rest;
      ExpandMember(letters, suffixes[1..], s);
      if s in head {
        var i :| 0 <= i < |head| && head[i] == s;
        assert s[1..] == suffixes[0];
      }
      if |s| > 0 && s[0] in letters && s[1..] == suffixes[0] {
        var i :| 0 <= i < |letters| && letters[i] == s[0];
        assert head[i] == s;
      }
      assert suffixes == [suffixes[0]] + suffixes[1..];
    }
  }

  /** The first enumerated variant takes the first letter and the first suffix. */
  lemma ExpandFirst(letters: seq<char>, suffixes: seq<string>)
    requires |letters| > 0 && |suffixes| > 0
    ensures Expand(letters, suffixes)[0] == [letters[0]] + suffixes[0]
  {
    ExpandAt(letters, suffixes, 0, 0);
  }

  /** Each variant is one character longer than the suffix it was built from. */
  lemma {:induction false} ExpandLength(letters: seq<char>, suffixes: seq<string>, n: nat)
    requires forall k :: 0 <= k < |suffixes| ==> |suffixes[k]| == n
    ensures forall k :: 0 <= k < |Expand(letters, suffixes)| ==> |Expand(letters, suffixes)[k]| == n + 1
  {
    if suffixes != [] {
      ExpandLength(letters, suffixes[1..], n);
    }
  }
}
