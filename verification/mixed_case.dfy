/** The mixed-case word formatter: every combination of case forms of the
    characters of a word. The character case mapping (`mb_strtolower`,
    `mb_strtoupper` on one code point) is a parameter. */
module MixedCase {
  import opened Variants
  import Ascii

  /** The forms tried for one character: the character itself, then its
      lower-case form when that differs, then its upper-case form when that
      differs. */
  function Branches(lower: char -> char, upper: char -> char, c: char): (r: seq<char>)
    ensures 1 <= |r| <= 3 && r[0] == c
    ensures forall x :: x in r <==> x == c || x == lower(c) || x == upper(c)
    ensures |r| == 1 + (if lower(c) != c then 1 else 0) + (if upper(c) != c then 1 else 0)
  {
    [c] + (if lower(c) != c then [lower(c)] else []) + (if upper(c) != c then [upper(c)] else [])
  }

  /** `formatWord`: all case variants of `w`, first character varying fastest. */
  function FormatWord(lower: char -> char, upper: char -> char, w: string): seq<string> {
    if w == [] then [[]]
    else Expand(Branches(lower, upper, w[0]), FormatWord(lower, upper, w[1..]))
  }

  /** `apply`: each word's variants, concatenated in input order. */
  function Apply(lower: char -> char, upper: char -> char, words: seq<string>): seq<string> {
    if words == [] then [] else FormatWord(lower, upper, words[0]) + Apply(lower, upper, words[1..])
  }

  /** The product of the per-character branch counts. */
  function BranchProduct(lower: char -> char, upper: char -> char, w: string): nat {
    if w == [] then 1 else |Branches(lower, upper, w[0])| * BranchProduct(lower, upper, w[1..])
  }

  /** The empty word yields exactly one variant, the empty string. */
  lemma EmptyWord(lower: char -> char, upper: char -> char)
    ensures FormatWord(lower, upper, []) == [[]]
  {
  }

  /** A variant is produced iff it has the word's length and each of its
      characters is one of the branches of the word's character there. */
  lemma {:induction false} VariantsCharacterised(lower: char -> char, upper: char -> char, w: string, v: string)
    ensures v in FormatWord(lower, upper, w) <==>
      |v| == |w| && forall i :: 0 <= i < |w| ==> v[i] in Branches(lower, upper, w[i])
  {
    if w != [] {
      var rest := FormatWord(lower, upper, w[1..]);
      ExpandMember(Branches(lower, upper, w[0]), rest, v);
      if |v| > 0 {
        VariantsCharacterised(lower, upper, w[1..], v[1..]);
      }
      if |v| == |w| && forall i :: 0 <= i < |w| ==> v[i] in Branches(lower, upper, w[i]) {
        assert v[0] in Branches(lower, upper, w[0]);
        forall i | 0 <= i < |w[1..]|
          ensures v[1..][i] in Branches(lower, upper, w[1..][i])
        {
          assert v[1..][i] == v[i + 1] && w[1..][i] == w[i + 1];
        }
      }
      if v in FormatWord(lower, upper, w) {
        forall i | 0 <= i < |w|
          ensures v[i] in Branches(lower, upper, w[i])
        {
          if i > 0 {
            assert v[1..][i - 1] == v[i] && w[1..][i - 1] == w[i];
          }
        }
      }
    }
  }

  /** Every variant has the word's length, and at each position holds the
      input character, its lower-case or its upper-case form. */
  lemma VariantShape(lower: char -> char, upper: char -> char, w: string, v: string)
    requires v in FormatWord(lower, upper, w)
    ensures |v| == |w|
    ensures forall i :: 0 <= i < |w| ==> v[i] == w[i] || v[i] == lower(w[i]) || v[i] == upper(w[i])
  {
    VariantsCharacterised(lower, upper, w, v);
  }

  /** A character without case distinction contributes exactly one branch. */
  lemma CaselessSingleBranch(lower: char -> char, upper: char -> char, c: char)
    requires lower(c) == c && upper(c) == c
    ensures Branches(lower, upper, c) == [c]
  {
  }

  /** The number of variants is the product of the per-character branch
      counts; duplicates are kept. */
  lemma {:induction false} VariantCount(lower: char -> char, upper: char -> char, w: string)
    ensures |FormatWord(lower, upper, w)| == BranchProduct(lower, upper, w)
  {
    if w != [] {
      VariantCount(lower, upper, w[1..]);
    }
  }

  /** The first variant produced is the word itself. */
  lemma {:induction false} FirstVariantIsWord(lower: char -> char, upper: char -> char, w: string)
    ensures |FormatWord(lower, upper, w)| > 0
    ensures FormatWord(lower, upper, w)[0] == w
  {
    if w != [] {
      FirstVariantIsWord(lower, upper, w[1..]);
      ExpandFirst(Branches(lower, upper, w[0]), FormatWord(lower, upper, w[1..]));
      assert [w[0]] + w[1..] == w;
    }
  }

  /** The first character varies fastest: variant `j * b + i`, with `b` the
      first character's branch count, is branch `i` of the first character
      in front of suffix variant `j`. */
  lemma FirstCharFastest(lower: char -> char, upper: char -> char, w: string, j: nat, i: nat)
    requires |w| > 0
    requires j < |FormatWord(lower, upper, w[1..])| && i < |Branches(lower, upper, w[0])|
    ensures j * |Branches(lower, upper, w[0])| + i < |FormatWord(lower, upper, w)|
    ensures FormatWord(lower, upper, w)[j * |Branches(lower, upper, w[0])| + i]
         == [Branches(lower, upper, w[0])[i]] + FormatWord(lower, upper, w[1..])[j]
  {
    ExpandAt(Branches(lower, upper, w[0]), FormatWord(lower, upper, w[1..]), j, i);
  }

  function Pow2(n: nat): nat {
    if n == 0 then 1 else 2 * Pow2(n - 1)
  }

  /** With ASCII case mapping, a word of `n` letters has exactly 2^n variants. */
  lemma {:induction false} AsciiLettersDoubling(w: string)
    requires forall i :: 0 <= i < |w| ==> Ascii.IsLetter(w[i])
    ensures |FormatWord(Ascii.ToLower, Ascii.ToUpper, w)| == Pow2(|w|)
  {
    VariantCount(Ascii.ToLower, Ascii.ToUpper, w);
    AsciiLettersProduct(w);
  }

  lemma {:induction false} AsciiLettersProduct(w: string)
    requires forall i :: 0 <= i < |w| ==> Ascii.IsLetter(w[i])
    ensures BranchProduct(Ascii.ToLower, Ascii.ToUpper, w) == Pow2(|w|)
  {
    if w != [] {
      assert Ascii.IsLetter(w[0]);
      assert |Branches(Ascii.ToLower, Ascii.ToUpper, w[0])| == 2;
      AsciiLettersProduct(w[1..]);
    }
  }

  /** "ab" yields "ab", "Ab", "aB", "AB", in that order. */
  lemma TwoLetterExample()
    ensures FormatWord(Ascii.ToLower, Ascii.ToUpper, "ab") == ["ab", "Ab", "aB", "AB"]
  {
    var lo, up := Ascii.ToLower, Ascii.ToUpper;
    assert Branches(lo, up, 'b') == ['b', 'B'];
    assert Branches(lo, up, 'a') == ['a', 'A'];
    var one := FormatWord(lo, up, "b");
    assert one == Expand(['b', 'B'], [[]]);
    ExpandAt(['b', 'B'], [[]], 0, 0);
    ExpandAt(['b', 'B'], [[]], 0, 1);
    assert |one| == 2;
    assert one[0] == ['b'] + [] == "b";
    assert one[1] == ['B'] + [] == "B";
    assert one == ["b", "B"];
    assert "ab"[1..] == "b";
    var two := FormatWord(lo, up, "ab");
    assert two == Expand(['a', 'A'], ["b", "B"]);
    ExpandAt(['a', 'A'], ["b", "B"], 0, 0);
    ExpandAt(['a', 'A'], ["b", "B"], 0, 1);
    ExpandAt(['a', 'A'], ["b", "B"], 1, 0);
    ExpandAt(['a', 'A'], ["b", "B"], 1, 1);
    assert |two| == 4;
    assert two[0] == ['a'] + "b" == "ab";
    assert two[1] == ['A'] + "b" == "Ab";
    assert two[2] == ['a'] + "B" == "aB";
    assert two[3] == ['A'] + "B" == "AB";
  }

  /** `apply` on a concatenation is the concatenation of the outputs. */
  lemma {:induction false} ApplyAppend(lower: char -> char, upper: char -> char, a: seq<string>, b: seq<string>)
    ensures Apply(lower, upper, a + b) == Apply(lower, upper, a) + Apply(lower, upper, b)
  {
    if a == [] {
      assert a + b == b;
    } else {
      assert (a + b)[1..] == a[1..] + b;
      ApplyAppend(lower, upper, a[1..], b);
    }
  }

  /** `apply` on one word is that word's variants. */
  lemma ApplySingle(lower: char -> char, upper: char -> char, w: string)
    ensures Apply(lower, upper, [w]) == FormatWord(lower, upper, w)
  {
    assert Apply(lower, upper, [w]) == FormatWord(lower, upper, w) + Apply(lower, upper, []);
  }
}
