/** The leetspeak decoder word formatter: a fixed table says which tokens
    encode which plain letters; the constructor inverts it into a decode
    table, and a word decodes by repeatedly choosing a token (or the literal
    first character) at the front of the remaining text. */
module LeetDecoder {
  import opened Variants

  /** One row of the encode table: a plain letter and the tokens standing for it. */
  datatype EncodeRow = EncodeRow(letter: char, tokens: seq<string>)

  /** The encode table, in the order it is declared. */
  const EncodeMap: seq<EncodeRow> := [
    EncodeRow('A', ["4", "@", "∂"]),
    EncodeRow('B', ["8", "ß"]),
    EncodeRow('C', ["(", "¢", "<", "[", "©"]),
    EncodeRow('D', ["∂"]),
    EncodeRow('E', ["3", "€", "є"]),
    EncodeRow('F', ["ƒ"]),
    EncodeRow('G', ["6", "9"]),
    EncodeRow('H', ["#"]),
    EncodeRow('I', ["1", "!", "|", ":"]),
    EncodeRow('J', ["¿"]),
    EncodeRow('K', ["X"]),
    EncodeRow('L', ["1", "£", "ℓ"]),
    EncodeRow('O', ["0", "°"]),
    EncodeRow('R', ["2", "®", "Я"]),
    EncodeRow('S', ["5", "$", "§"]),
    EncodeRow('T', ["7", "†"]),
    EncodeRow('U', ["µ"]),
    EncodeRow('W', ["vv"]),
    EncodeRow('X', ["×"]),
    EncodeRow('Y', ["φ", "¥"]),
    EncodeRow('Z', ["2", "≥"])
  ]

  /** An entry of a decode table: a token and the letters it may stand for. */
  datatype Entry = Entry(token: string, letters: seq<char>)

  /** An insertion-ordered map from tokens to letter lists. */
  type Table = seq<Entry>

  function Tokens(t: Table): (r: seq<string>)
    ensures |r| == |t|
    ensures forall i :: 0 <= i < |t| ==> r[i] == t[i].token
  {
    seq(|t|, i requires 0 <= i < |t| => t[i].token)
  }

  predicate Distinct(xs: seq<string>) {
    forall i, j :: 0 <= i < j < |xs| ==> xs[i] != xs[j]
  }

  /** No token is empty; an empty token would make decoding loop forever. */
  predicate WellFormed(t: Table) {
    forall i :: 0 <= i < |t| ==> |t[i].token| > 0
  }

  predicate IsPrefix(p: string, w: string) {
    |p| <= |w| && w[..|p|] == p
  }

  /** The letters recorded for token `k` (the first entry with that token). */
  function Lookup(t: Table, k: string): seq<char> {
    if t == [] then []
    else if t[0].token == k then t[0].letters
    else Lookup(t[1..], k)
  }

  /** Some entry of `t` lists letter `c` for token `k`. */
  ghost predicate Maps(t: Table, k: string, c: char) {
    t != [] && ((t[0].token == k && c in t[0].letters) || Maps(t[1..], k, c))
  }

  lemma {:induction false} MapsAt(t: Table, k: string, c: char)
    ensures Maps(t, k, c) <==> exists i :: 0 <= i < |t| && t[i].token == k && c in t[i].letters
  {
    if t != [] {
      MapsAt(t[1..], k, c);
      if exists i :: 0 <= i < |t| && t[i].token == k && c in t[i].letters {
        var i :| 0 <= i < |t| && t[i].token == k && c in t[i].letters;
        if i > 0 {
          assert t[1..][i - 1] == t[i];
        }
      }
      if exists i :: 0 <= i < |t[1..]| && t[1..][i].token == k && c in t[1..][i].letters {
        var i :| 0 <= i < |t[1..]| && t[1..][i].token == k && c in t[1..][i].letters;
        assert t[i + 1] == t[1..][i];
      }
    }
  }

  /** `$table[$k][] = $c`: append `c` to the entry for `k`, or add the entry
      at the end when `k` is not yet a key. */
  function Push(t: Table, k: string, c: char): (r: Table)
    ensures Tokens(r) == if k in Tokens(t) then Tokens(t) else Tokens(t) + [k]
  {
    if t == [] then [Entry(k, [c])]
    else if t[0].token == k then
      assert Tokens(t)[0] == k;
      assert Tokens([Entry(k, t[0].letters + [c])] + t[1..]) == Tokens(t);
      [Entry(k, t[0].letters + [c])] + t[1..]
    else
      var rest := Push(t[1..], k, c);
      var r := [t[0]] + rest;
      assert Tokens(t) == [t[0].token] + Tokens(t[1..]);
      assert Tokens(r) == [t[0].token] + Tokens(rest);
      r
  }

  /** Pushing appends the letter to its token's letter list and leaves every
      other token's list alone. */
  lemma {:induction false} PushLookup(t: Table, k: string, c: char, k': string)
    ensures Lookup(Push(t, k, c), k') == Lookup(t, k') + (if k' == k then [c] else [])
  {
    if t != [] && t[0].token != k {
      PushLookup(t[1..], k, c, k');
      assert Push(t, k, c)[1..] == Push(t[1..], k, c);
    }
  }

  lemma {:induction false} PushMaps(t: Table, k0: string, c0: char, k: string, c: char)
    ensures Maps(Push(t, k0, c0), k, c) <==> Maps(t, k, c) || (k == k0 && c == c0)
  {
    if t != [] && t[0].token != k0 {
      PushMaps(t[1..], k0, c0, k, c);
      assert Push(t, k0, c0)[1..] == Push(t[1..], k0, c0);
    } else if t != [] {
      assert Push(t, k0, c0)[1..] == t[1..];
    }
  }

  // ---------------------------------------------------------------------
  // The constructor: inverting the encode table.
  // ---------------------------------------------------------------------

  /** One (token, letter) pair of the encode table, in iteration order. */
  datatype Occurrence = Occurrence(token: string, letter: char)

  function RowOccurrences(row: EncodeRow): (r: seq<Occurrence>)
    ensures |r| == |row.tokens|
    ensures forall i :: 0 <= i < |r| ==> r[i] == Occurrence(row.tokens[i], row.letter)
  {
    seq(|row.tokens|, i requires 0 <= i < |row.tokens| => Occurrence(row.tokens[i], row.letter))
  }

  /** The pairs visited by the constructor's two nested loops. */
  function Occurrences(enc: seq<EncodeRow>): seq<Occurrence> {
    if enc == [] then [] else RowOccurrences(enc[0]) + Occurrences(enc[1..])
  }

  /** The constructor's loop body applied to each pair in turn. */
  function Build(acc: Table, occs: seq<Occurrence>): Table
    decreases |occs|
  {
    if occs == [] then acc
    else Build(Push(acc, occs[0].token, occs[0].letter), occs[1..])
  }

  /** The decode table built by the constructor from an encode table. */
  function Invert(enc: seq<EncodeRow>): Table {
    Build([], Occurrences(enc))
  }

  /** Reference reading of the inverse: the letters whose token list contains
      `k`, once per occurrence, in encode-table order. */
  function LettersOf(enc: seq<EncodeRow>, k: string): seq<char> {
    if enc == [] then []
    else RowLetters(enc[0], k) + LettersOf(enc[1..], k)
  }

  function RowLetters(row: EncodeRow, k: string): seq<char> {
    LettersFor(RowOccurrences(row), k)
  }

  function LettersFor(occs: seq<Occurrence>, k: string): seq<char> {
    if occs == [] then []
    else (if occs[0].token == k then [occs[0].letter] else []) + LettersFor(occs[1..], k)
  }

  lemma {:induction false} LettersForAppend(a: seq<Occurrence>, b: seq<Occurrence>, k: string)
    ensures LettersFor(a + b, k) == LettersFor(a, k) + LettersFor(b, k)
  {
    if a == [] {
      assert a + b == b;
    } else {
      var ab := a + b;
      assert ab[0] == a[0] && ab[1..] == a[1..] + b;
      LettersForAppend(a[1..], b, k);
      assert LettersFor(ab, k) == (if a[0].token == k then [a[0].letter] else []) + LettersFor(a[1..] + b, k);
    }
  }

  lemma {:induction false} LettersForOccurrences(enc: seq<EncodeRow>, k: string)
    ensures LettersFor(Occurrences(enc), k) == LettersOf(enc, k)
  {
    if enc != [] {
      LettersForAppend(RowOccurrences(enc[0]), Occurrences(enc[1..]), k);
      LettersForOccurrences(enc[1..], k);
    }
  }

  lemma {:induction false} BuildLookup(acc: Table, occs: seq<Occurrence>, k: string)
    ensures Lookup(Build(acc, occs), k) == Lookup(acc, k) + LettersFor(occs, k)
    decreases |occs|
  {
    if occs != [] {
      var next := Push(acc, occs[0].token, occs[0].letter);
      PushLookup(acc, occs[0].token, occs[0].letter, k);
      BuildLookup(next, occs[1..], k);
    }
  }

  /** Keys in order of first appearance. */
  function Dedup(seen: seq<string>, xs: seq<string>): seq<string>
    decreases |xs|
  {
    if xs == [] then seen
    else Dedup(if xs[0] in seen then seen else seen + [xs[0]], xs[1..])
  }

  function OccurrenceTokens(occs: seq<Occurrence>): (r: seq<string>)
    ensures |r| == |occs|
    ensures forall i :: 0 <= i < |occs| ==> r[i] == occs[i].token
  {
    seq(|occs|, i requires 0 <= i < |occs| => occs[i].token)
  }

  lemma {:induction false} BuildTokens(acc: Table, occs: seq<Occurrence>)
    ensures Tokens(Build(acc, occs)) == Dedup(Tokens(acc), OccurrenceTokens(occs))
    decreases |occs|
  {
    if occs != [] {
      var next := Push(acc, occs[0].token, occs[0].letter);
      BuildTokens(next, occs[1..]);
      assert OccurrenceTokens(occs)[1..] == OccurrenceTokens(occs[1..]);
    }
  }

  lemma {:induction false} DedupDistinct(seen: seq<string>, xs: seq<string>)
    requires Distinct(seen)
    ensures Distinct(Dedup(seen, xs))
    ensures forall x :: x in Dedup(seen, xs) <==> x in seen || x in xs
    decreases |xs|
  {
    if xs != [] {
      var next := if xs[0] in seen then seen else seen + [xs[0]];
      DedupDistinct(next, xs[1..]);
      assert xs == [xs[0]] + xs[1..];
    }
  }

  /** Every token of the table occurs in the encode table, and every token
      of the encode table is a key exactly once. */
  lemma {:induction false} OccurrenceTokenIn(enc: seq<EncodeRow>, k: string)
    ensures k in OccurrenceTokens(Occurrences(enc)) <==> exists r :: 0 <= r < |enc| && k in enc[r].tokens
  {
    if enc != [] {
      OccurrenceTokenIn(enc[1..], k);
      var head := RowOccurrences(enc[0]);
      var tail := Occurrences(enc[1..]);
      assert OccurrenceTokens(head + tail) == OccurrenceTokens(head) + OccurrenceTokens(tail);
      assert OccurrenceTokens(head) == enc[0].tokens;
      if exists r :: 0 <= r < |enc| && k in enc[r].tokens {
        var r :| 0 <= r < |enc| && k in enc[r].tokens;
        if r > 0 {
          assert enc[1..][r - 1] == enc[r];
        }
      }
      if exists r :: 0 <= r < |enc[1..]| && k in enc[1..][r].tokens {
        var r :| 0 <= r < |enc[1..]| && k in enc[1..][r].tokens;
        assert enc[r + 1] == enc[1..][r];
      }
    }
  }

  /** The constructor builds the exact inverse of the encode table: its keys
      are the encode tokens, each once, in order of first appearance, and the
      letters of each key are the letters whose token list names it, in
      encode-table order. */
  lemma InvertIsInverse(enc: seq<EncodeRow>, k: string)
    ensures Lookup(Invert(enc), k) == LettersOf(enc, k)
    ensures Tokens(Invert(enc)) == Dedup([], OccurrenceTokens(Occurrences(enc)))
    ensures Distinct(Tokens(Invert(enc)))
    ensures k in Tokens(Invert(enc)) <==> exists r :: 0 <= r < |enc| && k in enc[r].tokens
  {
    BuildLookup([], Occurrences(enc), k);
    LettersForOccurrences(enc, k);
    BuildTokens([], Occurrences(enc));
    DedupDistinct([], OccurrenceTokens(Occurrences(enc)));
    OccurrenceTokenIn(enc, k);
  }

  lemma {:induction false} BuildMaps(acc: Table, occs: seq<Occurrence>, k: string, c: char)
    ensures Maps(Build(acc, occs), k, c) <==> Maps(acc, k, c) || Occurrence(k, c) in occs
    decreases |occs|
  {
    if occs != [] {
      var next := Push(acc, occs[0].token, occs[0].letter);
      BuildMaps(next, occs[1..], k, c);
      PushMaps(acc, occs[0].token, occs[0].letter, k, c);
      assert occs == [occs[0]] + occs[1..];
    }
  }

  lemma {:induction false} OccurrencesMember(enc: seq<EncodeRow>, k: string, c: char)
    ensures Occurrence(k, c) in Occurrences(enc) <==> exists r :: 0 <= r < |enc| && enc[r].letter == c && k in enc[r].tokens
  {
    if enc != [] {
      OccurrencesMember(enc[1..], k, c);
      var head := RowOccurrences(enc[0]);
      if Occurrence(k, c) in head {
        var i :| 0 <= i < |head| && head[i] == Occurrence(k, c);
        assert enc[0].tokens[i] == k;
      }
      if enc[0].letter == c && k in enc[0].tokens {
        var i :| 0 <= i < |enc[0].tokens| && enc[0].tokens[i] == k;
        assert head[i] == Occurrence(k, c);
      }
      if exists r :: 0 <= r < |enc| && enc[r].letter == c && k in enc[r].tokens {
        var r :| 0 <= r < |enc| && enc[r].letter == c && k in enc[r].tokens;
        if r > 0 {
          assert enc[1..][r - 1] == enc[r];
        }
      }
      if exists r :: 0 <= r < |enc[1..]| && enc[1..][r].letter == c && k in enc[1..][r].tokens {
        var r :| 0 <= r < |enc[1..]| && enc[1..][r].letter == c && k in enc[1..][r].tokens;
        assert enc[r + 1] == enc[1..][r];
      }
    }
  }

  /** Token `k` lists letter `c` in the inverted table iff `k` is one of the
      tokens of `c`'s row. */
  lemma InvertMaps(enc: seq<EncodeRow>, k: string, c: char)
    ensures Maps(Invert(enc), k, c) <==> exists r :: 0 <= r < |enc| && enc[r].letter == c && k in enc[r].tokens
  {
    BuildMaps([], Occurrences(enc), k, c);
    OccurrencesMember(enc, k, c);
  }

  lemma {:induction false} BuildWellFormed(acc: Table, occs: seq<Occurrence>)
    requires WellFormed(acc)
    requires forall i :: 0 <= i < |occs| ==> |occs[i].token| > 0
    ensures WellFormed(Build(acc, occs))
    decreases |occs|
  {
    if occs != [] {
      var next := Push(acc, occs[0].token, occs[0].letter);
      assert Tokens(next) == if occs[0].token in Tokens(acc) then Tokens(acc) else Tokens(acc) + [occs[0].token];
      forall i | 0 <= i < |next|
        ensures |next[i].token| > 0
      {
        assert next[i].token == Tokens(next)[i];
        if i < |acc| {
          assert Tokens(acc)[i] == acc[i].token;
        }
      }
      BuildWellFormed(next, occs[1..]);
    }
  }

  lemma {:induction false} OccurrencesNonEmpty(enc: seq<EncodeRow>)
    requires TokensNonEmpty(enc)
    ensures forall i :: 0 <= i < |Occurrences(enc)| ==> |Occurrences(enc)[i].token| > 0
  {
    if enc != [] {
      OccurrencesNonEmpty(enc[1..]);
      var head: seq<Occurrence> := RowOccurrences(enc[0]);
      var tail: seq<Occurrence> := Occurrences(enc[1..]);
      forall i | 0 <= i < |head + tail|
        ensures |(head + tail)[i].token| > 0
      {
        if i >= |head| {
          assert (head + tail)[i] == tail[i - |head|];
        }
      }
    }
  }

  /** `t` is an inverse of the encode table `enc`: its keys are distinct and
      token `k` lists letter `c` exactly when `k` is among `c`'s tokens. */
  ghost predicate IsInverseOf(t: Table, enc: seq<EncodeRow>) {
    && Distinct(Tokens(t))
    && forall k, c :: Maps(t, k, c) <==> exists r :: 0 <= r < |enc| && enc[r].letter == c && k in enc[r].tokens
  }

  lemma InvertIsInverseOf(enc: seq<EncodeRow>)
    ensures IsInverseOf(Invert(enc), enc)
  {
    InvertIsInverse(enc, []);
    forall k, c
      ensures Maps(Invert(enc), k, c) <==> exists r :: 0 <= r < |enc| && enc[r].letter == c && k in enc[r].tokens
    {
      InvertMaps(enc, k, c);
    }
  }

  lemma {:induction false} OccurrencesAppend(a: seq<EncodeRow>, b: seq<EncodeRow>)
    ensures Occurrences(a + b) == Occurrences(a) + Occurrences(b)
  {
    if a == [] {
      assert a + b == b;
    } else {
      assert (a + b)[1..] == a[1..] + b;
      OccurrencesAppend(a[1..], b);
    }
  }

  lemma {:induction false} BuildSnoc(acc: Table, occs: seq<Occurrence>, o: Occurrence)
    ensures Build(acc, occs + [o]) == Push(Build(acc, occs), o.token, o.letter)
    decreases |occs|
  {
    if occs == [] {
      assert occs + [o] == [o];
    } else {
      assert (occs + [o])[1..] == occs[1..] + [o];
      BuildSnoc(Push(acc, occs[0].token, occs[0].letter), occs[1..], o);
    }
  }

  /** Every token of the encode table is non-empty. */
  predicate TokensNonEmpty(enc: seq<EncodeRow>) {
    forall r, j :: 0 <= r < |enc| && 0 <= j < |enc[r].tokens| ==> |enc[r].tokens[j]| > 0
  }

  lemma EncodeMapTokensNonEmpty()
    ensures TokensNonEmpty(EncodeMap)
  {
  }

  /** The inner loop's step: one more token of the current row. */
  lemma ConstructTokenStep(before: seq<Occurrence>, row: EncodeRow, j: nat)
    requires j < |row.tokens|
    ensures Build([], before + RowOccurrences(row)[..j + 1])
         == Push(Build([], before + RowOccurrences(row)[..j]), row.tokens[j], row.letter)
  {
    var o := Occurrence(row.tokens[j], row.letter);
    assert RowOccurrences(row)[..j + 1] == RowOccurrences(row)[..j] + [o];
    assert before + RowOccurrences(row)[..j + 1] == (before + RowOccurrences(row)[..j]) + [o];
    BuildSnoc([], before + RowOccurrences(row)[..j], o);
  }

  /** The outer loop's step: one more row of the encode table. */
  lemma ConstructRowStep(enc: seq<EncodeRow>, r: nat)
    requires r < |enc|
    ensures Occurrences(enc[..r]) + RowOccurrences(enc[r])[..|enc[r].tokens|] == Occurrences(enc[..r + 1])
  {
    var row := enc[r];
    assert RowOccurrences(row)[..|row.tokens|] == RowOccurrences(row);
    assert enc[..r + 1] == enc[..r] + [row];
    OccurrencesAppend(enc[..r], [row]);
    assert Occurrences([row]) == RowOccurrences(row) + Occurrences([row][1..]);
    assert Occurrences([row]) == RowOccurrences(row);
  }

  /** The constructor: for each row of the encode table in order, and each of
      its tokens in order, append the row's letter to that token's entry. The
      result is a well-formed inverse of the encode table whose letter lists
      follow encode-table order. */
  method Construct(enc: seq<EncodeRow>) returns (t: Table)
    requires TokensNonEmpty(enc)
    ensures WellFormed(t) && IsInverseOf(t, enc)
    ensures forall k :: Lookup(t, k) == LettersOf(enc, k)
    ensures forall k :: k in Tokens(t) <==> exists r :: 0 <= r < |enc| && k in enc[r].tokens
  {
    t := [];
    for r := 0 to |enc|
      invariant t == Build([], Occurrences(enc[..r]))
    {
      var row := enc[r];
      assert Occurrences(enc[..r]) + RowOccurrences(row)[..0] == Occurrences(enc[..r]);
      for j := 0 to |row.tokens|
        invariant t == Build([], Occurrences(enc[..r]) + RowOccurrences(row)[..j])
      {
        ConstructTokenStep(Occurrences(enc[..r]), row, j);
        t := Push(t, row.tokens[j], row.letter);
      }
      ConstructRowStep(enc, r);
    }
    assert enc[..|enc|] == enc;
    assert t == Invert(enc);
    OccurrencesNonEmpty(enc);
    BuildWellFormed([], Occurrences(enc));
    InvertIsInverseOf(enc);
    forall k
      ensures Lookup(t, k) == LettersOf(enc, k)
      ensures k in Tokens(t) <==> exists r :: 0 <= r < |enc| && k in enc[r].tokens
    {
      InvertIsInverse(enc, k);
    }
  }

  /** The decoder's constructor on the fixed encode table. */
  method New() returns (t: Table)
    ensures WellFormed(t) && IsInverseOf(t, EncodeMap)
    ensures forall k :: Lookup(t, k) == LettersOf(EncodeMap, k)
    ensures forall k :: k in Tokens(t) <==> exists r :: 0 <= r < |EncodeMap| && k in EncodeMap[r].tokens
  {
    EncodeMapTokensNonEmpty();
    t := Construct(EncodeMap);
  }

  /** Sample entries of an inverse of the encode table: '1' reads as I or L,
      '∂' as A or D, and the two-character token "vv" as W. */
  lemma DecodeTableSamples(t: Table)
    requires IsInverseOf(t, EncodeMap)
    ensures Maps(t, "1", 'I') && Maps(t, "1", 'L')
    ensures Maps(t, "∂", 'A') && Maps(t, "∂", 'D')
    ensures Maps(t, "vv", 'W')
  {
    assert EncodeMap[8].letter == 'I' && "1" in EncodeMap[8].tokens;
    assert EncodeMap[11].letter == 'L' && "1" in EncodeMap[11].tokens;
    assert EncodeMap[0].letter == 'A' && "∂" in EncodeMap[0].tokens;
    assert EncodeMap[3].letter == 'D' && "∂" in EncodeMap[3].tokens;
    assert EncodeMap[17].letter == 'W' && "vv" in EncodeMap[17].tokens;
  }

  // ---------------------------------------------------------------------
  // Decoding a word.
  // ---------------------------------------------------------------------

  /** The entries of `t` whose token starts `w`, in table order. */
  function Matching(t: Table, w: string): (r: Table)
    ensures forall i :: 0 <= i < |r| ==> IsPrefix(r[i].token, w)
    ensures WellFormed(t) ==> WellFormed(r)
  {
    if t == [] then []
    else if IsPrefix(t[0].token, w) then [t[0]] + Matching(t[1..], w)
    else Matching(t[1..], w)
  }

  lemma {:induction false} MatchingMaps(t: Table, w: string, k: string, c: char)
    ensures Maps(Matching(t, w), k, c) <==> Maps(t, k, c) && IsPrefix(k, w)
  {
    if t != [] {
      MatchingMaps(t[1..], w, k, c);
      if IsPrefix(t[0].token, w) {
        assert Matching(t, w)[1..] == Matching(t[1..], w);
      }
    }
  }

  /** `getDecodeMap`: the matching entries, then the word's first character
      added as a reading of itself (appended to its own entry when that
      character is itself a token). */
  function PrefixTable(t: Table, w: string): (r: Table)
    requires |w| > 0
    ensures forall i :: 0 <= i < |r| ==> IsPrefix(r[i].token, w)
    ensures WellFormed(t) ==> WellFormed(r)
  {
    var m := Matching(t, w);
    var r := Push(m, w[..1], w[0]);
    assert Tokens(r) == if w[..1] in Tokens(m) then Tokens(m) else Tokens(m) + [w[..1]];
    assert forall i :: 0 <= i < |r| ==> r[i].token == Tokens(r)[i];
    assert forall i :: 0 <= i < |m| ==> m[i].token == Tokens(m)[i];
    r
  }

  lemma PrefixTableMaps(t: Table, w: string, k: string, c: char)
    requires |w| > 0
    ensures Maps(PrefixTable(t, w), k, c) <==> (Maps(t, k, c) && IsPrefix(k, w)) || (k == w[..1] && c == w[0])
  {
    PushMaps(Matching(t, w), w[..1], w[0], k, c);
    MatchingMaps(t, w, k, c);
  }

  /** `formatWord`: every reading of `w`, in the generator's order. */
  function FormatWord(t: Table, w: string): seq<string>
    requires WellFormed(t)
    decreases |w|, 1
  {
    if w == [] then [[]]
    else FormatEntries(t, w, PrefixTable(t, w))
  }

  /** The readings contributed by the entries `es`, each consuming its token
      from the front of `w`. */
  function FormatEntries(t: Table, w: string, es: Table): seq<string>
    requires WellFormed(t)
    requires WellFormed(es)
    requires forall i :: 0 <= i < |es| ==> IsPrefix(es[i].token, w)
    decreases |w|, 0, |es|
  {
    if es == [] then []
    else
      assert IsPrefix(es[0].token, w);
      Expand(es[0].letters, FormatWord(t, w[|es[0].token|..])) + FormatEntries(t, w, es[1..])
  }

  lemma {:induction false} FormatEntriesMember(t: Table, w: string, es: Table, s: string)
    requires WellFormed(t)
    requires WellFormed(es)
    requires forall i :: 0 <= i < |es| ==> IsPrefix(es[i].token, w)
    ensures s in FormatEntries(t, w, es) <==>
      exists i :: 0 <= i < |es| && s in Expand(es[i].letters, FormatWord(t, w[|es[i].token|..]))
  {
    if es != [] {
      FormatEntriesMember(t, w, es[1..], s);
      if exists i :: 0 <= i < |es| && s in Expand(es[i].letters, FormatWord(t, w[|es[i].token|..])) {
        var i :| 0 <= i < |es| && s in Expand(es[i].letters, FormatWord(t, w[|es[i].token|..]));
        if i > 0 {
          assert es[1..][i - 1] == es[i];
        }
      }
      if exists i :: 0 <= i < |es[1..]| && s in Expand(es[1..][i].letters, FormatWord(t, w[|es[1..][i].token|..])) {
        var i :| 0 <= i < |es[1..]| && s in Expand(es[1..][i].letters, FormatWord(t, w[|es[1..][i].token|..]));
        assert es[i + 1] == es[1..][i];
      }
    }
  }

  /** Independent description of a decoding: `s` reads `w` when `w` splits
      into consecutive pieces, each either a table token replaced by one of
      its letters or a single character kept as it is. */
  ghost predicate Reading(t: Table, w: string, s: string)
    requires WellFormed(t)
    decreases |w|
  {
    if w == [] then s == []
    else
      |s| > 0 &&
      ((exists i :: 0 <= i < |t| && IsPrefix(t[i].token, w) && s[0] in t[i].letters
                    && Reading(t, w[|t[i].token|..], s[1..]))
       || (s[0] == w[0] && Reading(t, w[1..], s[1..])))
  }

  /** Completeness and soundness of the backtracking decoder: a string is
      produced iff it is a reading of the word. */
  lemma {:induction false} DecodingsAreReadings(t: Table, w: string, s: string)
    requires WellFormed(t)
    ensures s in FormatWord(t, w) <==> Reading(t, w, s)
    decreases |w|
  {
    if w != [] {
      var pt := PrefixTable(t, w);
      FormatEntriesMember(t, w, pt, s);
      if s in FormatWord(t, w) {
        var i :| 0 <= i < |pt| && s in Expand(pt[i].letters, FormatWord(t, w[|pt[i].token|..]));
        var k := pt[i].token;
        ExpandMember(pt[i].letters, FormatWord(t, w[|k|..]), s);
        DecodingsAreReadings(t, w[|k|..], s[1..]);
        MapsAt(pt, k, s[0]);
        PrefixTableMaps(t, w, k, s[0]);
        if Maps(t, k, s[0]) && IsPrefix(k, w) {
          MapsAt(t, k, s[0]);
          var j :| 0 <= j < |t| && t[j].token == k && s[0] in t[j].letters;
          assert IsPrefix(t[j].token, w) && Reading(t, w[|t[j].token|..], s[1..]);
        } else {
          assert k == w[..1] && s[0] == w[0];
        }
      }
      if Reading(t, w, s) {
        var k: string;
        if exists j :: 0 <= j < |t| && IsPrefix(t[j].token, w) && s[0] in t[j].letters
                       && Reading(t, w[|t[j].token|..], s[1..]) {
          var j :| 0 <= j < |t| && IsPrefix(t[j].token, w) && s[0] in t[j].letters
                   && Reading(t, w[|t[j].token|..], s[1..]);
          k := t[j].token;
          MapsAt(t, k, s[0]);
        } else {
          k := w[..1];
        }
        PrefixTableMaps(t, w, k, s[0]);
        MapsAt(pt, k, s[0]);
        var i :| 0 <= i < |pt| && pt[i].token == k && s[0] in pt[i].letters;
        DecodingsAreReadings(t, w[|k|..], s[1..]);
        ExpandMember(pt[i].letters, FormatWord(t, w[|k|..]), s);
      }
    }
  }

  /** The empty word decodes to exactly one reading, the empty string. */
  lemma EmptyWord(t: Table)
    requires WellFormed(t)
    ensures FormatWord(t, []) == [[]]
  {
  }

  lemma {:induction false} ReadsItself(t: Table, w: string)
    requires WellFormed(t)
    ensures Reading(t, w, w)
    decreases |w|
  {
    if w != [] {
      ReadsItself(t, w[1..]);
    }
  }

  /** Every word is among its own decodings. */
  lemma WordIsADecoding(t: Table, w: string)
    requires WellFormed(t)
    ensures w in FormatWord(t, w)
  {
    ReadsItself(t, w);
    DecodingsAreReadings(t, w, w);
  }

  /** A reading never has more characters than the word it reads. */
  lemma {:induction false} ReadingLength(t: Table, w: string, s: string)
    requires WellFormed(t)
    requires Reading(t, w, s)
    ensures |s| <= |w|
    decreases |w|
  {
    if w != [] {
      if exists i :: 0 <= i < |t| && IsPrefix(t[i].token, w) && s[0] in t[i].letters
                     && Reading(t, w[|t[i].token|..], s[1..]) {
        var i :| 0 <= i < |t| && IsPrefix(t[i].token, w) && s[0] in t[i].letters
                 && Reading(t, w[|t[i].token|..], s[1..]);
        ReadingLength(t, w[|t[i].token|..], s[1..]);
      } else {
        ReadingLength(t, w[1..], s[1..]);
      }
    }
  }

  /** With single-character tokens only, a reading has exactly the word's
      length: only multi-character tokens such as "vv" shorten a word. */
  lemma {:induction false} ReadingLengthSingleTokens(t: Table, w: string, s: string)
    requires WellFormed(t)
    requires forall i :: 0 <= i < |t| ==> |t[i].token| == 1
    requires Reading(t, w, s)
    ensures |s| == |w|
    decreases |w|
  {
    if w != [] {
      if exists i :: 0 <= i < |t| && IsPrefix(t[i].token, w) && s[0] in t[i].letters
                     && Reading(t, w[|t[i].token|..], s[1..]) {
        var i :| 0 <= i < |t| && IsPrefix(t[i].token, w) && s[0] in t[i].letters
                 && Reading(t, w[|t[i].token|..], s[1..]);
        ReadingLengthSingleTokens(t, w[|t[i].token|..], s[1..]);
      } else {
        ReadingLengthSingleTokens(t, w[1..], s[1..]);
      }
    }
  }

  /** Every decoding is at most as long as the word. */
  lemma DecodingLength(t: Table, w: string, s: string)
    requires WellFormed(t)
    requires s in FormatWord(t, w)
    ensures |s| <= |w|
  {
    DecodingsAreReadings(t, w, s);
    ReadingLength(t, w, s);
  }

  /** No token starts anywhere in `w`. */
  predicate NoTokenIn(t: Table, w: string) {
    forall p, i :: 0 <= p < |w| && 0 <= i < |t| ==> !IsPrefix(t[i].token, w[p..])
  }

  lemma {:induction false} MatchingNone(t: Table, w: string)
    requires forall i :: 0 <= i < |t| ==> !IsPrefix(t[i].token, w)
    ensures Matching(t, w) == []
  {
    if t != [] {
      MatchingNone(t[1..], w);
    }
  }

  /** A word in which no token starts at any position decodes to exactly
      itself and nothing else. */
  lemma {:induction false} PlainWordDecodesToItself(t: Table, w: string)
    requires WellFormed(t)
    requires NoTokenIn(t, w)
    ensures FormatWord(t, w) == [w]
    decreases |w|
  {
    if w != [] {
      assert forall i :: 0 <= i < |t| ==> !IsPrefix(t[i].token, w) by {
        assert w[0..] == w;
      }
      MatchingNone(t, w);
      var pt := PrefixTable(t, w);
      assert pt == [Entry(w[..1], [w[0]])];
      forall p, i | 0 <= p < |w[1..]| && 0 <= i < |t|
        ensures !IsPrefix(t[i].token, w[1..][p..])
      {
        assert w[1..][p..] == w[p + 1..];
      }
      PlainWordDecodesToItself(t, w[1..]);
      assert |pt[0].token| == 1 && w[|pt[0].token|..] == w[1..];
      assert FormatEntries(t, w, pt) == Expand([w[0]], FormatWord(t, w[1..])) + FormatEntries(t, w, pt[1..]);
      assert pt[1..] == [];
      assert Expand([w[0]], [w[1..]]) == [[w[0]] + w[1..]];
      assert [w[0]] + w[1..] == w;
    }
  }

  /** `applyCurrent`: each word's decodings, concatenated in input order. */
  function ApplyWith(t: Table, words: seq<string>): seq<string>
    requires WellFormed(t)
  {
    if words == [] then [] else FormatWord(t, words[0]) + ApplyWith(t, words[1..])
  }

  lemma {:induction false} ApplyWithMember(t: Table, words: seq<string>, s: string)
    requires WellFormed(t)
    ensures s in ApplyWith(t, words) <==> exists i :: 0 <= i < |words| && s in FormatWord(t, words[i])
  {
    if words != [] {
      ApplyWithMember(t, words[1..], s);
      if exists i :: 0 <= i < |words| && s in FormatWord(t, words[i]) {
        var i :| 0 <= i < |words| && s in FormatWord(t, words[i]);
        if i > 0 {
          assert words[1..][i - 1] == words[i];
        }
      }
      if exists i :: 0 <= i < |words[1..]| && s in FormatWord(t, words[1..][i]) {
        var i :| 0 <= i < |words[1..]| && s in FormatWord(t, words[1..][i]);
        assert words[i + 1] == words[1..][i];
      }
    }
  }

  /** Applying to a concatenation concatenates the outputs, so each word's
      decodings appear as one block, in input order. */
  lemma {:induction false} ApplyWithAppend(t: Table, a: seq<string>, b: seq<string>)
    requires WellFormed(t)
    ensures ApplyWith(t, a + b) == ApplyWith(t, a) + ApplyWith(t, b)
  {
    if a == [] {
      assert a + b == b;
    } else {
      assert (a + b)[1..] == a[1..] + b;
      ApplyWithAppend(t, a[1..], b);
    }
  }

  lemma ReadToken(t: Table, w: string, s: string, k: string)
    requires WellFormed(t)
    requires |w| > 0 && |s| > 0
    requires Maps(t, k, s[0]) && IsPrefix(k, w)
    requires Reading(t, w[|k|..], s[1..])
    ensures Reading(t, w, s)
  {
    MapsAt(t, k, s[0]);
    var i :| 0 <= i < |t| && t[i].token == k && s[0] in t[i].letters;
    assert IsPrefix(t[i].token, w) && Reading(t, w[|t[i].token|..], s[1..]);
  }

  lemma ReadSelf(t: Table, w: string, s: string)
    requires WellFormed(t)
    requires |w| > 0 && |s| > 0 && s[0] == w[0]
    requires Reading(t, w[1..], s[1..])
    ensures Reading(t, w, s)
  {
  }

  /** The first step of a reading of a non-empty word: a token or the
      literal first character, followed by a reading of the rest. */
  lemma ReadingHead(t: Table, w: string, s: string) returns (k: string)
    requires WellFormed(t)
    requires |w| > 0 && Reading(t, w, s)
    ensures |s| > 0 && 0 < |k| && IsPrefix(k, w)
    ensures Maps(t, k, s[0]) || (k == w[..1] && s[0] == w[0])
    ensures Reading(t, w[|k|..], s[1..])
  {
    if exists i :: 0 <= i < |t| && IsPrefix(t[i].token, w) && s[0] in t[i].letters
                   && Reading(t, w[|t[i].token|..], s[1..]) {
      var i :| 0 <= i < |t| && IsPrefix(t[i].token, w) && s[0] in t[i].letters
               && Reading(t, w[|t[i].token|..], s[1..]);
      k := t[i].token;
      MapsAt(t, k, s[0]);
    } else {
      k := w[..1];
    }
  }

  /** One step in front of a reading of `a'` + `b`. */
  lemma ReadingPrepend(t: Table, a: string, b: string, x: string, y: string, k: string)
    requires WellFormed(t)
    requires |a| > 0 && |x| > 0 && 0 < |k| && IsPrefix(k, a)
    requires Maps(t, k, x[0]) || (k == a[..1] && x[0] == a[0])
    requires Reading(t, a[|k|..] + b, x[1..] + y)
    ensures Reading(t, a + b, x + y)
  {
    assert (a + b)[|k|..] == a[|k|..] + b;
    assert (a + b)[..|k|] == a[..|k|];
    assert (x + y)[0] == x[0] && (x + y)[1..] == x[1..] + y;
    if Maps(t, k, x[0]) {
      ReadToken(t, a + b, x + y, k);
    } else {
      ReadSelf(t, a + b, x + y);
    }
  }

  /** Readings compose: reading `a` as `x` and `b` as `y` reads `a + b` as `x + y`. */
  lemma {:induction false} ReadingAppend(t: Table, a: string, b: string, x: string, y: string)
    requires WellFormed(t)
    requires Reading(t, a, x) && Reading(t, b, y)
    ensures Reading(t, a + b, x + y)
    decreases |a|
  {
    if a == [] {
      assert a + b == b && x + y == y;
    } else {
      var k := ReadingHead(t, a, x);
      ReadingAppend(t, a[|k|..], b, x[1..], y);
      ReadingPrepend(t, a, b, x, y, k);
    }
  }

  /** A single character read through a one-character token. */
  lemma ReadOne(t: Table, d: char, c: char)
    requires WellFormed(t)
    requires Maps(t, [d], c)
    ensures Reading(t, [d], [c])
  {
    assert [d][1..] == [] && [c][1..] == [];
    ReadToken(t, [d], [c], [d]);
  }

  lemma ReadingCons(t: Table, w: string, s: string, i: nat)
    requires WellFormed(t)
    requires i < |w| && i < |s|
    requires Reading(t, [w[i]], [s[i]]) && Reading(t, w[i + 1..], s[i + 1..])
    ensures Reading(t, w[i..], s[i..])
  {
    ReadingAppend(t, [w[i]], w[i + 1..], [s[i]], s[i + 1..]);
    assert [w[i]] + w[i + 1..] == w[i..];
    assert [s[i]] + s[i + 1..] == s[i..];
  }

  /** A character-by-character reading: each character is kept or replaced
      by a letter of its one-character token. */
  lemma {:induction false} ReadCharwise(t: Table, w: string, s: string, i: nat)
    requires WellFormed(t)
    requires |w| == |s| && i <= |w|
    requires forall j :: i <= j < |w| ==> Maps(t, [w[j]], s[j]) || w[j] == s[j]
    ensures Reading(t, w[i..], s[i..])
    decreases |w| - i
  {
    if i == |w| {
      assert w[i..] == [] && s[i..] == [];
    } else {
      ReadCharwise(t, w, s, i + 1);
      if Maps(t, [w[i]], s[i]) {
        ReadOne(t, w[i], s[i]);
      } else {
        ReadsItself(t, [w[i]]);
      }
      ReadingCons(t, w, s, i);
    }
  }

  lemma LeetSpeakReading(t: Table, w: string, s: string)
    requires WellFormed(t)
    requires w == "1337 5P34K" && s == "LEET SPEAK"
    requires Maps(t, "1", 'L') && Maps(t, "3", 'E') && Maps(t, "7", 'T')
    requires Maps(t, "5", 'S') && Maps(t, "4", 'A')
    ensures Reading(t, w, s)
  {
    assert [w[0]] == "1" && s[0] == 'L';
    assert [w[1]] == "3" && s[1] == 'E';
    assert [w[2]] == "3" && s[2] == 'E';
    assert [w[3]] == "7" && s[3] == 'T';
    assert w[4] == s[4];
    assert [w[5]] == "5" && s[5] == 'S';
    assert w[6] == s[6];
    assert [w[7]] == "3" && s[7] == 'E';
    assert [w[8]] == "4" && s[8] == 'A';
    assert w[9] == s[9];
    ReadCharwise(t, w, s, 0);
    assert w[0..] == w && s[0..] == s;
  }

  /** "1337 5P34K" has "LEET SPEAK" among its decodings, with the table the
      constructor builds (or any other inverse of the encode table). */
  lemma LeetSpeakExample(t: Table, w: string, s: string)
    requires WellFormed(t) && IsInverseOf(t, EncodeMap)
    requires w == "1337 5P34K" && s == "LEET SPEAK"
    ensures s in ApplyWith(t, [w])
  {
    assert EncodeMap[11].letter == 'L' && "1" in EncodeMap[11].tokens;
    assert EncodeMap[4].letter == 'E' && "3" in EncodeMap[4].tokens;
    assert EncodeMap[15].letter == 'T' && "7" in EncodeMap[15].tokens;
    assert EncodeMap[14].letter == 'S' && "5" in EncodeMap[14].tokens;
    assert EncodeMap[0].letter == 'A' && "4" in EncodeMap[0].tokens;
    LeetSpeakReading(t, w, s);
    DecodingsAreReadings(t, w, s);
    ApplyWithMember(t, [w], s);
  }

  /** A character of the word "fOoBaR". */
  predicate InPlainWord(c: char) {
    c == 'f' || c == 'O' || c == 'o' || c == 'B' || c == 'a' || c == 'R'
  }

  /** Every token of `enc` is non-empty and starts outside "fOoBaR". */
  predicate AvoidsPlainWord(enc: seq<EncodeRow>) {
    forall r, j :: 0 <= r < |enc| && 0 <= j < |enc[r].tokens| ==>
      |enc[r].tokens[j]| > 0 && !InPlainWord(enc[r].tokens[j][0])
  }

  lemma EncodeMapAvoidsPlainWord()
    ensures AvoidsPlainWord(EncodeMap)
  {
  }

  /** A table whose tokens all come from such an encode table has no token
      anywhere in a word made of those characters. */
  lemma NoTokenInPlainWord(t: Table, enc: seq<EncodeRow>, w: string)
    requires forall k :: k in Tokens(t) ==> exists r :: 0 <= r < |enc| && k in enc[r].tokens
    requires AvoidsPlainWord(enc)
    requires forall p :: 0 <= p < |w| ==> InPlainWord(w[p])
    ensures NoTokenIn(t, w)
  {
    forall p, i | 0 <= p < |w| && 0 <= i < |t|
      ensures !IsPrefix(t[i].token, w[p..])
    {
      assert t[i].token == Tokens(t)[i];
      assert t[i].token in Tokens(t);
      var r :| 0 <= r < |enc| && t[i].token in enc[r].tokens;
      var j :| 0 <= j < |enc[r].tokens| && enc[r].tokens[j] == t[i].token;
      assert !InPlainWord(t[i].token[0]);
    }
  }

  /** "fOoBaR" contains no token of the encode table, so the decoder built
      from it yields that word alone. */
  lemma PlainWordExample(t: Table, w: string)
    requires WellFormed(t)
    requires forall k :: k in Tokens(t) <==> exists r :: 0 <= r < |EncodeMap| && k in EncodeMap[r].tokens
    requires w == "fOoBaR"
    ensures ApplyWith(t, [w]) == [w]
  {
    EncodeMapAvoidsPlainWord();
    assert forall p :: 0 <= p < |w| ==> InPlainWord(w[p]);
    NoTokenInPlainWord(t, EncodeMap, w);
    PlainWordDecodesToItself(t, w);
    assert ApplyWith(t, [w]) == FormatWord(t, w) + ApplyWith(t, []);
  }
}
