/** The breach-count rule: bounds on how often a password appears in the
    breach corpus of the Have I Been Pwned? range service. The SHA-1 digest
    function and the HTTP exchange are parameters: `sha1` maps a password to
    its hex digest, and `fetch` maps a request URI to the response body or
    to the client/runtime failure that the exchange raised. */
module HaveIBeenPwned {
  import opened Wrappers
  import opened Messages
  import opened RangeRule
  import Ascii

  /** The failures of the HTTP exchange that `getCount` catches. */
  datatype ServiceError = ClientFailure | RuntimeFailure

  /** `TestException`: the rule could not be evaluated. */
  datatype TestException = TestException(cause: ServiceError)

  /** What `enforce` can throw: the rule is broken, or it could not be evaluated. */
  datatype EnforceError = Violated(violation: RuleException) | Untestable(failure: TestException)

  const RangeEndpoint: string := "https://api.pwnedpasswords.com/range/"
  const PrefixLength: nat := 5
  const SuffixLength: nat := 35

  /** The constructor's defaults: at least 0 and at most 0 appearances. */
  const Default: Bounds := Bounds(0, Some(0))

  function Min(a: nat, b: nat): nat {
    if a <= b then a else b
  }

  /** PHP `substr(s, start, length)` for non-negative `start` and `length`:
      both ends are clamped to the string, and a start past the end gives
      the empty string. */
  function Substr(s: string, start: nat, length: nat): (r: string)
    ensures |r| == if |s| <= start then 0 else Min(length, |s| - start)
    ensures forall i :: 0 <= i < |r| ==> r[i] == s[start + i]
  {
    if |s| <= start then [] else s[start..start + Min(length, |s| - start)]
  }

  /** PHP `substr(s, start)` for a non-negative `start`. */
  function SubstrFrom(s: string, start: nat): (r: string)
    ensures |r| == if |s| <= start then 0 else |s| - start
    ensures forall i :: 0 <= i < |r| ==> r[i] == s[start + i]
  {
    if |s| <= start then [] else s[start..]
  }

  /** The first five characters of the upper-cased digest: all that is sent. */
  function Prefix(digest: string): string {
    Substr(Ascii.UpperString(digest), 0, PrefixLength)
  }

  /** The next 35 characters of the upper-cased digest: what is matched. */
  function Suffix(digest: string): string {
    Substr(Ascii.UpperString(digest), PrefixLength, SuffixLength)
  }

  /** The request sent for a digest. */
  function RequestUri(digest: string): (r: string)
    ensures |r| == |RangeEndpoint| + Min(PrefixLength, |digest|)
    ensures r[..|RangeEndpoint|] == RangeEndpoint
    ensures forall i :: 0 <= i < |r| - |RangeEndpoint| ==> r[|RangeEndpoint| + i] == Ascii.ToUpper(digest[i])
  {
    RangeEndpoint + Prefix(digest)
  }

  /** A 40-character digest splits into a 5-character prefix and a
      35-character suffix that together are the whole upper-cased digest. */
  lemma DigestSplit(digest: string)
    requires |digest| == 40
    ensures |Prefix(digest)| == 5 && |Suffix(digest)| == 35
    ensures Prefix(digest) + Suffix(digest) == Ascii.UpperString(digest)
  {
    var up := Ascii.UpperString(digest);
    assert Prefix(digest) == up[..5] && Suffix(digest) == up[5..];
    assert up[..5] + up[5..] == up;
  }

  /** The request reveals only the first five digest characters: digests
      that agree there produce the same request, whatever follows. */
  lemma RequestDependsOnlyOnPrefix(d1: string, d2: string)
    requires |d1| >= 5 && |d2| >= 5 && d1[..5] == d2[..5]
    ensures RequestUri(d1) == RequestUri(d2)
  {
    assert forall i :: 0 <= i < 5 ==> d1[i] == d1[..5][i] && d2[i] == d2[..5][i];
    assert Prefix(d1) == Prefix(d2);
  }

  /** No "\r\n" occurs in `s`. */
  predicate NoSeparator(s: string) {
    forall i :: 0 <= i < |s| - 1 ==> !(s[i] == '\r' && s[i + 1] == '\n')
  }

  /** PHP `explode("\r\n", s)`: the pieces between separators, left to right;
      there is always at least one piece. */
  function Explode(s: string): (r: seq<string>)
    ensures |r| >= 1
    decreases |s|
  {
    if |s| < 2 then [s]
    else if s[0] == '\r' && s[1] == '\n' then [""] + Explode(s[2..])
    else
      var rest := Explode(s[1..]);
      [[s[0]] + rest[0]] + rest[1..]
  }

  /** PHP `implode("\r\n", lines)`, the inverse of `Explode`. */
  function Join(lines: seq<string>): string
    requires |lines| >= 1
  {
    lines[0] + Separated(lines[1..])
  }

  /** Each line preceded by a separator. */
  function Separated(lines: seq<string>): string {
    if lines == [] then [] else "\r\n" + lines[0] + Separated(lines[1..])
  }

  /** Prepending a character to the first piece prepends it to the join. */
  lemma JoinCons(c: char, rest: seq<string>)
    requires |rest| >= 1
    ensures Join([[c] + rest[0]] + rest[1..]) == [c] + Join(rest)
  {
    var r := [[c] + rest[0]] + rest[1..];
    assert r[0] == [c] + rest[0] && r[1..] == rest[1..];
  }

  /** An empty first piece puts a separator in front of the join. */
  lemma JoinEmptyFirst(e: seq<string>)
    requires |e| >= 1
    ensures Join([""] + e) == "\r\n" + Join(e)
  {
    var r := [""] + e;
    assert r[0] == "" && r[1..] == e;
    assert Separated(e) == "\r\n" + e[0] + Separated(e[1..]);
  }

  /** Joining the pieces gives back the string. */
  lemma {:induction false} JoinExplode(s: string)
    ensures Join(Explode(s)) == s
    decreases |s|
  {
    if |s| < 2 {
      assert Join([s]) == s + [];
    } else if s[0] == '\r' && s[1] == '\n' {
      JoinExplode(s[2..]);
      JoinEmptyFirst(Explode(s[2..]));
      assert "\r\n" + s[2..] == s;
    } else {
      var rest := Explode(s[1..]);
      JoinExplode(s[1..]);
      JoinCons(s[0], rest);
      assert [s[0]] + s[1..] == s;
    }
  }

  /** A string without separators is one piece. */
  lemma {:induction false} ExplodeSingle(a: string)
    requires NoSeparator(a)
    ensures Explode(a) == [a]
    decreases |a|
  {
    if |a| >= 2 {
      assert !(a[0] == '\r' && a[1] == '\n');
      assert NoSeparator(a[1..]) by {
        forall i | 0 <= i < |a[1..]| - 1
          ensures !(a[1..][i] == '\r' && a[1..][i + 1] == '\n')
        {
          assert a[1..][i] == a[i + 1] && a[1..][i + 1] == a[i + 2];
        }
      }
      ExplodeSingle(a[1..]);
      assert [a[0]] + a[1..] == a;
    }
  }

  /** A separator-free piece followed by a separator splits off first. */
  lemma {:induction false} ExplodeLine(a: string, rest: string)
    requires NoSeparator(a)
    ensures Explode(a + "\r\n" + rest) == [a] + Explode(rest)
    decreases |a|
  {
    var s := a + "\r\n" + rest;
    if a == [] {
      assert s == "\r\n" + rest && s[2..] == rest;
    } else {
      assert s[0] == a[0];
      assert s[1] == (if |a| >= 2 then a[1] else '\r');
      assert !(s[0] == '\r' && s[1] == '\n');
      assert NoSeparator(a[1..]) by {
        forall i | 0 <= i < |a[1..]| - 1
          ensures !(a[1..][i] == '\r' && a[1..][i + 1] == '\n')
        {
          assert a[1..][i] == a[i + 1] && a[1..][i + 1] == a[i + 2];
        }
      }
      assert s[1..] == a[1..] + "\r\n" + rest;
      ExplodeLine(a[1..], rest);
      assert [a[0]] + a[1..] == a;
    }
  }

  /** Splitting a joined list of separator-free lines gives the lines back. */
  lemma {:induction false} ExplodeJoin(lines: seq<string>)
    requires |lines| >= 1
    requires forall i :: 0 <= i < |lines| ==> NoSeparator(lines[i])
    ensures Explode(Join(lines)) == lines
  {
    if |lines| == 1 {
      assert lines[1..] == [];
      assert Join(lines) == lines[0] + [];
      assert lines[0] + [] == lines[0];
      ExplodeSingle(lines[0]);
      assert lines == [lines[0]];
    } else {
      var tail := lines[1..];
      ExplodeJoin(tail);
      assert Separated(tail) == "\r\n" + tail[0] + Separated(tail[1..]);
      assert Join(lines) == lines[0] + "\r\n" + Join(tail);
      ExplodeLine(lines[0], Join(tail));
      assert lines == [lines[0]] + tail;
    }
  }

  predicate IsDigit(c: char) {
    '0' <= c <= '9'
  }

  /** The longest prefix of `s` made of decimal digits. */
  function LeadingDigits(s: string): (r: string)
    ensures |r| <= |s| && r == s[..|r|]
    ensures forall i :: 0 <= i < |r| ==> IsDigit(r[i])
    ensures |r| < |s| ==> !IsDigit(s[|r|])
  {
    if s == [] || !IsDigit(s[0]) then []
    else [s[0]] + LeadingDigits(s[1..])
  }

  /** The value of a string of decimal digits, most significant first. */
  function DigitsValue(ds: string): nat
    requires forall i :: 0 <= i < |ds| ==> IsDigit(ds[i])
  {
    if ds == [] then 0
    else
      assert IsDigit(ds[|ds| - 1]);
      10 * DigitsValue(ds[..|ds| - 1]) + (ds[|ds| - 1] as int - '0' as int)
  }

  /** PHP's `(int)` cast of a string that starts with its digits: the value
      of the leading run of digits, zero when there is none. */
  function LeadingInt(s: string): nat {
    DigitsValue(LeadingDigits(s))
  }

  /** The decimal notation of `n`, without leading zeros. */
  function Decimal(n: nat): (r: string)
    ensures |r| >= 1
    ensures forall i :: 0 <= i < |r| ==> IsDigit(r[i])
  {
    if n < 10 then [('0' as int + n) as char]
    else Decimal(n / 10) + [('0' as int + n % 10) as char]
  }

  /** Reading the decimal notation of `n` gives back `n`. */
  lemma {:induction false} DecimalRoundTrip(n: nat)
    ensures DigitsValue(Decimal(n)) == n
  {
    if n >= 10 {
      DecimalRoundTrip(n / 10);
      var d := Decimal(n);
      assert d[..|d| - 1] == Decimal(n / 10);
    }
  }

  /** A run of digits followed by a non-digit is exactly the leading digits. */
  lemma {:induction false} LeadingDigitsOfDigits(ds: string, rest: string)
    requires forall i :: 0 <= i < |ds| ==> IsDigit(ds[i])
    requires rest == [] || !IsDigit(rest[0])
    ensures LeadingDigits(ds + rest) == ds
  {
    if ds != [] {
      assert (ds + rest)[1..] == ds[1..] + rest;
      LeadingDigitsOfDigits(ds[1..], rest);
      assert [ds[0]] + ds[1..] == ds;
    } else {
      assert ds + rest == rest;
    }
  }

  /** The cast reads back a count written in decimal, whatever non-digit
      text follows it. */
  lemma LeadingIntDecimal(n: nat, rest: string)
    requires rest == [] || !IsDigit(rest[0])
    ensures LeadingInt(Decimal(n) + rest) == n
  {
    LeadingDigitsOfDigits(Decimal(n), rest);
    DecimalRoundTrip(n);
  }

  /** Whether a response line is the one for `suffix`. */
  predicate Matches(line: string, suffix: string) {
    Substr(line, 0, SuffixLength) == suffix
  }

  /** The loop over the response lines: the count on the first line whose
      first 35 characters are the suffix, read from offset 36; zero when no
      line matches. */
  function CountInLines(lines: seq<string>, suffix: string): (r: nat)
    ensures (forall i :: 0 <= i < |lines| ==> !Matches(lines[i], suffix)) ==> r == 0
  {
    if lines == [] then 0
    else if Matches(lines[0], suffix) then LeadingInt(SubstrFrom(lines[0], SuffixLength + 1))
    else
      assert forall i :: 1 <= i < |lines| ==> lines[i] == lines[1..][i - 1];
      CountInLines(lines[1..], suffix)
  }

  /** The first matching line decides the count; later lines are ignored. */
  lemma {:induction false} FirstMatchDecides(lines: seq<string>, suffix: string, k: nat)
    requires k < |lines| && Matches(lines[k], suffix)
    requires forall i :: 0 <= i < k ==> !Matches(lines[i], suffix)
    ensures CountInLines(lines, suffix) == LeadingInt(SubstrFrom(lines[k], SuffixLength + 1))
  {
    if k > 0 {
      assert !Matches(lines[0], suffix);
      var tail := lines[1..];
      assert tail[k - 1] == lines[k];
      forall i | 0 <= i < k - 1
        ensures !Matches(tail[i], suffix)
      {
        assert tail[i] == lines[i + 1];
      }
      FirstMatchDecides(tail, suffix, k - 1);
      assert CountInLines(lines, suffix) == CountInLines(tail, suffix);
    }
  }

  /** `getCount`: fetch the range for the digest's prefix, split the body
      into lines and read the count for its suffix. A failed exchange is a
      `TestException`, never a count. */
  function GetCount(sha1: string -> string, fetch: string -> Result<string, ServiceError>, password: string)
    : (r: Result<nat, TestException>)
    ensures r.Failure? <==> fetch(RequestUri(sha1(password))).Failure?
    ensures r.Failure? ==> r.error.cause == fetch(RequestUri(sha1(password))).error
  {
    var digest := sha1(password);
    match fetch(RequestUri(digest))
    case Failure(e) => Failure(TestException(e))
    case Success(body) => Success(CountInLines(Explode(body), Suffix(digest)))
  }

  /** `test`: the breach count lies within the bounds; a failed exchange
      propagates as a `TestException`. */
  function Test(b: Bounds, sha1: string -> string, fetch: string -> Result<string, ServiceError>, password: string)
    : (r: Result<bool, TestException>)
    ensures r.Failure? <==> GetCount(sha1, fetch, password).Failure?
    ensures r.Failure? ==> r.error == GetCount(sha1, fetch, password).error
    ensures r.Success? ==> (r.value <==> (b.min <= GetCount(sha1, fetch, password).value &&
                             (b.max.None? || GetCount(sha1, fetch, password).value <= b.max.value)))
  {
    var count :- GetCount(sha1, fetch, password);
    Success(RangeRule.Test(b, count))
  }

  /** `enforce`: a `RuleException` carrying the rule's message exactly when
      the test runs and fails; the `TestException` when it cannot run. */
  function Enforce(b: Bounds, sha1: string -> string, fetch: string -> Result<string, ServiceError>, password: string)
    : (r: Outcome<EnforceError>)
    ensures r.Pass? <==> Test(b, sha1, fetch, password) == Success(true)
    ensures r.Fail? && r.error.Violated? <==> Test(b, sha1, fetch, password) == Success(false)
    ensures r.Fail? && r.error.Violated? ==> r.error.violation.message == CountMessage(b)
    ensures r.Fail? && r.error.Untestable? <==> Test(b, sha1, fetch, password).Failure?
  {
    match Test(b, sha1, fetch, password)
    case Failure(e) => Fail(Untestable(e))
    case Success(ok) => if ok then Pass else Fail(Violated(RuleException(CountMessage(b))))
  }

  /** The default rule is valid, says "must not appear in any breaches", and
      accepts a password exactly when its breach count is zero. */
  lemma DefaultRule(sha1: string -> string, fetch: string -> Result<string, ServiceError>, password: string)
    ensures New(0, Some(0)) == Success(Default)
    ensures CountMessage(Default) == NoneAllowed
    ensures Test(Default, sha1, fetch, password) == Success(true) <==> GetCount(sha1, fetch, password) == Success(0)
  {
  }

  /** One entry of a range response: a hash suffix and its breach count. */
  datatype Record = Record(suffix: string, count: nat)

  /** The line the service writes for a record: `SUFFIX:COUNT`. */
  function RecordLine(rec: Record): string {
    rec.suffix + ":" + Decimal(rec.count)
  }

  function RecordLines(records: seq<Record>): (r: seq<string>)
    ensures |r| == |records|
    ensures forall i :: 0 <= i < |records| ==> r[i] == RecordLine(records[i])
  {
    if records == [] then [] else [RecordLine(records[0])] + RecordLines(records[1..])
  }

  /** A response body listing `records`, one per CRLF-separated line. */
  function Body(records: seq<Record>): string {
    if records == [] then "" else Join(RecordLines(records))
  }

  /** The count of the first record with the given suffix, or zero. */
  function FirstCount(records: seq<Record>, suffix: string): nat {
    if records == [] then 0
    else if records[0].suffix == suffix then records[0].count
    else FirstCount(records[1..], suffix)
  }

  /** Well-formed service records: 35-character suffixes without carriage
      returns, as the upper-case hex suffixes the service sends. */
  predicate WellFormedRecords(records: seq<Record>) {
    forall i :: 0 <= i < |records| ==>
      |records[i].suffix| == SuffixLength &&
      forall j :: 0 <= j < SuffixLength ==> records[i].suffix[j] != '\r'
  }

  lemma RecordLineShape(rec: Record)
    requires |rec.suffix| == SuffixLength
    requires forall j :: 0 <= j < SuffixLength ==> rec.suffix[j] != '\r'
    ensures NoSeparator(RecordLine(rec))
    ensures Substr(RecordLine(rec), 0, SuffixLength) == rec.suffix
    ensures SubstrFrom(RecordLine(rec), SuffixLength + 1) == Decimal(rec.count)
  {
    var line := RecordLine(rec);
    assert line[..SuffixLength] == rec.suffix;
    assert line[SuffixLength + 1..] == Decimal(rec.count);
    forall i | 0 <= i < |line| - 1
      ensures line[i] != '\r'
    {
      if i > SuffixLength {
        assert line[i] == Decimal(rec.count)[i - SuffixLength - 1];
      }
    }
  }

  lemma {:induction false} CountInRecordLines(records: seq<Record>, suffix: string)
    requires WellFormedRecords(records)
    ensures CountInLines(RecordLines(records), suffix) == FirstCount(records, suffix)
  {
    if records != [] {
      var lines := RecordLines(records);
      RecordLineShape(records[0]);
      assert lines[1..] == RecordLines(records[1..]);
      if records[0].suffix == suffix {
        LeadingIntDecimal(records[0].count, []);
        assert Decimal(records[0].count) + [] == Decimal(records[0].count);
      } else {
        CountInRecordLines(records[1..], suffix);
      }
    }
  }

  /** End to end: when the service answers the request with a list of
      records, the count is that of the first record whose suffix is the
      digest's suffix, and zero when there is none. */
  lemma CountFromService(sha1: string -> string, fetch: string -> Result<string, ServiceError>,
                         password: string, records: seq<Record>)
    requires WellFormedRecords(records)
    requires fetch(RequestUri(sha1(password))) == Success(Body(records))
    ensures GetCount(sha1, fetch, password) == Success(FirstCount(records, Suffix(sha1(password))))
  {
    var suffix := Suffix(sha1(password));
    if records == [] {
      assert Explode("") == [""];
      assert !Matches("", suffix) || suffix == [];
      if suffix == [] {
        assert CountInLines([""], suffix) == LeadingInt(SubstrFrom("", SuffixLength + 1));
      }
    } else {
      var lines := RecordLines(records);
      forall i | 0 <= i < |lines|
        ensures NoSeparator(lines[i])
      {
        RecordLineShape(records[i]);
      }
      ExplodeJoin(lines);
      CountInRecordLines(records, suffix);
    }
  }
}
