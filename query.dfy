/**
 * Stored records and the conjunctive filters that the listing and the
 * natural-language endpoints apply to them.
 */
module Query {
  import opened Wrappers
  import opened Sequences
  import opened Text
  import opened Analyzer

  /** One stored string: its digest as identity, the value itself, its analysis and its creation time. */
  datatype AnalyzedString = AnalyzedString(id: string, value: string, properties: Properties, createdAt: string)

  /** A numeric query parameter after `parseInt`: a number, or NaN for text that is not one. */
  datatype NumParam = Number(n: int) | NaN

  /** A sparse filter set: each field that is present constrains the records. */
  datatype Filters = Filters(
    isPalindrome: Option<bool>,
    minLength: Option<NumParam>,
    maxLength: Option<NumParam>,
    wordCount: Option<NumParam>,
    containsCharacter: Option<string>)

  const NoFilters := Filters(None, None, None, None, None)

  /** `n >= p`; a comparison with NaN is false. */
  predicate AtLeast(n: int, p: NumParam) {
    p.Number? && n >= p.n
  }

  /** `n <= p`; a comparison with NaN is false. */
  predicate AtMost(n: int, p: NumParam) {
    p.Number? && n <= p.n
  }

  /** `n === p`; NaN equals nothing. */
  predicate SameNumber(n: int, p: NumParam) {
    p.Number? && n == p.n
  }

  /** The record satisfies every filter that is present. */
  predicate Matches(r: AnalyzedString, f: Filters) {
    && (f.isPalindrome.Some? ==> r.properties.isPalindrome == f.isPalindrome.value)
    && (f.minLength.Some? ==> AtLeast(r.properties.length, f.minLength.value))
    && (f.maxLength.Some? ==> AtMost(r.properties.length, f.maxLength.value))
    && (f.wordCount.Some? ==> SameNumber(r.properties.wordCount, f.wordCount.value))
    && (f.containsCharacter.Some? ==> Includes(r.value, f.containsCharacter.value))
  }

  /** `Array.prototype.filter`. */
  function Keep(xs: seq<AnalyzedString>, p: AnalyzedString -> bool): (r: seq<AnalyzedString>)
    ensures forall x :: multiset(r)[x] == if p(x) then multiset(xs)[x] else 0
    ensures IsSubsequence(r, xs)
  {
    if xs == [] then []
    else
      assert xs == [xs[0]] + xs[1..];
      var rest := Keep(xs[1..], p);
      if p(xs[0]) then
        assert ([xs[0]] + rest)[1..] == rest;
        [xs[0]] + rest
      else
        rest
  }

  /** The records that satisfy every present filter, in their original order. */
  function Select(rs: seq<AnalyzedString>, f: Filters): (r: seq<AnalyzedString>)
    ensures forall x :: multiset(r)[x] == if Matches(x, f) then multiset(rs)[x] else 0
    ensures IsSubsequence(r, rs)
  {
    if rs == [] then []
    else
      assert rs == [rs[0]] + rs[1..];
      var rest := Select(rs[1..], f);
      if Matches(rs[0], f) then
        assert ([rs[0]] + rest)[1..] == rest;
        [rs[0]] + rest
      else
        rest
  }

  /** Narrowing a selection by one more predicate is selecting by the combined filters. */
  lemma {:induction false} KeepNarrowsSelect(rs: seq<AnalyzedString>, f: Filters, g: Filters, p: AnalyzedString -> bool)
    requires forall x :: Matches(x, g) <==> Matches(x, f) && p(x)
    ensures Keep(Select(rs, f), p) == Select(rs, g)
  {
    if rs != [] {
      KeepNarrowsSelect(rs[1..], f, g, p);
      var rest := Select(rs[1..], f);
      if Matches(rs[0], f) {
        assert ([rs[0]] + rest)[1..] == rest;
      }
    }
  }

  /** Without filters every record is selected. */
  lemma {:induction false} SelectWithoutFilters(rs: seq<AnalyzedString>)
    ensures Select(rs, NoFilters) == rs
  {
    if rs != [] {
      SelectWithoutFilters(rs[1..]);
    }
  }

  /** A NaN bound or count matches nothing. */
  lemma SelectWithNaN(rs: seq<AnalyzedString>, f: Filters)
    requires f.minLength == Some(NaN) || f.maxLength == Some(NaN) || f.wordCount == Some(NaN)
    ensures Select(rs, f) == []
  {
    assert multiset(Select(rs, f)) == multiset{};
  }

  /** A lower bound above the upper bound matches nothing. */
  lemma SelectWithEmptyRange(rs: seq<AnalyzedString>, f: Filters, lo: int, hi: int)
    requires f.minLength == Some(Number(lo)) && f.maxLength == Some(Number(hi)) && hi < lo
    ensures Select(rs, f) == []
  {
    assert multiset(Select(rs, f)) == multiset{};
  }
}
