/**
 * The natural-language query parser: a fixed, ordered list of substring and
 * leftmost-pattern rules, each of which may set one filter; a later rule
 * overwrites what an earlier one set in the same field.
 */
module Parser {
  import opened Wrappers
  import opened Text
  import opened Query

  const PALINDROMIC := "palindromic"
  const SINGLE_WORD := "single word"
  /** The literal part of `/longer than (\d+)/`. */
  const LONGER_THAN := "longer than "
  /** The literal part of `/containing the letter ([a-z])/`. */
  const CONTAINING_THE_LETTER := "containing the letter "
  const FIRST_VOWEL := "first vowel"

  // ---------------------------------------------------------------------
  // Leftmost regular-expression matches of the shape `literal` + one class character

  /** `lit` starts at `i` and is followed by a character of class `cls`. */
  predicate MatchesAt(s: string, lit: string, cls: char -> bool, i: nat) {
    IsAt(s, lit, i) && i + |lit| < |s| && cls(s[i + |lit|])
  }

  /** `i` is the leftmost position where the pattern matches. */
  predicate IsFirstMatch(s: string, lit: string, cls: char -> bool, i: nat) {
    MatchesAt(s, lit, cls, i) && forall j: nat :: j < i ==> !MatchesAt(s, lit, cls, j)
  }

  /** `String.prototype.match` for the pattern: the leftmost match at or after `from`, if any. */
  function FindMatch(s: string, lit: string, cls: char -> bool, from: nat): (r: Option<nat>)
    ensures r.Some? ==> from <= r.value && MatchesAt(s, lit, cls, r.value)
    ensures r.Some? ==> forall j: nat :: from <= j < r.value ==> !MatchesAt(s, lit, cls, j)
    ensures r.None? ==> forall j: nat :: from <= j ==> !MatchesAt(s, lit, cls, j)
    decreases |s| - from
  {
    if from + |lit| >= |s| then None
    else if MatchesAt(s, lit, cls, from) then Some(from)
    else FindMatch(s, lit, cls, from + 1)
  }

  /** Whether a match exists is decided by the leftmost one. */
  lemma FirstMatchExists(s: string, lit: string, cls: char -> bool)
    ensures (exists i: nat :: MatchesAt(s, lit, cls, i)) <==> (exists i: nat :: IsFirstMatch(s, lit, cls, i))
  {
    var m := FindMatch(s, lit, cls, 0);
    if m.Some? {
      assert IsFirstMatch(s, lit, cls, m.value);
    }
  }

  /** There is at most one leftmost match. */
  lemma FirstMatchIsUnique(s: string, lit: string, cls: char -> bool, i: nat, j: nat)
    requires IsFirstMatch(s, lit, cls, i) && IsFirstMatch(s, lit, cls, j)
    ensures i == j
  {
  }

  // ---------------------------------------------------------------------
  // The captured digits and `parseInt(_, 10)`

  /** End of the maximal run of ASCII digits starting at `start` (greedy `\d+`). */
  function DigitRunEnd(s: string, start: nat): (r: nat)
    requires start <= |s|
    ensures start <= r <= |s|
    ensures forall i :: start <= i < r ==> IsAsciiDigit(s[i])
    ensures r == |s| || !IsAsciiDigit(s[r])
    decreases |s| - start
  {
    if start == |s| || !IsAsciiDigit(s[start]) then start else DigitRunEnd(s, start + 1)
  }

  /** The captured group: the maximal digit run starting at `start`. */
  function DigitsAt(s: string, start: nat): (r: string)
    requires start <= |s|
    ensures forall i :: 0 <= i < |r| ==> IsAsciiDigit(r[i])
  {
    s[start..DigitRunEnd(s, start)]
  }

  predicate AllDigits(ds: string) {
    forall i :: 0 <= i < |ds| ==> IsAsciiDigit(ds[i])
  }

  /** The numeric value of a string of decimal digits, most significant first. */
  function DecimalValue(ds: string): (v: nat)
    requires AllDigits(ds)
    ensures ds == [] ==> v == 0
    ensures ds != [] ==> v % 10 == ds[|ds| - 1] as int - '0' as int
  {
    if ds == [] then 0
    else 10 * DecimalValue(ds[..|ds| - 1]) + (ds[|ds| - 1] as int - '0' as int)
  }

  /** A numeral reads as 0 exactly when all its digits are zeros (the empty numeral included). */
  lemma {:induction false} DecimalValueIsZero(ds: string)
    requires AllDigits(ds)
    ensures DecimalValue(ds) == 0 <==> forall i :: 0 <= i < |ds| ==> ds[i] == '0'
  {
    if ds != [] {
      var init := ds[..|ds| - 1];
      DecimalValueIsZero(init);
      assert forall i :: 0 <= i < |init| ==> init[i] == ds[i];
    }
  }

  /** The decimal numeral of `n`, without leading zeros. */
  function ShowDecimal(n: nat): (r: string)
    ensures |r| >= 1 && AllDigits(r)
    ensures |r| > 1 ==> r[0] != '0'
  {
    if n < 10 then [('0' as int + n) as char]
    else ShowDecimal(n / 10) + [('0' as int + n % 10) as char]
  }

  /** Reading back a numeral gives the number it was written from. */
  lemma {:induction false} DecimalRoundTrip(n: nat)
    ensures DecimalValue(ShowDecimal(n)) == n
  {
    if n >= 10 {
      var r := ShowDecimal(n);
      assert r[..|r| - 1] == ShowDecimal(n / 10);
      DecimalRoundTrip(n / 10);
    }
  }

  /** Leading zeros do not change the value (`parseInt("007", 10)` is 7). */
  lemma {:induction false} LeadingZeroIgnored(ds: string)
    requires AllDigits(ds)
    ensures DecimalValue("0" + ds) == DecimalValue(ds)
  {
    if ds != [] {
      assert ("0" + ds)[..|ds|] == "0" + ds[..|ds| - 1];
      LeadingZeroIgnored(ds[..|ds| - 1]);
    }
  }

  // ---------------------------------------------------------------------
  // The rules

  /** Rule 3: `min_length` is one more than the digits after the leftmost `longer than <digit>`. */
  ghost predicate LengthRule(q: string, minLength: Option<NumParam>) {
    && (minLength.Some? <==> exists i: nat :: MatchesAt(q, LONGER_THAN, IsAsciiDigit, i))
    && (forall i: nat :: IsFirstMatch(q, LONGER_THAN, IsAsciiDigit, i) ==>
          minLength == Some(Number(DecimalValue(DigitsAt(q, i + |LONGER_THAN|)) + 1)))
  }

  /** Rule 4: the letter after the leftmost `containing the letter <a-z>`. */
  ghost predicate LetterRule(q: string, containsCharacter: Option<string>) {
    && (containsCharacter.Some? <==> exists i: nat :: MatchesAt(q, CONTAINING_THE_LETTER, IsAsciiLower, i))
    && (forall i: nat :: IsFirstMatch(q, CONTAINING_THE_LETTER, IsAsciiLower, i) ==>
          containsCharacter == Some([q[i + |CONTAINING_THE_LETTER|]]))
  }

  /** Rules 4 and 5 on the same field: `first vowel` overrides any letter found by rule 4. */
  ghost predicate ContainsRule(q: string, containsCharacter: Option<string>) {
    && (Includes(q, FIRST_VOWEL) ==> containsCharacter == Some("a"))
    && (!Includes(q, FIRST_VOWEL) ==> LetterRule(q, containsCharacter))
  }

  /** `filters` is what the ordered rules produce for `query`. */
  ghost predicate Interprets(query: string, filters: Filters) {
    var q := LowerStr(query);
    && filters.isPalindrome == (if Includes(q, PALINDROMIC) then Some(true) else None)
    && filters.wordCount == (if Includes(q, SINGLE_WORD) then Some(Number(1)) else None)
    && filters.maxLength == None
    && LengthRule(q, filters.minLength)
    && ContainsRule(q, filters.containsCharacter)
  }

  lemma LengthRuleFromMatch(q: string, m: Option<nat>, minLength: Option<NumParam>)
    requires m == FindMatch(q, LONGER_THAN, IsAsciiDigit, 0)
    requires m.None? ==> minLength.None?
    requires m.Some? ==> minLength == Some(Number(DecimalValue(DigitsAt(q, m.value + |LONGER_THAN|)) + 1))
    ensures LengthRule(q, minLength)
  {
    if m.Some? {
      assert IsFirstMatch(q, LONGER_THAN, IsAsciiDigit, m.value);
    }
  }

  lemma LetterRuleFromMatch(q: string, m: Option<nat>, containsCharacter: Option<string>)
    requires m == FindMatch(q, CONTAINING_THE_LETTER, IsAsciiLower, 0)
    requires m.None? ==> containsCharacter.None?
    requires m.Some? ==> containsCharacter == Some([q[m.value + |CONTAINING_THE_LETTER|]])
    ensures LetterRule(q, containsCharacter)
  {
    if m.Some? {
      assert IsFirstMatch(q, CONTAINING_THE_LETTER, IsAsciiLower, m.value);
    }
  }

  /** None of the five rules fires on `query`. */
  ghost predicate NoRuleFires(query: string) {
    var q := LowerStr(query);
    && !Includes(q, PALINDROMIC)
    && !Includes(q, SINGLE_WORD)
    && (forall i: nat :: !MatchesAt(q, LONGER_THAN, IsAsciiDigit, i))
    && (forall i: nat :: !MatchesAt(q, CONTAINING_THE_LETTER, IsAsciiLower, i))
    && !Includes(q, FIRST_VOWEL)
  }

  /** `parseNaturalLanguageQuery`: the rules applied in order to the lower-cased query. */
  method ParseNaturalLanguageQuery(query: string) returns (filters: Filters)
    ensures Interprets(query, filters)
  {
    filters := NoFilters;
    var lowerQuery := LowerStr(query);
    if Includes(lowerQuery, PALINDROMIC) {
      filters := filters.(isPalindrome := Some(true));
    }
    if Includes(lowerQuery, SINGLE_WORD) {
      filters := filters.(wordCount := Some(Number(1)));
    }
    var lengthMatch := FindMatch(lowerQuery, LONGER_THAN, IsAsciiDigit, 0);
    if lengthMatch.Some? {
      var digits := DigitsAt(lowerQuery, lengthMatch.value + |LONGER_THAN|);
      filters := filters.(minLength := Some(Number(DecimalValue(digits) + 1)));
    }
    LengthRuleFromMatch(lowerQuery, lengthMatch, filters.minLength);
    var containsMatch := FindMatch(lowerQuery, CONTAINING_THE_LETTER, IsAsciiLower, 0);
    if containsMatch.Some? {
      filters := filters.(containsCharacter := Some([lowerQuery[containsMatch.value + |CONTAINING_THE_LETTER|]]));
    }
    LetterRuleFromMatch(lowerQuery, containsMatch, filters.containsCharacter);
    if Includes(lowerQuery, FIRST_VOWEL) {
      filters := filters.(containsCharacter := Some("a"));
    }
  }

  /** The rules determine the filters: a query has exactly one interpretation. */
  lemma InterpretationIsUnique(query: string, f: Filters, g: Filters)
    requires Interprets(query, f) && Interprets(query, g)
    ensures f == g
  {
    var q := LowerStr(query);
    var lengthMatch := FindMatch(q, LONGER_THAN, IsAsciiDigit, 0);
    if lengthMatch.Some? {
      assert IsFirstMatch(q, LONGER_THAN, IsAsciiDigit, lengthMatch.value);
    }
    var containsMatch := FindMatch(q, CONTAINING_THE_LETTER, IsAsciiLower, 0);
    if containsMatch.Some? && !Includes(q, FIRST_VOWEL) {
      assert IsFirstMatch(q, CONTAINING_THE_LETTER, IsAsciiLower, containsMatch.value);
    }
  }

  /** The filter set is empty exactly when no rule fires. */
  lemma EmptyFiltersIffNoRuleFires(query: string, f: Filters)
    requires Interprets(query, f)
    ensures f == NoFilters <==> NoRuleFires(query)
  {
  }

  /** No occurrence of `lit` is possible when its first character is absent. */
  lemma AbsentWithoutFirstChar(s: string, lit: string)
    requires |lit| > 0 && lit[0] !in s
    ensures !Includes(s, lit)
  {
  }

  /** The query `"longer than N"`, written without leading zeros. */
  function LongerThanQuery(n: nat): (q: string)
    ensures IsAt(q, LONGER_THAN, 0)
    ensures DigitsAt(q, |LONGER_THAN|) == ShowDecimal(n)
  {
    var q := LONGER_THAN + ShowDecimal(n);
    assert q[|LONGER_THAN|..] == ShowDecimal(n);
    q
  }

  /** `"longer than N"` has no upper-case letter and none of the letters that begin the other rules. */
  lemma LongerThanAlphabet(n: nat)
    ensures forall i :: 0 <= i < |LongerThanQuery(n)| ==>
      var c := LongerThanQuery(n)[i];
      !IsAsciiUpper(c) && c != 'p' && c != 's' && c != 'c' && c != 'f'
  {
    var q := LongerThanQuery(n);
    assert q == LONGER_THAN + ShowDecimal(n);
  }

  /** Only the length rule fires on `"longer than N"`, and it fires at the start. */
  lemma LongerThanFiresOnlyLengthRule(n: nat)
    ensures LowerStr(LongerThanQuery(n)) == LongerThanQuery(n)
    ensures IsFirstMatch(LongerThanQuery(n), LONGER_THAN, IsAsciiDigit, 0)
    ensures !Includes(LongerThanQuery(n), PALINDROMIC) && !Includes(LongerThanQuery(n), SINGLE_WORD)
    ensures !Includes(LongerThanQuery(n), CONTAINING_THE_LETTER) && !Includes(LongerThanQuery(n), FIRST_VOWEL)
  {
    var q := LongerThanQuery(n);
    LongerThanAlphabet(n);
    LowerStrUnchanged(q);
    AbsentWithoutFirstChar(q, PALINDROMIC);
    AbsentWithoutFirstChar(q, SINGLE_WORD);
    AbsentWithoutFirstChar(q, CONTAINING_THE_LETTER);
    AbsentWithoutFirstChar(q, FIRST_VOWEL);
  }

  /** A `"containing the letter"` rule needs its literal to occur. */
  lemma LetterRuleNeedsLiteral(q: string, c: Option<string>)
    requires !Includes(q, CONTAINING_THE_LETTER) && LetterRule(q, c)
    ensures c == None
  {
  }

  /** `"longer than N"` is read as the single filter `min_length = N + 1`. */
  lemma LongerThanQueryMeansMinLength(n: nat, f: Filters)
    requires Interprets(LongerThanQuery(n), f)
    ensures f == Filters(None, Some(Number(n + 1)), None, None, None)
  {
    LongerThanFiresOnlyLengthRule(n);
    DecimalRoundTrip(n);
    LetterRuleNeedsLiteral(LongerThanQuery(n), f.containsCharacter);
  }
}
