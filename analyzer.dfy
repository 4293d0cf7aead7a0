/**
 * The string analyser: from one string, the property record that is stored
 * with it (length, case-insensitive palindrome flag, word count, number of
 * distinct characters, character frequency map and digest).
 */
module Analyzer {
  import opened Sequences
  import opened Text

  datatype Properties = Properties(
    length: nat,
    isPalindrome: bool,
    uniqueCharacters: nat,
    wordCount: nat,
    sha256Hash: string,
    characterFrequencyMap: map<char, nat>)

  // ---------------------------------------------------------------------
  // Palindrome test

  /** The lower-cased string equals its own reversal. */
  function IsPalindrome(s: string): (r: bool)
    ensures r <==> forall i :: 0 <= i < |s| ==> Lower(s[i]) == Lower(s[|s| - 1 - i])
  {
    var lowered := LowerStr(s);
    LowerStrAt(s);
    ReverseMirrors(lowered);
    assert lowered == Reverse(lowered) <==> forall i :: 0 <= i < |s| ==> lowered[i] == Reverse(lowered)[i];
    lowered == Reverse(lowered)
  }

  /** Strings that agree up to ASCII case get the same flag; in particular the flag ignores case. */
  lemma PalindromeIgnoresCase(s: string, t: string)
    requires LowerStr(s) == LowerStr(t)
    ensures IsPalindrome(s) == IsPalindrome(t)
  {
    assert |s| == |LowerStr(s)|;
    LowerStrAt(s);
    LowerStrAt(t);
    forall i | 0 <= i < |s| ensures Lower(s[i]) == Lower(t[i]) {
      assert LowerStr(s)[i] == LowerStr(t)[i];
    }
  }

  // ---------------------------------------------------------------------
  // Word count: `str.trim().split(/\s+/).filter(Boolean)`

  /** Number of leading whitespace characters. */
  function LeadingWhitespace(s: string): (k: nat)
    ensures k <= |s|
    ensures forall i :: 0 <= i < k ==> IsWhitespace(s[i])
    ensures k == |s| || !IsWhitespace(s[k])
  {
    if s == [] || !IsWhitespace(s[0]) then 0 else 1 + LeadingWhitespace(s[1..])
  }

  /** Start of the trailing whitespace run. */
  function TrailingWhitespaceStart(s: string): (k: nat)
    ensures k <= |s|
    ensures forall i :: k <= i < |s| ==> IsWhitespace(s[i])
    ensures k == 0 || !IsWhitespace(s[k - 1])
  {
    if s == [] || !IsWhitespace(s[|s| - 1]) then |s| else TrailingWhitespaceStart(s[..|s| - 1])
  }

  /** `String.prototype.trim`: the slice left after stripping whitespace at both ends. */
  function Trim(s: string): (r: string)
    ensures r == [] || (!IsWhitespace(r[0]) && !IsWhitespace(r[|r| - 1]))
    ensures r == [] ==> forall i :: 0 <= i < |s| ==> IsWhitespace(s[i])
  {
    var a := LeadingWhitespace(s);
    var rest := s[a..];
    var b := a + TrailingWhitespaceStart(rest);
    assert rest[..b - a] == s[a..b];
    assert forall i :: b <= i < |s| ==> s[i] == rest[i - a];
    rest[..b - a]
  }

  /** `trim` removes whitespace only: the result is a slice of the input with nothing but whitespace on either side. */
  lemma TrimIsSlice(s: string)
    ensures exists a, b ::
      && 0 <= a <= b <= |s| && Trim(s) == s[a..b]
      && (forall i :: 0 <= i < a ==> IsWhitespace(s[i]))
      && (forall i :: b <= i < |s| ==> IsWhitespace(s[i]))
  {
    var a := LeadingWhitespace(s);
    var rest := s[a..];
    var b := a + TrailingWhitespaceStart(rest);
    assert rest[..b - a] == s[a..b];
    assert forall i :: b <= i < |s| ==> s[i] == rest[i - a];
  }

  /** The non-whitespace characters of `s`, in order. */
  function NonWhitespace(s: string): string {
    if s == [] then [] else (if IsWhitespace(s[0]) then [] else [s[0]]) + NonWhitespace(s[1..])
  }

  lemma {:induction false} NonWhitespaceSkipsLeading(s: string, k: nat)
    requires k <= |s|
    requires forall i :: 0 <= i < k ==> IsWhitespace(s[i])
    ensures NonWhitespace(s[k..]) == NonWhitespace(s)
  {
    if k > 0 {
      assert s[1..][k - 1..] == s[k..];
      NonWhitespaceSkipsLeading(s[1..], k - 1);
    }
  }

  /** `split(/\s+/)`: the pieces between maximal whitespace runs (empty pieces at the ends included). */
  function SplitOnWhitespace(t: string): (tokens: seq<string>)
    ensures |tokens| >= 1
    ensures (tokens[0] == []) <==> (t == [] || IsWhitespace(t[0]))
    ensures forall k, i :: 0 <= k < |tokens| && 0 <= i < |tokens[k]| ==> !IsWhitespace(tokens[k][i])
    ensures forall k :: 0 < k < |tokens| - 1 ==> tokens[k] != []
    ensures Flatten(tokens) == NonWhitespace(t)
    decreases |t|
  {
    if t == [] then [[]]
    else if IsWhitespace(t[0]) then
      var k := LeadingWhitespace(t);
      var rest := SplitOnWhitespace(t[k..]);
      NonWhitespaceSkipsLeading(t, k);
      assert ([[]] + rest)[1..] == rest;
      [[]] + rest
    else
      var rest := SplitOnWhitespace(t[1..]);
      var tokens := [[t[0]] + rest[0]] + rest[1..];
      assert rest == [rest[0]] + rest[1..];
      assert tokens[1..] == rest[1..];
      assert Flatten(rest) == rest[0] + Flatten(rest[1..]);
      assert t == [t[0]] + t[1..];
      tokens
  }

  /** Each separator is a non-empty run of whitespace. */
  predicate WhitespaceRuns(seps: seq<string>) {
    forall j :: 0 <= j < |seps| ==> seps[j] != [] && forall i :: 0 <= i < |seps[j]| ==> IsWhitespace(seps[j][i])
  }

  /**
   * Where `split(/\s+/)` cuts: the text is the tokens joined by non-empty whitespace runs.
   * With the tokens free of whitespace and the inner ones non-empty, this fixes the split.
   */
  lemma {:induction false} SplitCutsAtWhitespaceRuns(t: string)
    ensures exists seps :: JoinsTo(SplitOnWhitespace(t), seps, t)
    decreases |t|
  {
    if t == [] {
      assert JoinsTo(SplitOnWhitespace(t), [], t);
    } else if IsWhitespace(t[0]) {
      var k := LeadingWhitespace(t);
      SplitCutsAtWhitespaceRuns(t[k..]);
      var seps :| JoinsTo(SplitOnWhitespace(t[k..]), seps, t[k..]);
      CutsAfterLeadingRun(t, seps);
    } else {
      SplitCutsAtWhitespaceRuns(t[1..]);
      var seps :| JoinsTo(SplitOnWhitespace(t[1..]), seps, t[1..]);
      CutsAfterFirstChar(t, seps);
    }
  }

  /** `t` is `tokens` joined by the whitespace runs `seps`. */
  predicate JoinsTo(tokens: seq<string>, seps: seq<string>, t: string) {
    |tokens| == |seps| + 1 && WhitespaceRuns(seps) && Interleave(tokens, seps) == t
  }

  lemma CutsAfterLeadingRun(t: string, seps: seq<string>)
    requires t != [] && IsWhitespace(t[0])
    requires JoinsTo(SplitOnWhitespace(t[LeadingWhitespace(t)..]), seps, t[LeadingWhitespace(t)..])
    ensures JoinsTo(SplitOnWhitespace(t), [t[..LeadingWhitespace(t)]] + seps, t)
  {
    var k := LeadingWhitespace(t);
    var rest := SplitOnWhitespace(t[k..]);
    assert SplitOnWhitespace(t) == [[]] + rest;
    JoinsAfterRun(t[..k], rest, seps, t[k..]);
    assert t[..k] + t[k..] == t;
  }

  lemma CutsAfterFirstChar(t: string, seps: seq<string>)
    requires t != [] && !IsWhitespace(t[0])
    requires JoinsTo(SplitOnWhitespace(t[1..]), seps, t[1..])
    ensures JoinsTo(SplitOnWhitespace(t), seps, t)
  {
    var rest := SplitOnWhitespace(t[1..]);
    assert SplitOnWhitespace(t) == [[t[0]] + rest[0]] + rest[1..];
    JoinsAfterChar(t[0], rest, seps, t[1..]);
    assert [t[0]] + t[1..] == t;
  }

  /** A leading whitespace run becomes the first separator, after an empty first token. */
  lemma JoinsAfterRun(run: string, tokens: seq<string>, seps: seq<string>, u: string)
    requires run != [] && forall i :: 0 <= i < |run| ==> IsWhitespace(run[i])
    requires JoinsTo(tokens, seps, u)
    ensures JoinsTo([[]] + tokens, [run] + seps, run + u)
  {
    InterleaveEmptyFirst(run, tokens, seps);
    assert WhitespaceRuns([run] + seps);
  }

  /** A non-whitespace character in front joins the first token. */
  lemma JoinsAfterChar(c: char, tokens: seq<string>, seps: seq<string>, u: string)
    requires JoinsTo(tokens, seps, u)
    ensures JoinsTo([[c] + tokens[0]] + tokens[1..], seps, [c] + u)
  {
    InterleaveConsFirst(c, tokens, seps);
  }

  /** `filter(Boolean)`: the non-empty tokens, each kept as often as it occurred. */
  function NonEmptyTokens(tokens: seq<string>): (r: seq<string>)
    ensures forall w :: multiset(r)[w] == if w == [] then 0 else multiset(tokens)[w]
    ensures IsSubsequence(r, tokens)
  {
    if tokens == [] then []
    else
      assert tokens == [tokens[0]] + tokens[1..];
      var rest := NonEmptyTokens(tokens[1..]);
      if tokens[0] == [] then
        rest
      else
        assert ([tokens[0]] + rest)[1..] == rest;
        [tokens[0]] + rest
  }

  /** Position `i` holds the last character of a maximal non-whitespace run. */
  predicate EndsWordAt(s: string, i: nat)
    requires i < |s|
  {
    !IsWhitespace(s[i]) && (i + 1 == |s| || IsWhitespace(s[i + 1]))
  }

  /** Reference count of words: the number of positions at which a word ends. */
  function WordEnds(s: string): (n: nat)
    ensures n <= |s|
  {
    if s == [] then 0 else (if EndsWordAt(s, 0) then 1 else 0) + WordEnds(s[1..])
  }

  lemma {:induction false} WordEndsSkipsLeading(s: string, k: nat)
    requires k <= |s|
    requires forall i :: 0 <= i < k ==> IsWhitespace(s[i])
    ensures WordEnds(s[k..]) == WordEnds(s)
  {
    if k > 0 {
      assert s[1..][k - 1..] == s[k..];
      WordEndsSkipsLeading(s[1..], k - 1);
    }
  }

  lemma {:induction false} WordEndsSkipsTrailing(s: string, k: nat)
    requires k <= |s|
    requires forall i :: k <= i < |s| ==> IsWhitespace(s[i])
    ensures WordEnds(s[..k]) == WordEnds(s)
  {
    if k == 0 {
      WordEndsSkipsLeading(s, |s|);
    } else {
      assert s[..k][1..] == s[1..][..k - 1];
      WordEndsSkipsTrailing(s[1..], k - 1);
    }
  }

  /** A string has no word exactly when it is all whitespace. */
  lemma {:induction false} NoWordsIffBlank(s: string)
    ensures WordEnds(s) == 0 <==> forall i :: 0 <= i < |s| ==> IsWhitespace(s[i])
  {
    if s != [] {
      NoWordsIffBlank(s[1..]);
      assert forall i :: 1 <= i < |s| ==> s[i] == s[1..][i - 1];
    }
  }

  /** Splitting on whitespace runs and dropping empty tokens leaves one token per word. */
  lemma {:induction false} TokensAreWords(t: string)
    ensures |NonEmptyTokens(SplitOnWhitespace(t))| == WordEnds(t)
    decreases |t|
  {
    if t == [] {
    } else if IsWhitespace(t[0]) {
      var k := LeadingWhitespace(t);
      TokensAreWords(t[k..]);
      WordEndsSkipsLeading(t, k);
      assert SplitOnWhitespace(t) == [[]] + SplitOnWhitespace(t[k..]);
      assert ([[]] + SplitOnWhitespace(t[k..]))[1..] == SplitOnWhitespace(t[k..]);
    } else {
      var rest := SplitOnWhitespace(t[1..]);
      TokensAreWords(t[1..]);
      var whole := [[t[0]] + rest[0]] + rest[1..];
      assert SplitOnWhitespace(t) == whole;
      assert whole[1..] == rest[1..];
      assert rest == [rest[0]] + rest[1..];
      assert NonEmptyTokens(rest) == (if rest[0] == [] then [] else [rest[0]]) + NonEmptyTokens(rest[1..]);
    }
  }

  /** `word_count`: tokens of the trimmed string split on whitespace runs, empty tokens dropped. */
  function WordCount(s: string): (r: nat)
    ensures r == WordEnds(s)
    ensures r <= |s|
    ensures r == 0 <==> forall i :: 0 <= i < |s| ==> IsWhitespace(s[i])
  {
    var rest := s[LeadingWhitespace(s)..];
    WordEndsSkipsLeading(s, LeadingWhitespace(s));
    WordEndsSkipsTrailing(rest, TrailingWhitespaceStart(rest));
    TokensAreWords(Trim(s));
    NoWordsIffBlank(s);
    var words := NonEmptyTokens(SplitOnWhitespace(Trim(s)));
    // The source's guard for a single empty token can no longer fire once empty tokens are gone.
    assert |words| == 1 ==> words[0] in multiset(words);
    var count: int := if |words| == 1 && words[0] == [] then 0 else |words|;
    count
  }

  // ---------------------------------------------------------------------
  // Distinct characters: `new Set(str).size`

  function CharSet(s: string): set<char> {
    set c | c in s
  }

  lemma {:induction false} CharSetBound(s: string)
    ensures |CharSet(s)| <= |s|
  {
    if s != [] {
      assert CharSet(s) == CharSet(s[1..]) + {s[0]};
      CharSetBound(s[1..]);
    }
  }

  function UniqueCharacters(s: string): (r: nat)
    ensures r <= |s|
    ensures r == 0 <==> s == []
  {
    CharSetBound(s);
    assert s != [] ==> s[0] in CharSet(s);
    |CharSet(s)|
  }

  // ---------------------------------------------------------------------
  // Character frequency map

  /** `freq` has a key for exactly the characters of `s`, each mapped to its number of occurrences. */
  predicate IsFrequencyMapOf(freq: map<char, nat>, s: string) {
    && freq.Keys == CharSet(s)
    && forall c :: c in freq ==> freq[c] == multiset(s)[c]
  }

  /** The `for...of` loop that bumps one counter per character. */
  method CharacterFrequency(s: string) returns (freq: map<char, nat>)
    ensures IsFrequencyMapOf(freq, s)
  {
    freq := map[];
    for i := 0 to |s|
      invariant IsFrequencyMapOf(freq, s[..i])
    {
      var c := s[i];
      freq := freq[c := (if c in freq then freq[c] else 0) + 1];
      assert s[..i + 1] == s[..i] + [c];
      assert CharSet(s[..i + 1]) == CharSet(s[..i]) + {c};
    }
    assert s[..|s|] == s;
  }

  ghost function AnyKey(m: map<char, nat>): (c: char)
    requires m != map[]
    ensures c in m
  {
    assert exists c :: c in m by {
      var k :| k in m.Keys;
    }
    var c :| c in m; c
  }

  /** The sum of all counts of a frequency map. */
  ghost function SumCounts(m: map<char, nat>): nat
    decreases |m|
  {
    if m == map[] then 0
    else
      var c := AnyKey(m);
      assert |m - {c}| < |m| by {
        assert (m - {c}).Keys == m.Keys - {c};
      }
      m[c] + SumCounts(m - {c})
  }

  /** Any key may be taken out first: the sum does not depend on the order of summation. */
  lemma {:induction false} SumCountsRemove(m: map<char, nat>, c: char)
    requires c in m
    ensures SumCounts(m) == m[c] + SumCounts(m - {c})
    decreases |m|
  {
    var d := AnyKey(m);
    if d != c {
      assert (m - {d}).Keys == m.Keys - {d};
      assert (m - {c}).Keys == m.Keys - {c};
      SumCountsRemove(m - {d}, c);
      SumCountsRemove(m - {c}, d);
      assert m - {d} - {c} == m - {c} - {d};
    }
  }

  /** Bumping one counter by one adds one to the sum. */
  lemma SumCountsBump(m: map<char, nat>, c: char)
    ensures SumCounts(m[c := (if c in m then m[c] else 0) + 1]) == SumCounts(m) + 1
  {
    var bumped := m[c := (if c in m then m[c] else 0) + 1];
    SumCountsRemove(bumped, c);
    assert bumped - {c} == m - {c};
    if c in m {
      SumCountsRemove(m, c);
    } else {
      assert m - {c} == m;
    }
  }

  /** Appending a character bumps exactly its counter. */
  lemma FrequencySnoc(freq: map<char, nat>, before: map<char, nat>, p: string, c: char)
    requires IsFrequencyMapOf(freq, p + [c])
    requires IsFrequencyMapOf(before, p)
    ensures freq == before[c := (if c in before then before[c] else 0) + 1]
  {
    assert multiset(p + [c]) == multiset(p) + multiset{c};
    assert CharSet(p + [c]) == CharSet(p) + {c};
    assert c !in before ==> multiset(p)[c] == 0;
  }

  /** The counts of a frequency map add up to the length of the string. */
  lemma {:induction false} FrequencySumIsLength(freq: map<char, nat>, s: string)
    requires IsFrequencyMapOf(freq, s)
    ensures SumCounts(freq) == |s|
  {
    if s == [] {
      assert freq == map[];
    } else {
      var p, c := s[..|s| - 1], s[|s| - 1];
      assert s == p + [c];
      var before := map x | x in CharSet(p) :: multiset(p)[x];
      FrequencySumIsLength(before, p);
      FrequencySnoc(freq, before, p, c);
      SumCountsBump(before, c);
    }
  }

  // ---------------------------------------------------------------------
  // The whole record

  /** `p` is the analysis of `s` under the digest function `digest`. */
  ghost predicate Describes(p: Properties, s: string, digest: string -> string) {
    && p.length == |s|
    && p.isPalindrome == IsPalindrome(s)
    && p.uniqueCharacters == UniqueCharacters(s)
    && p.wordCount == WordCount(s)
    && p.sha256Hash == digest(s)
    && IsFrequencyMapOf(p.characterFrequencyMap, s)
  }

  /** `analyzeString`; the SHA-256 computation is supplied as `digest`. */
  method AnalyzeString(s: string, digest: string -> string) returns (p: Properties)
    ensures Describes(p, s, digest)
  {
    var sha256Hash := digest(s);
    var length := |s|;
    var isPalindrome := IsPalindrome(s);
    var wordCount := WordCount(s);
    var uniqueCharacters := UniqueCharacters(s);
    var characterFrequencyMap := CharacterFrequency(s);
    p := Properties(length, isPalindrome, uniqueCharacters, wordCount, sha256Hash, characterFrequencyMap);
  }

  /** The fields of an analysis agree with one another. */
  lemma PropertiesAreConsistent(p: Properties, s: string, digest: string -> string)
    requires Describes(p, s, digest)
    ensures p.uniqueCharacters <= p.length && p.wordCount <= p.length
    ensures |p.characterFrequencyMap| == p.uniqueCharacters
    ensures SumCounts(p.characterFrequencyMap) == p.length
    ensures forall c :: c in p.characterFrequencyMap ==> p.characterFrequencyMap[c] >= 1
  {
    FrequencySumIsLength(p.characterFrequencyMap, s);
    assert |p.characterFrequencyMap| == |p.characterFrequencyMap.Keys|;
  }

  /** The analysis is a function of the string: two analyses of one string are equal. */
  lemma AnalysisIsDeterministic(p: Properties, q: Properties, s: string, digest: string -> string)
    requires Describes(p, s, digest) && Describes(q, s, digest)
    ensures p == q
  {
    assert p.characterFrequencyMap == q.characterFrequencyMap;
  }

  /** The empty string: length 0, no words, no characters, a palindrome. */
  lemma EmptyStringAnalysis()
    ensures IsPalindrome("") && WordCount("") == 0 && UniqueCharacters("") == 0
  {
  }

  lemma MixedCasePalindromes()
    ensures IsPalindrome("Racecar") && IsPalindrome("ab ba") && !IsPalindrome("ab")
  {
    assert Lower('a') != Lower('b');
  }
}
