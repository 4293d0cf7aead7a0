/**
 * The in-memory store of analysed strings and the five request handlers over it.
 * The store is keyed by the string value and remembers insertion order, which is
 * the order in which every listing returns records.
 */
module Store {
  import opened Wrappers
  import opened Sequences
  import opened Text
  import opened Analyzer
  import opened Query
  import opened Parser

  const OK := 200
  const CREATED := 201
  const NO_CONTENT := 204
  const BAD_REQUEST := 400
  const NOT_FOUND := 404
  const CONFLICT := 409
  const UNPROCESSABLE := 422

  /** A JSON value as `express.json()` delivers it. */
  datatype Json =
    | JNull
    | JBool(b: bool)
    | JNumber(n: real)
    | JString(s: string)
    | JArray(items: seq<Json>)
    | JObject(members: seq<(string, Json)>)

  /** JavaScript falsiness of a body field: absent, `null`, `false`, `0` or `""`. */
  predicate Falsy(v: Option<Json>): (r: bool)
    ensures v.Some? && (v.value.JArray? || v.value.JObject?) ==> !r
    ensures v.Some? && v.value.JString? ==> (r <==> v.value.s == "")
    ensures v.Some? && v.value.JNumber? ==> (r <==> v.value.n == 0.0)
  {
    v.None? || v.value == JNull || v.value == JBool(false) || v.value == JNumber(0.0) || v.value == JString("")
  }

  /** A query-string parameter is applied only when present and non-empty. */
  predicate Supplied<T>(p: Option<T>, empty: T -> bool) {
    p.Some? && !empty(p.value)
  }

  predicate IsEmptyText(s: string) {
    s == []
  }

  /**
   * The listing parameters. Text parameters are the raw strings; the numeric ones are
   * given as the result of `parseInt(_, 10)` on a non-empty raw string, `None` when the
   * parameter is absent or empty.
   */
  datatype ListParams = ListParams(
    isPalindrome: Option<string>,
    minLength: Option<NumParam>,
    maxLength: Option<NumParam>,
    wordCount: Option<NumParam>,
    containsCharacter: Option<string>)

  /** No position holds the same key twice. */
  predicate Distinct(xs: seq<string>) {
    forall i, j :: 0 <= i < j < |xs| ==> xs[i] != xs[j]
  }

  /** `xs` without `x`, the others in their order. */
  function Remove(xs: seq<string>, x: string): (r: seq<string>)
    ensures forall y :: y in r <==> y in xs && y != x
    ensures Distinct(xs) ==> Distinct(r)
    ensures Distinct(xs) && x in xs ==> |r| == |xs| - 1
    ensures x !in xs ==> r == xs
    ensures IsSubsequence(r, xs)
  {
    if xs == [] then []
    else if xs[0] == x then
      assert Distinct(xs) ==> x !in xs[1..];
      Remove(xs[1..], x)
    else
      var rest := Remove(xs[1..], x);
      assert Distinct(xs) ==> Distinct(xs[1..]);
      assert Distinct(xs) ==> xs[0] !in rest;
      assert xs == [xs[0]] + xs[1..];
      [xs[0]] + rest
  }

  /** The stored records in the order of their keys. */
  function ValuesOf(records: map<string, AnalyzedString>, order: seq<string>): (vs: seq<AnalyzedString>)
    requires forall k :: k in order ==> k in records
    ensures |vs| == |order|
    ensures forall i :: 0 <= i < |order| ==> vs[i] == records[order[i]]
  {
    if order == [] then [] else [records[order[0]]] + ValuesOf(records, order[1..])
  }

  /** Adding a new key last adds its record last, leaving the earlier records as they were. */
  lemma ValuesAppend(records: map<string, AnalyzedString>, order: seq<string>, k: string, r: AnalyzedString)
    requires forall x :: x in order ==> x in records
    requires k !in order
    ensures ValuesOf(records[k := r], order + [k]) == ValuesOf(records, order) + [r]
  {
  }

  /** What a stored record must be: the analysis of its own key, identified by its digest. */
  ghost predicate IsRecordOf(r: AnalyzedString, key: string, digest: string -> string) {
    && r.value == key
    && r.id == r.properties.sha256Hash
    && Describes(r.properties, key, digest)
  }

  /** Keys are listed once each, exactly the stored ones, none empty, each with its own analysis. */
  ghost predicate Consistent(records: map<string, AnalyzedString>, order: seq<string>, digest: string -> string) {
    && Distinct(order)
    && (forall k :: k in records <==> k in order)
    && "" !in records
    && (forall k :: k in records ==> IsRecordOf(records[k], k, digest))
  }

  /** Storing the record of a new, non-empty key and appending the key keeps the store consistent. */
  lemma ConsistentAfterAdd(records: map<string, AnalyzedString>, order: seq<string>, digest: string -> string, k: string, r: AnalyzedString)
    requires Consistent(records, order, digest)
    requires k != "" && k !in records && IsRecordOf(r, k, digest)
    ensures Consistent(records[k := r], order + [k], digest)
  {
  }

  /** Dropping a key from both the map and the order keeps the store consistent. */
  lemma ConsistentAfterRemove(records: map<string, AnalyzedString>, order: seq<string>, digest: string -> string, k: string)
    requires Consistent(records, order, digest)
    ensures Consistent(records - {k}, Remove(order, k), digest)
  {
  }

  class StringStore {
    var records: map<string, AnalyzedString>
    var order: seq<string>
    const digest: string -> string

    ghost predicate Valid()
      reads this
    {
      Consistent(records, order, digest)
    }

    /** `Array.from(analyzedStrings.values())`. */
    function Values(): (vs: seq<AnalyzedString>)
      reads this
      requires Valid()
      ensures vs == ValuesOf(records, order)
      ensures |vs| == |records|
    {
      assert records.Keys == set k | k in order;
      DistinctCardinality(order);
      ValuesOf(records, order)
    }

    constructor(digest: string -> string)
      ensures Valid()
      ensures records == map[] && order == []
      ensures this.digest == digest
    {
      records := map[];
      order := [];
      this.digest := digest;
    }

    /** The record for a new key `s` is analysed, stored and appended to the order. */
    method Add(s: string, createdAt: string) returns (rec: AnalyzedString)
      requires Valid() && s != "" && s !in records
      modifies this
      ensures Valid()
      ensures IsRecordOf(rec, s, digest) && rec.id == digest(s) && rec.createdAt == createdAt
      ensures records == old(records)[s := rec] && order == old(order) + [s]
      ensures Values() == old(Values()) + [rec]
    {
      var properties := AnalyzeString(s, digest);
      rec := AnalyzedString(properties.sha256Hash, s, properties, createdAt);
      ValuesAppend(records, order, s, rec);
      ConsistentAfterAdd(records, order, digest, s, rec);
      records := records[s := rec];
      order := order + [s];
    }

    /** `POST /strings` with body field `value`, stamped with `createdAt`. */
    method Insert(value: Option<Json>, createdAt: string) returns (status: int, created: Option<AnalyzedString>)
      requires Valid()
      modifies this
      ensures Valid()
      ensures Falsy(value) ==> status == BAD_REQUEST
      ensures !Falsy(value) && !value.value.JString? ==> status == UNPROCESSABLE
      ensures !Falsy(value) && value.value.JString? ==>
        status == (if value.value.s in old(records) then CONFLICT else CREATED)
      ensures status != CREATED ==> created.None? && records == old(records) && order == old(order)
      ensures status == CREATED ==>
        var s := value.value.s;
        && created.Some?
        && IsRecordOf(created.value, s, digest)
        && created.value.id == digest(s)
        && created.value.createdAt == createdAt
        && records == old(records)[s := created.value]
        && order == old(order) + [s]
        && Values() == old(Values()) + [created.value]
    {
      if Falsy(value) {
        return BAD_REQUEST, None;
      }
      if !value.value.JString? {
        return UNPROCESSABLE, None;
      }
      var s := value.value.s;
      if s in records {
        return CONFLICT, None;
      }
      var rec := Add(s, createdAt);
      return CREATED, Some(rec);
    }

    /** `GET /strings/:string_value`. */
    method Get(key: string) returns (status: int, found: Option<AnalyzedString>)
      requires Valid()
      ensures key in records ==> status == OK && found == Some(records[key])
      ensures key !in records ==> status == NOT_FOUND && found == None
      ensures found.Some? ==> found.value.value == key && found.value.id == digest(key)
    {
      if key !in records {
        return NOT_FOUND, None;
      }
      return OK, Some(records[key]);
    }

    /** `DELETE /strings/:string_value`. */
    method Delete(key: string) returns (status: int)
      requires Valid()
      modifies this
      ensures Valid()
      ensures old(key !in records) ==> status == NOT_FOUND && records == old(records) && order == old(order)
      ensures old(key in records) ==>
        && status == NO_CONTENT
        && records == old(records) - {key}
        && order == Remove(old(order), key)
        && |order| == |old(order)| - 1
    {
      if key !in records {
        return NOT_FOUND;
      }
      ConsistentAfterRemove(records, order, digest, key);
      records := records - {key};
      order := Remove(order, key);
      return NO_CONTENT;
    }

    /** `GET /strings`: each supplied parameter narrows the records, in insertion order. */
    method List(params: ListParams) returns (data: seq<AnalyzedString>, count: nat, applied: Filters)
      requires Valid()
      ensures applied == AppliedFilters(params)
      ensures data == Select(Values(), applied)
      ensures count == |data|
    {
      data, count, applied := ApplyListParams(Values(), params);
    }

    /** `GET /strings/filter-by-natural-language`: the parsed filters applied to every record. */
    method FilterByNaturalLanguage(query: Option<string>) returns (status: int, data: seq<AnalyzedString>, count: nat, parsed: Option<Filters>)
      requires Valid()
      ensures status == OK || status == BAD_REQUEST
      ensures status == OK <==> query.Some? && query.value != "" && !NoRuleFires(query.value)
      ensures status == BAD_REQUEST ==> parsed.None? && data == [] && count == 0
      ensures status == OK ==>
        && parsed.Some?
        && Interprets(query.value, parsed.value)
        && data == Select(Values(), parsed.value)
        && count == |data|
    {
      if query.None? || query.value == "" {
        return BAD_REQUEST, [], 0, None;
      }
      var filters := ParseNaturalLanguageQuery(query.value);
      EmptyFiltersIffNoRuleFires(query.value, filters);
      if filters == NoFilters {
        return BAD_REQUEST, [], 0, None;
      }
      data := ApplyParsedFilters(Values(), filters);
      assert filters.(maxLength := None) == filters;
      return OK, data, |data|, Some(filters);
    }
  }

  /** The filter set a listing request applies: the supplied parameters, `is_palindrome` read as `== "true"`. */
  function AppliedFilters(params: ListParams): (f: Filters)
    ensures f.isPalindrome.Some? <==> Supplied(params.isPalindrome, IsEmptyText)
    ensures f.isPalindrome.Some? ==> (f.isPalindrome.value <==> params.isPalindrome.value == "true")
    ensures f.minLength == params.minLength && f.maxLength == params.maxLength && f.wordCount == params.wordCount
    ensures f.containsCharacter.Some? <==> Supplied(params.containsCharacter, IsEmptyText)
    ensures f.containsCharacter.Some? ==> f.containsCharacter == params.containsCharacter
  {
    Filters(
      if Supplied(params.isPalindrome, IsEmptyText) then Some(params.isPalindrome.value == "true") else None,
      params.minLength,
      params.maxLength,
      params.wordCount,
      if Supplied(params.containsCharacter, IsEmptyText) then params.containsCharacter else None)
  }

  /** The listing handler's chain of `filter` calls, one per supplied parameter, in its order. */
  method ApplyListParams(all: seq<AnalyzedString>, params: ListParams) returns (data: seq<AnalyzedString>, count: nat, applied: Filters)
    ensures applied == AppliedFilters(params)
    ensures data == Select(all, applied)
    ensures count == |data|
  {
    data := all;
    applied := NoFilters;
    SelectWithoutFilters(all);
    if Supplied(params.isPalindrome, IsEmptyText) {
      var want := params.isPalindrome.value == "true";
      var p := (s: AnalyzedString) => s.properties.isPalindrome == want;
      var next := applied.(isPalindrome := Some(want));
      KeepNarrowsSelect(all, applied, next, p);
      data, applied := Keep(data, p), next;
    }
    if params.minLength.Some? {
      var bound := params.minLength.value;
      var p := (s: AnalyzedString) => AtLeast(s.properties.length, bound);
      var next := applied.(minLength := Some(bound));
      KeepNarrowsSelect(all, applied, next, p);
      data, applied := Keep(data, p), next;
    }
    if params.maxLength.Some? {
      var bound := params.maxLength.value;
      var p := (s: AnalyzedString) => AtMost(s.properties.length, bound);
      var next := applied.(maxLength := Some(bound));
      KeepNarrowsSelect(all, applied, next, p);
      data, applied := Keep(data, p), next;
    }
    if params.wordCount.Some? {
      var wanted := params.wordCount.value;
      var p := (s: AnalyzedString) => SameNumber(s.properties.wordCount, wanted);
      var next := applied.(wordCount := Some(wanted));
      KeepNarrowsSelect(all, applied, next, p);
      data, applied := Keep(data, p), next;
    }
    if Supplied(params.containsCharacter, IsEmptyText) {
      var c := params.containsCharacter.value;
      var p := (s: AnalyzedString) => Includes(s.value, c);
      var next := applied.(containsCharacter := Some(c));
      KeepNarrowsSelect(all, applied, next, p);
      data, applied := Keep(data, p), next;
    }
    count := |data|;
  }

  /** The natural-language handler's chain of `filter` calls, one per parsed filter, in its order; it has none for `max_length`. */
  method ApplyParsedFilters(all: seq<AnalyzedString>, filters: Filters) returns (data: seq<AnalyzedString>)
    ensures data == Select(all, filters.(maxLength := None))
  {
    data := all;
    var applied := NoFilters;
    SelectWithoutFilters(all);
    if filters.isPalindrome.Some? {
      var want := filters.isPalindrome.value;
      var p := (s: AnalyzedString) => s.properties.isPalindrome == want;
      var next := applied.(isPalindrome := Some(want));
      KeepNarrowsSelect(all, applied, next, p);
      data, applied := Keep(data, p), next;
    }
    if filters.wordCount.Some? {
      var wanted := filters.wordCount.value;
      var p := (s: AnalyzedString) => SameNumber(s.properties.wordCount, wanted);
      var next := applied.(wordCount := Some(wanted));
      KeepNarrowsSelect(all, applied, next, p);
      data, applied := Keep(data, p), next;
    }
    if filters.minLength.Some? {
      var bound := filters.minLength.value;
      var p := (s: AnalyzedString) => AtLeast(s.properties.length, bound);
      var next := applied.(minLength := Some(bound));
      KeepNarrowsSelect(all, applied, next, p);
      data, applied := Keep(data, p), next;
    }
    if filters.containsCharacter.Some? {
      var c := filters.containsCharacter.value;
      var p := (s: AnalyzedString) => Includes(s.value, c);
      var next := applied.(containsCharacter := Some(c));
      KeepNarrowsSelect(all, applied, next, p);
      data, applied := Keep(data, p), next;
    }
    assert applied == filters.(maxLength := None);
  }

  /** Inserting a string twice: the second request is a conflict and the store grows by one record. */
  method InsertTwice(st: StringStore, v: string, t1: string, t2: string) returns (first: int, second: int)
    requires st.Valid() && v != "" && v !in st.records
    modifies st
    ensures st.Valid()
    ensures first == CREATED && second == CONFLICT
    ensures v in st.records && st.order == old(st.order) + [v]
    ensures |st.records| == |old(st.records)| + 1
    ensures st.records[v].createdAt == t1
  {
    var created;
    first, created := st.Insert(Some(JString(v)), t1);
    second, created := st.Insert(Some(JString(v)), t2);
  }

  /** A stored string can be read back as the record its insertion returned. */
  method InsertThenGet(st: StringStore, v: string, t: string) returns (inserted: Option<AnalyzedString>, found: Option<AnalyzedString>)
    requires st.Valid() && v != "" && v !in st.records
    modifies st
    ensures inserted.Some? && found == inserted
  {
    var status;
    status, inserted := st.Insert(Some(JString(v)), t);
    status, found := st.Get(v);
  }

  /** Deleting twice: the second request finds nothing. */
  method DeleteTwice(st: StringStore, k: string) returns (first: int, second: int)
    requires st.Valid() && k in st.records
    modifies st
    ensures st.Valid()
    ensures first == NO_CONTENT && second == NOT_FOUND
    ensures k !in st.records && st.records == old(st.records) - {k}
  {
    first := st.Delete(k);
    second := st.Delete(k);
  }

  /** A string deleted and inserted again moves to the end of the listing order. */
  method ReinsertMovesLast(st: StringStore, k: string, t: string) returns (status: int)
    requires st.Valid() && k in st.records
    modifies st
    ensures status == CREATED
    ensures st.order == Remove(old(st.order), k) + [k]
  {
    status := st.Delete(k);
    var created;
    status, created := st.Insert(Some(JString(k)), t);
  }

  /** A list without repetitions has as many elements as its set. */
  lemma {:induction false} DistinctCardinality(xs: seq<string>)
    requires Distinct(xs)
    ensures |set k | k in xs| == |xs|
  {
    if xs != [] {
      assert Distinct(xs[1..]);
      DistinctCardinality(xs[1..]);
      assert (set k | k in xs) == {xs[0]} + (set k | k in xs[1..]);
    }
  }
}
