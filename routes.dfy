/**
 * Dispatch of GET requests under `/strings`: Express tries the routes in the
 * order they were registered and runs the first whose pattern matches the path.
 */
module Routes {
  import opened Wrappers

  /** A path pattern segment: fixed text, or a `:name` parameter matching any non-empty segment. */
  datatype Segment = Lit(text: string) | Param

  datatype Handler = GetString | ListStrings | FilterByNaturalLanguage

  datatype Route = Route(pattern: seq<Segment>, handler: Handler)

  predicate SegmentMatches(seg: Segment, part: string) {
    match seg
    case Lit(text) => part == text
    case Param => part != ""
  }

  predicate PatternMatches(pattern: seq<Segment>, path: seq<string>) {
    |pattern| == |path| && forall i :: 0 <= i < |path| ==> SegmentMatches(pattern[i], path[i])
  }

  /** Route `i` matches and no earlier route does. */
  predicate IsFirstRoute(routes: seq<Route>, path: seq<string>, i: nat) {
    && i < |routes|
    && PatternMatches(routes[i].pattern, path)
    && forall j :: 0 <= j < i ==> !PatternMatches(routes[j].pattern, path)
  }

  /** The index of the first route that matches `path`. */
  function FirstRoute(routes: seq<Route>, path: seq<string>): (r: Option<nat>)
    ensures r.Some? ==> IsFirstRoute(routes, path, r.value)
    ensures r.None? ==> forall j :: 0 <= j < |routes| ==> !PatternMatches(routes[j].pattern, path)
  {
    if routes == [] then None
    else if PatternMatches(routes[0].pattern, path) then Some(0)
    else
      var rest := FirstRoute(routes[1..], path);
      if rest.None? then None
      else
        assert forall j :: 1 <= j < rest.value + 1 ==> routes[j] == routes[1..][j - 1];
        Some(rest.value + 1)
  }

  /** The handler that serves `path`, if any route matches. */
  function Dispatch(routes: seq<Route>, path: seq<string>): (h: Option<Handler>)
    ensures h.None? <==> forall j :: 0 <= j < |routes| ==> !PatternMatches(routes[j].pattern, path)
    ensures h.Some? ==> exists i: nat :: IsFirstRoute(routes, path, i) && routes[i].handler == h.value
  {
    var r := FirstRoute(routes, path);
    if r.None? then None else Some(routes[r.value].handler)
  }

  const NATURAL_LANGUAGE_PATH := ["strings", "filter-by-natural-language"]

  /** The GET routes in the order `index.js` registers them. */
  const GET_ROUTES_AS_WRITTEN := [
    Route([Lit("strings"), Param], GetString),
    Route([Lit("strings")], ListStrings),
    Route([Lit("strings"), Lit("filter-by-natural-language")], FilterByNaturalLanguage)]

  /** The same routes with the fixed path registered before the parameterised one. */
  const GET_ROUTES := [
    Route([Lit("strings"), Lit("filter-by-natural-language")], FilterByNaturalLanguage),
    Route([Lit("strings"), Param], GetString),
    Route([Lit("strings")], ListStrings)]

  /** As registered, the natural-language path is served by the single-string handler. */
  lemma NaturalLanguagePathIsShadowed()
    ensures Dispatch(GET_ROUTES_AS_WRITTEN, NATURAL_LANGUAGE_PATH) == Some(GetString)
  {
    assert PatternMatches(GET_ROUTES_AS_WRITTEN[0].pattern, NATURAL_LANGUAGE_PATH);
  }

  /** As registered, no path at all reaches the natural-language handler. */
  lemma NaturalLanguageHandlerIsUnreachable(path: seq<string>)
    ensures Dispatch(GET_ROUTES_AS_WRITTEN, path) != Some(FilterByNaturalLanguage)
  {
  }

  /** Reordered, every GET endpoint is reachable: the fixed path, any other key, and the listing. */
  lemma EveryHandlerIsReachable(key: string)
    requires key != "" && key != "filter-by-natural-language"
    ensures Dispatch(GET_ROUTES, NATURAL_LANGUAGE_PATH) == Some(FilterByNaturalLanguage)
    ensures Dispatch(GET_ROUTES, ["strings", key]) == Some(GetString)
    ensures Dispatch(GET_ROUTES, ["strings"]) == Some(ListStrings)
  {
    assert PatternMatches(GET_ROUTES[0].pattern, NATURAL_LANGUAGE_PATH);
    assert !PatternMatches(GET_ROUTES[0].pattern, ["strings", key]) by {
      assert !SegmentMatches(GET_ROUTES[0].pattern[1], ["strings", key][1]);
    }
    assert PatternMatches(GET_ROUTES[1].pattern, ["strings", key]);
    assert PatternMatches(GET_ROUTES[2].pattern, ["strings"]);
  }

  /** The first matching route is determined by the matches alone. */
  lemma DispatchByFirstRoute(routes: seq<Route>, path: seq<string>, i: nat)
    requires IsFirstRoute(routes, path, i)
    ensures Dispatch(routes, path) == Some(routes[i].handler)
  {
    var r := FirstRoute(routes, path);
    assert r.Some? by {
      assert PatternMatches(routes[i].pattern, path);
    }
  }

  /** The reordering changes only where the natural-language path goes. */
  lemma ReorderingChangesOnlyThatPath(path: seq<string>)
    requires path != NATURAL_LANGUAGE_PATH
    ensures Dispatch(GET_ROUTES, path) == Dispatch(GET_ROUTES_AS_WRITTEN, path)
  {
    if |path| == 2 && path[0] == "strings" && path[1] != "" {
      assert path == ["strings", path[1]];
      assert !SegmentMatches(GET_ROUTES[0].pattern[1], path[1]);
      assert IsFirstRoute(GET_ROUTES, path, 1);
      assert IsFirstRoute(GET_ROUTES_AS_WRITTEN, path, 0);
      DispatchByFirstRoute(GET_ROUTES, path, 1);
      DispatchByFirstRoute(GET_ROUTES_AS_WRITTEN, path, 0);
    } else if path == ["strings"] {
      assert IsFirstRoute(GET_ROUTES, path, 2);
      assert IsFirstRoute(GET_ROUTES_AS_WRITTEN, path, 1);
      DispatchByFirstRoute(GET_ROUTES, path, 2);
      DispatchByFirstRoute(GET_ROUTES_AS_WRITTEN, path, 1);
    } else {
      assert !PatternMatches(GET_ROUTES[0].pattern, path);
      assert !PatternMatches(GET_ROUTES[1].pattern, path);
      assert !PatternMatches(GET_ROUTES[2].pattern, path);
      assert !PatternMatches(GET_ROUTES_AS_WRITTEN[2].pattern, path);
    }
  }
}
