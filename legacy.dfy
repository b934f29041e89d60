/** The older `RouteRecognizer` (src/route-recognizer.js): one automaton
    rooted at `rootState` and a `names` table. Every route name is a single
    property key, a later route with the same name replaces the earlier one,
    and the query string is written and read by the class's own
    `generateQueryString` and `parseQueryString`. */
module Legacy {
  import opened Basics
  import opened Entities
  import opened Automaton
  import opened Segments
  import opened Routes
  import opened QueryString
  import opened Construction
  import opened Ranking
  import opened Recognition
  import opened Generation

  /** The key `this.names[routeName]` uses: none for a missing or empty
      name; an array of aliases is truthy and becomes the key of its string
      conversion, the aliases joined by commas. */
  function NameKey(name: RouteName): (r: Option<string>)
    ensures name.Named? ==> (r.Some? <==> name.name != "") && (r.Some? ==> r.value == name.name)
    ensures name.Unnamed? ==> r.None?
    ensures name.Aliases? ==> r == Some(Join(name.names, ','))
  {
    match name
    case Unnamed => None
    case Named(n) => if n == "" then None else Some(n)
    case Aliases(ns) => Some(Join(ns, ','))
  }

  /** What the older `add` stores on the accepting state: the route's one
      handler entry, the regular expression source (case-sensitive) and the
      tally. */
  function Payload(p: Parsed, route: ConfigurableRoute): Terminal
  {
    Terminal([HandlerEntry(route.handler, p.names)], RegexSource(p.segments, Legacy), false, p.types)
  }

  /** The older parse of a route's pattern, which cannot fail. */
  function ParsedOf(route: ConfigurableRoute): (p: Parsed)
    ensures Ok(p) == ParseOf(route.path, Legacy, true)
    ensures NoOptional(p.segments)
  {
    LegacyParseSucceeds(route.path, true);
    var p := ParseOf(route.path, Legacy, true).value;
    assert NoOptional(p.segments) by {
      ParseShape(route.path, Legacy, true);
    }
    p
  }

  /** `names` once `add(route)` has filed the route under its key, if it
      has one. */
  function Filed(names: map<string, NamedRoute>, route: ConfigurableRoute): map<string, NamedRoute>
  {
    var p := ParsedOf(route);
    var key := NameKey(route.handler.name);
    if key.Some? then names[key.value := NamedRoute(p.segments, [HandlerEntry(route.handler, p.names)])] else names
  }

  /** The older `add(route)`: the new arena, the new `names` and the state
      returned. */
  function AddOf(nodes: seq<Node>, names: map<string, NamedRoute>, route: ConfigurableRoute): (r: (seq<Node>, map<string, NamedRoute>, nat))
    requires Closed(nodes) && Shaped(nodes) && |nodes| > 0
    ensures Closed(r.0) && Shaped(r.0) && |r.0| >= |nodes| && r.2 < |r.0|
  {
    var p := ParsedOf(route);
    var (after, state) := AddRoute(nodes, p.segments, Legacy, Payload(p, route));
    (after, Filed(names, route), state)
  }

  /** `AddOf` in the steps the method takes: thread the segments, close an
      empty route, mark the final state. */
  lemma AddOfParts(nodes: seq<Node>, names: map<string, NamedRoute>, route: ConfigurableRoute, closed: seq<Node>, current: nat)
    requires Closed(nodes) && Shaped(nodes) && |nodes| > 0
    requires var b := BuildAll(Start(nodes), ParsedOf(route).segments, Legacy);
      (closed, current) == Close(b) && b.skippable == []
    ensures current < |closed|
    ensures AddOf(nodes, names, route) ==
      (closed[current := closed[current].(accepting := Some(Payload(ParsedOf(route), route)))], Filed(names, route), current)
  {
    var payload := Payload(ParsedOf(route), route);
    MarkLast(closed, [], current, payload);
    assert [] + [current] == [current];
  }

  /** `add(routes)` for an array: the routes added in order. */
  function AddAllOf(nodes: seq<Node>, names: map<string, NamedRoute>, routes: seq<ConfigurableRoute>): (r: (seq<Node>, map<string, NamedRoute>))
    requires Closed(nodes) && Shaped(nodes) && |nodes| > 0
    ensures Closed(r.0) && Shaped(r.0) && |r.0| >= |nodes|
    decreases |routes|
  {
    if routes == [] then (nodes, names)
    else
      var (n, m) := AddAllOf(nodes, names, routes[..|routes| - 1]);
      var (n2, m2, _) := AddOf(n, m, routes[|routes| - 1]);
      (n2, m2)
  }

  /** `recognize(path)`: the query string, if any, is parsed first (an error
      there is thrown before the path is looked at), then the path is
      recognised. */
  function RecognizeOf(nodes: seq<Node>, path: string, captures: (Terminal, string) -> seq<Option<string>>): Result<Option<RecognizeResults>>
    requires Closed(nodes) && |nodes| > 0
  {
    var (p, q) := SplitQuery(path);
    match (if q.None? then Ok(map[]) else ParseQueryStringOf(q.value))
    case Err(e) => Err(e)
    case Ok(queryParams) => RecognizePath(nodes, p, queryParams, captures)
  }

  /** The route registered under `name`, if any. */
  function Lookup(names: map<string, NamedRoute>, name: string): Option<NamedRoute>
  {
    if name in names then Some(names[name]) else None
  }

  class RouteRecognizer {
    /** The automaton; its state 0 is `rootState`. */
    const graph: StateGraph
    var names: map<string, NamedRoute>

    ghost predicate Valid()
      reads this, graph
    {
      graph.Valid() && Shaped(graph.nodes)
    }

    constructor ()
      ensures Valid() && fresh(graph)
      ensures graph.nodes == [Node(RootSpec, [], None)] && names == map[]
    {
      graph := new StateGraph();
      names := map[];
    }

    /** `add(route)` for a single route. */
    method Add(route: ConfigurableRoute) returns (state: nat)
      requires Valid()
      modifies this, graph
      ensures Valid()
      ensures (graph.nodes, names, state) == AddOf(old(graph.nodes), old(names), route)
    {
      var parsed := Parse(route.path, Legacy, true);
      var p := ParsedOf(route);
      assert parsed == Ok(p);
      ghost var before := graph.nodes;
      var current, regex := ThreadLegacy(graph, p.segments);
      AddOfParts(before, names, route, graph.nodes, current);
      var handlers := [HandlerEntry(route.handler, p.names)];
      var key := NameKey(route.handler.name);
      if key.Some? {
        names := names[key.value := NamedRoute(p.segments, handlers)];
      }
      var payload := Terminal(handlers, regex + "$", false, p.types);
      assert payload == Payload(p, route);
      graph.MarkAccepting(current, payload);
      state := current;
    }

    /** `add(routes)` for an array of routes. */
    method AddAll(routes: seq<ConfigurableRoute>)
      requires Valid()
      modifies this, graph
      ensures Valid()
      ensures (graph.nodes, names) == AddAllOf(old(graph.nodes), old(names), routes)
    {
      for i := 0 to |routes|
        invariant Valid()
        invariant (graph.nodes, names) == AddAllOf(old(graph.nodes), old(names), routes[..i])
      {
        assert routes[..i + 1][..i] == routes[..i];
        var _ := Add(routes[i]);
      }
      assert routes[..|routes|] == routes;
    }

    /** `handlersFor(name)`: a copy of the handlers filed under `name`. */
    method HandlersFor(name: string) returns (r: Result<seq<HandlerEntry>>)
      ensures name in names <==> r.Ok?
      ensures r.Ok? ==> r.value == names[name].handlers
      ensures r.Err? ==> r.error == NoSuchRoute(name)
    {
      if name !in names {
        return Err(NoSuchRoute(name));
      }
      var route := names[name];
      var result: seq<HandlerEntry> := [];
      for i := 0 to |route.handlers|
        invariant result == route.handlers[..i]
      {
        result := result + [route.handlers[i]];
      }
      assert route.handlers[..|route.handlers|] == route.handlers;
      r := Ok(result);
    }

    /** `hasRoute(name)`. */
    method HasRoute(name: string) returns (b: bool)
      ensures b <==> Lookup(names, name).Some?
    {
      b := name in names;
    }

    /** `generate(name, params)`. */
    method Generate(name: string, params: Params) returns (r: Result<string>)
      ensures r == LegacyGenerateOf(Lookup(names, name), name, params)
    {
      if name !in names {
        return Err(NoSuchRoute(name));
      }
      var route := names[name];
      var path := GeneratePath(route.segments, params, Legacy);
      if path.Err? {
        return Err(path.error);
      }
      var (output, consumed) := path.value;
      if output == [] || output[0] != '/' {
        output := "/" + output;
      }
      var rest := RemoveConsumed(params, consumed);
      var query := GenerateQueryString(rest);
      r := Ok(output + query);
    }

    /** `recognize(path)`, the regular expression's captures on a path being
        given by `captures`. */
    method Recognize(path: string, captures: (Terminal, string) -> seq<Option<string>>) returns (r: Result<Option<RecognizeResults>>)
      requires Valid()
      ensures r == RecognizeOf(graph.nodes, path, captures)
    {
      var (p, q) := SplitQuery(path);
      var queryParams: Params := map[];
      if q.Some? {
        var parsed := ParseQueryString(q.value);
        if parsed.Err? {
          return Err(parsed.error);
        }
        queryParams := parsed.value;
      }
      r := RecognizeIn(graph, p, queryParams, captures);
    }
  }

  // ---------------------------------------------------------------------------
  // What the older recognizer promises

  /** A named route is filed under its name, replacing whatever was filed
      there before; no other entry changes and an unnamed route files
      nothing. */
  lemma AddFilesName(nodes: seq<Node>, names: map<string, NamedRoute>, route: ConfigurableRoute)
    requires Closed(nodes) && Shaped(nodes) && |nodes| > 0
    ensures var after := AddOf(nodes, names, route).1;
      var key := NameKey(route.handler.name);
      && after.Keys == names.Keys + (if key.Some? then {key.value} else {})
      && (key.Some? ==> after[key.value] == NamedRoute(ParsedOf(route).segments, [HandlerEntry(route.handler, ParsedOf(route).names)]))
      && (forall k :: k in names && key != Some(k) ==> after[k] == names[k])
  {
  }

  /** Of two routes added under the same name, the later is the one `names`
      keeps. */
  lemma LastNameWins(nodes: seq<Node>, names: map<string, NamedRoute>, first: ConfigurableRoute, second: ConfigurableRoute)
    requires Closed(nodes) && Shaped(nodes) && |nodes| > 0
    requires NameKey(first.handler.name).Some? && NameKey(first.handler.name) == NameKey(second.handler.name)
    ensures var (n1, m1, _) := AddOf(nodes, names, first);
      var m2 := AddOf(n1, m1, second).1;
      m2[NameKey(first.handler.name).value].handlers == [HandlerEntry(second.handler, ParsedOf(second).names)]
  {
  }

  /** The round trip of the older version: once a named route is added,
      what `generate` writes under its name, query string included, is
      recognised as its path part with the unconsumed parameters read back
      as `queryParams` (lists as lists, other values as text), by a state
      that ranks at least as well as the route. The values must be ones the
      automaton can read, the keys must be plain, and the path part must be
      written without escapes, `?` or a trailing `/`. */
  lemma AddRecognizesGenerated(nodes: seq<Node>, names: map<string, NamedRoute>, route: ConfigurableRoute,
                               params: Params, captures: (Terminal, string) -> seq<Option<string>>, path: string)
    requires Closed(nodes) && Shaped(nodes) && |nodes| > 0
    requires NameKey(route.handler.name).Some?
    requires Writable(ParsedOf(route).segments, params) && PathPart(ParsedOf(route).segments, params, Legacy).Ok?
    requires forall k :: k in params ==> PlainKey(k)
    requires path == Rooted(PathPart(ParsedOf(route).segments, params, Legacy).value.0)
    requires '%' !in path && '?' !in path && (|path| == 1 || path[|path| - 1] != '/')
    ensures var (after, filed, _) := AddOf(nodes, names, route);
      var key := NameKey(route.handler.name).value;
      var rest := Unconsumed(params, PathPart(ParsedOf(route).segments, params, Legacy).value.1);
      var restored := Restored(rest);
      var out := LegacyGenerateOf(Lookup(filed, key), key, params);
      && out == Ok(path + QueryStringOf(rest))
      && RecognizeOf(after, out.value, captures) == RecognizePath(after, path, restored, captures)
      && RecognizedAtLeast(after, path, restored, captures, ParsedOf(route).types)
  {
    var p := ParsedOf(route);
    var (after, filed, _) := AddOf(nodes, names, route);
    var key := NameKey(route.handler.name).value;
    var rest := Unconsumed(params, PathPart(p.segments, params, Legacy).value.1);
    var restored := Restored(rest);
    var qs := QueryStringOf(rest);
    assert LegacyGenerateOf(Lookup(filed, key), key, params) == Ok(path + qs) by {
      assert Lookup(filed, key) == Some(NamedRoute(p.segments, [HandlerEntry(route.handler, p.names)]));
    }
    assert forall k :: k in rest ==> PlainKey(k);
    QueryRead(after, path, rest, captures);
    assert after == AddRoute(nodes, p.segments, Legacy, Payload(p, route)).0;
    GenerateThenRecognize(nodes, p.segments, params, Legacy, Payload(p, route), restored, captures, after, path);
  }

  /** `recognize` of a path without `?` followed by the older query string
      of `rest` recognises the path with `rest` read back as `queryParams`. */
  lemma QueryRead(nodes: seq<Node>, path: string, rest: Params, captures: (Terminal, string) -> seq<Option<string>>)
    requires Closed(nodes) && |nodes| > 0
    requires '?' !in path && forall k :: k in rest ==> PlainKey(k)
    ensures RecognizeOf(nodes, path + QueryStringOf(rest), captures) ==
      RecognizePath(nodes, path, Restored(rest), captures)
  {
    var qs := QueryStringOf(rest);
    SplitAfterPath(path, qs);
    if qs == "" {
      QueryStringEmpty(rest);
      assert Restored(rest) == map[];
      assert SplitQuery(path + qs) == (path, None);
    } else {
      QueryTail(rest);
      assert SplitQuery(path + qs) == (path, Some(qs[1..]));
      assert ParseQueryStringOf(qs[1..]) == Ok(Restored(rest));
    }
  }
}
