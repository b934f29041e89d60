/** The newest `RouteRecognizer` (dist/aurelia-route-recognizer.js): one
    automaton rooted at `rootState`, a `names` table in which the first route
    to claim a name keeps it, and a `routes` map keyed by handler. Optional
    segments, case-insensitive static segments and the `generationUsesHref`
    shortcut are new; the query string is written and read by aurelia-path's
    `buildQueryString` and `parseQueryString`, which are not part of this
    model and are parameters here. */
module Recognizer {
  import opened Basics
  import opened Entities
  import opened Automaton
  import opened Segments
  import opened Routes
  import opened Construction
  import opened Ranking
  import opened Recognition
  import opened Generation

  /** `nameOrRoute`: a route name or a handler object. */
  datatype RouteKey = ByName(name: string) | ByHandler(handler: Handler)

  /** How the error message writes `nameOrRoute`: a handler object converts
      to the text `[object Object]`. */
  function KeyText(key: RouteKey): string
  {
    match key
    case ByName(n) => n
    case ByHandler(_) => "[object Object]"
  }

  /** `routeNames`: nothing for a missing or empty name, the name itself, or
      the list of aliases. */
  function RouteNames(name: RouteName): (r: seq<string>)
    ensures name.Named? && name.name != "" ==> r == [name.name]
    ensures name.Aliases? ==> r == name.names
    ensures name.Unnamed? || name == Named("") ==> r == []
  {
    match name
    case Unnamed => []
    case Named(n) => if n == "" then [] else [n]
    case Aliases(ns) => ns
  }

  /** The loop that files a route under each of its names not yet taken. */
  function Register(names: map<string, NamedRoute>, keys: seq<string>, route: NamedRoute): map<string, NamedRoute>
    decreases |keys|
  {
    if keys == [] then names
    else
      var m := Register(names, keys[..|keys| - 1], route);
      var k := keys[|keys| - 1];
      if k in m then m else m[k := route]
  }

  /** What the newest `add` stores on the accepting states: the route's one
      handler entry, the regular expression source, the `i` flag unless the
      route is case-sensitive, and the tally. */
  function Payload(p: Parsed, route: ConfigurableRoute): Terminal
  {
    Terminal([HandlerEntry(route.handler, p.names)], RegexSource(p.segments, Current), !route.caseSensitive, p.types)
  }

  /** The recognizer's tables. */
  datatype Tables = Tables(names: map<string, NamedRoute>, routes: map<nat, NamedRoute>)

  /** The tables once `add` has filed a route parsed as `p`: under its
      handler, and under each of its names not yet taken. */
  function TablesAfter(tables: Tables, route: ConfigurableRoute, p: Parsed): Tables
  {
    var entry := NamedRoute(p.segments, [HandlerEntry(route.handler, p.names)]);
    Tables(Register(tables.names, RouteNames(route.handler.name), entry), tables.routes[route.handler.id := entry])
  }

  /** The newest `add(route)`: a `:name=value` pattern throws before
      anything changes; otherwise the new arena, the new tables and the
      state returned. */
  function AddOf(nodes: seq<Node>, tables: Tables, route: ConfigurableRoute): (r: Result<(seq<Node>, Tables, nat)>)
    requires Closed(nodes) && Shaped(nodes) && |nodes| > 0
    ensures r.Ok? ==> Closed(r.value.0) && Shaped(r.value.0) && |r.value.0| >= |nodes| && r.value.2 < |r.value.0|
  {
    match ParseOf(route.path, Current, route.caseSensitive)
    case Err(e) => Err(e)
    case Ok(p) =>
      var (after, state) := AddRoute(nodes, p.segments, Current, Payload(p, route));
      Ok((after, TablesAfter(tables, route, p), state))
  }

  /** `add(routes)` for an array: the routes added in order; the first
      error stops it, the routes before it staying added. */
  function AddAllOf(nodes: seq<Node>, tables: Tables, routes: seq<ConfigurableRoute>): (r: (seq<Node>, Tables, Option<Error>))
    requires Closed(nodes) && Shaped(nodes) && |nodes| > 0
    ensures Closed(r.0) && Shaped(r.0) && |r.0| >= |nodes|
    decreases |routes|
  {
    if routes == [] then (nodes, tables, None)
    else match AddOf(nodes, tables, routes[0])
      case Err(e) => (nodes, tables, Some(e))
      case Ok((n, t, _)) => AddAllOf(n, t, routes[1..])
  }

  /** `getRoute(nameOrRoute)`. */
  function RouteOf(tables: Tables, key: RouteKey): Option<NamedRoute>
  {
    match key
    case ByName(n) => if n in tables.names then Some(tables.names[n]) else None
    case ByHandler(h) => if h.id in tables.routes then Some(tables.routes[h.id]) else None
  }

  /** `recognize(path)`: the query string, if any, read by `parseQuery`,
      then the path recognised. */
  function RecognizeOf(nodes: seq<Node>, path: string, parseQuery: string -> Params,
                       captures: (Terminal, string) -> seq<Option<string>>): Result<Option<RecognizeResults>>
    requires Closed(nodes) && |nodes| > 0
  {
    var (p, q) := SplitQuery(path);
    RecognizePath(nodes, p, if q.None? then map[] else parseQuery(q.value), captures)
  }

  /** Every filed route has its handler entry. */
  predicate Filed(tables: Tables)
  {
    (forall k :: k in tables.names ==> tables.names[k].handlers != []) &&
    (forall id :: id in tables.routes ==> tables.routes[id].handlers != [])
  }

  /** The loop over `routeNames`. */
  method RegisterNames(names: map<string, NamedRoute>, keys: seq<string>, route: NamedRoute) returns (r: map<string, NamedRoute>)
    ensures r == Register(names, keys, route)
  {
    r := names;
    for i := 0 to |keys|
      invariant r == Register(names, keys[..i], route)
    {
      assert keys[..i + 1][..i] == keys[..i];
      if keys[i] !in r {
        r := r[keys[i] := route];
      }
    }
    assert keys[..|keys|] == keys;
  }

  class RouteRecognizer {
    /** The automaton; its state 0 is `rootState`. */
    const graph: StateGraph
    var names: map<string, NamedRoute>
    /** `routes`, keyed by the handler's identity. */
    var routes: map<nat, NamedRoute>

    ghost predicate Valid()
      reads this, graph
    {
      graph.Valid() && Shaped(graph.nodes) && Filed(Tables(names, routes))
    }

    constructor ()
      ensures Valid() && fresh(graph)
      ensures graph.nodes == [Node(RootSpec, [], None)] && names == map[] && routes == map[]
    {
      graph := new StateGraph();
      names := map[];
      routes := map[];
    }

    /** `add(route)` for a single route. */
    method Add(route: ConfigurableRoute) returns (r: Result<nat>)
      requires Valid()
      modifies this, graph
      ensures Valid()
      ensures var expected := AddOf(old(graph.nodes), Tables(old(names), old(routes)), route);
        && (expected.Err? ==> r == Err(expected.error) && graph.nodes == old(graph.nodes) && names == old(names) && routes == old(routes))
        && (expected.Ok? ==> r == Ok(expected.value.2) && graph.nodes == expected.value.0 && Tables(names, routes) == expected.value.1)
    {
      var parsed := Parse(route.path, Current, route.caseSensitive);
      if parsed.Err? {
        return Err(parsed.error);
      }
      var current := AddParsed(route, parsed.value);
      r := Ok(current);
    }

    /** The rest of `add` once the pattern is parsed: thread the segments,
        file the route by handler and by name, and mark the skipped states
        and the last one accepting. */
    method AddParsed(route: ConfigurableRoute, p: Parsed) returns (current: nat)
      requires Valid()
      modifies this, graph
      ensures Valid()
      ensures (graph.nodes, current) == AddRoute(old(graph.nodes), p.segments, Current, Payload(p, route))
      ensures Tables(names, routes) == TablesAfter(Tables(old(names), old(routes)), route, p)
    {
      ghost var before := graph.nodes;
      var skippable, regex;
      current, skippable, regex := Thread(graph, p.segments);
      ghost var closed := graph.nodes;
      var handlers := [HandlerEntry(route.handler, p.names)];
      var entry := NamedRoute(p.segments, handlers);
      routes := routes[route.handler.id := entry];
      names := RegisterNames(names, RouteNames(route.handler.name), entry);
      RegisterFiles(old(names), RouteNames(route.handler.name), entry);
      var payload := Terminal(handlers, regex + "$", !route.caseSensitive, p.types);
      assert payload == Payload(p, route);
      Accept(graph, current, skippable, payload);
      AddRouteSteps(before, p.segments, Current, payload, closed, current, skippable);
    }

    /** `add(routes)` for an array of routes. */
    method AddAll(routes: seq<ConfigurableRoute>) returns (error: Option<Error>)
      requires Valid()
      modifies this, graph
      ensures Valid()
      ensures (graph.nodes, Tables(names, this.routes), error) == AddAllOf(old(graph.nodes), Tables(old(names), old(this.routes)), routes)
    {
      for i := 0 to |routes|
        invariant Valid()
        invariant AddAllOf(graph.nodes, Tables(names, this.routes), routes[i..]) ==
          AddAllOf(old(graph.nodes), Tables(old(names), old(this.routes)), routes)
      {
        assert routes[i..][1..] == routes[i + 1..];
        var r := Add(routes[i]);
        if r.Err? {
          return Some(r.error);
        }
      }
      error := None;
    }

    /** `getRoute(nameOrRoute)`. */
    method GetRoute(key: RouteKey) returns (r: Option<NamedRoute>)
      ensures r == RouteOf(Tables(names, routes), key)
    {
      match key
      case ByName(n) =>
        r := if n in names then Some(names[n]) else None;
      case ByHandler(h) =>
        r := if h.id in routes then Some(routes[h.id]) else None;
    }

    /** `handlersFor(nameOrRoute)`: a copy of the route's handlers. */
    method HandlersFor(key: RouteKey) returns (r: Result<seq<HandlerEntry>>)
      ensures RouteOf(Tables(names, routes), key).None? <==> r == Err(NoSuchRoute(KeyText(key)))
      ensures RouteOf(Tables(names, routes), key).Some? ==> r == Ok(RouteOf(Tables(names, routes), key).value.handlers)
    {
      var route := GetRoute(key);
      if route.None? {
        return Err(NoSuchRoute(KeyText(key)));
      }
      r := Ok(route.value.handlers);
    }

    /** `hasRoute(nameOrRoute)`. */
    method HasRoute(key: RouteKey) returns (b: bool)
      ensures b <==> RouteOf(Tables(names, routes), key).Some?
    {
      var route := GetRoute(key);
      b := route.Some?;
    }

    /** `generate(nameOrRoute, params)`, with aurelia-path's
        `buildQueryString` given as `buildQuery`. */
    method Generate(key: RouteKey, params: Params, buildQuery: Params -> string) returns (r: Result<string>)
      requires Valid()
      ensures r == CurrentGenerateOf(RouteOf(Tables(names, routes), key), KeyText(key), params, buildQuery)
    {
      var route := GetRoute(key);
      if route.None? {
        return Err(NoSuchRoute(KeyText(key)));
      }
      var handler := route.value.handlers[0].handler;
      if handler.generationUsesHref {
        return Ok(handler.href);
      }
      var path := GeneratePath(route.value.segments, params, Current);
      if path.Err? {
        return Err(path.error);
      }
      var (output, consumed) := path.value;
      if output == [] || output[0] != '/' {
        output := "/" + output;
      }
      var routeParams := RemoveConsumed(params, consumed);
      var queryString := buildQuery(routeParams);
      r := Ok(output + (if queryString == "" then "" else "?" + queryString));
    }

    /** `recognize(path)`, with aurelia-path's `parseQueryString` given as
        `parseQuery` and the regular expression's captures on a path given
        by `captures`. */
    method Recognize(path: string, parseQuery: string -> Params,
                     captures: (Terminal, string) -> seq<Option<string>>) returns (r: Result<Option<RecognizeResults>>)
      requires Valid()
      ensures r == RecognizeOf(graph.nodes, path, parseQuery, captures)
    {
      var (p, q) := SplitQuery(path);
      var queryParams: Params := map[];
      if q.Some? {
        queryParams := parseQuery(q.value);
      }
      r := RecognizeIn(graph, p, queryParams, captures);
    }
  }

  // ---------------------------------------------------------------------------
  // Proof steps of the methods

  /** The tables `Register` leaves keep `Filed`. */
  lemma {:induction false} RegisterFiles(names: map<string, NamedRoute>, keys: seq<string>, route: NamedRoute)
    requires (forall k :: k in names ==> names[k].handlers != []) && route.handlers != []
    ensures forall k :: k in Register(names, keys, route) ==> Register(names, keys, route)[k].handlers != []
    decreases |keys|
  {
    if keys != [] {
      RegisterFiles(names, keys[..|keys| - 1], route);
    }
  }

  // ---------------------------------------------------------------------------
  // What the newest recognizer promises

  /** Names are first-come: every name in `keys` is filed, a name already
      filed keeps its route, and a new name gets `route`. */
  lemma {:induction false} FirstNameWins(names: map<string, NamedRoute>, keys: seq<string>, route: NamedRoute)
    ensures Register(names, keys, route).Keys == names.Keys + set k | k in keys
    ensures forall k :: k in names ==> Register(names, keys, route)[k] == names[k]
    ensures forall k :: k in keys && k !in names ==> Register(names, keys, route)[k] == route
    decreases |keys|
  {
    if keys != [] {
      var init := keys[..|keys| - 1];
      FirstNameWins(names, init, route);
      assert forall k :: k in keys <==> k in init || k == keys[|keys| - 1];
    }
  }

  /** A route added successfully can be found by its handler, and by each
      of its names not already taken; every other name is untouched. */
  lemma AddFilesRoute(tables: Tables, route: ConfigurableRoute, p: Parsed)
    ensures var t := TablesAfter(tables, route, p);
      var entry := NamedRoute(p.segments, [HandlerEntry(route.handler, p.names)]);
      && RouteOf(t, ByHandler(route.handler)) == Some(entry)
      && (forall n :: n in RouteNames(route.handler.name) ==>
            RouteOf(t, ByName(n)) == (if n in tables.names then Some(tables.names[n]) else Some(entry)))
      && (forall n :: n !in RouteNames(route.handler.name) ==> RouteOf(t, ByName(n)) == RouteOf(tables, ByName(n)))
  {
    var entry := NamedRoute(p.segments, [HandlerEntry(route.handler, p.names)]);
    FirstNameWins(tables.names, RouteNames(route.handler.name), entry);
  }

  /** A handler that generates by `href` gets its `href` back whatever the
      parameters. */
  lemma HrefShortcut(tables: Tables, key: RouteKey, params: Params, buildQuery: Params -> string)
    requires Filed(tables) && RouteOf(tables, key).Some?
    requires RouteOf(tables, key).value.handlers[0].handler.generationUsesHref
    ensures CurrentGenerateOf(RouteOf(tables, key), KeyText(key), params, buildQuery) ==
      Ok(RouteOf(tables, key).value.handlers[0].handler.href)
  {
  }

  /** `add` throws exactly when a `:name` or `:name?` token has `=` in its
      name, and then changes nothing. */
  lemma AddFails(nodes: seq<Node>, tables: Tables, route: ConfigurableRoute)
    requires Closed(nodes) && Shaped(nodes) && |nodes| > 0
    ensures AddOf(nodes, tables, route).Err? <==>
      exists i :: 0 <= i < |Tokens(route.path)| && Tokens(route.path)[i] != [] && Tokens(route.path)[i][0] == ':' &&
        DynamicParts(Tokens(route.path)[i][1..]).Some? && '=' in DynamicParts(Tokens(route.path)[i][1..]).value.0
  {
    CurrentParseError(route.path, route.caseSensitive);
  }

  /** The round trip of the newest version: once a route is added, what
      `generate` writes for its handler, `?` and query string included, is
      recognised as its path part with `parseQuery` of that query string
      as `queryParams`, by a state that ranks at least as well as the route
      (optional parameters may be left out). The handler must not generate
      by `href`, the values must be ones the automaton can read, and the
      path part must be written without escapes, `?` or a trailing `/`. */
  lemma AddRecognizesGenerated(nodes: seq<Node>, tables: Tables, route: ConfigurableRoute, params: Params,
                               parseQuery: string -> Params, buildQuery: Params -> string,
                               captures: (Terminal, string) -> seq<Option<string>>, p: Parsed, path: string)
    requires Closed(nodes) && Shaped(nodes) && |nodes| > 0
    requires ParseOf(route.path, Current, route.caseSensitive) == Ok(p)
    requires !route.handler.generationUsesHref
    requires Writable(p.segments, params) && PathPart(p.segments, params, Current).Ok?
    requires path == Rooted(PathPart(p.segments, params, Current).value.0)
    requires '%' !in path && '?' !in path && (|path| == 1 || path[|path| - 1] != '/')
    ensures AddOf(nodes, tables, route).Ok?
    ensures var (after, t, _) := AddOf(nodes, tables, route).value;
      var qs := buildQuery(Unconsumed(params, PathPart(p.segments, params, Current).value.1));
      var queryParams := if qs == "" then map[] else parseQuery(qs);
      var out := CurrentGenerateOf(RouteOf(t, ByHandler(route.handler)), KeyText(ByHandler(route.handler)), params, buildQuery);
      && out == Ok(path + (if qs == "" then "" else "?" + qs))
      && RecognizeOf(after, out.value, parseQuery, captures) == RecognizePath(after, path, queryParams, captures)
      && RecognizedAtLeast(after, path, queryParams, captures, p.types)
  {
    var (after, t, _) := AddOf(nodes, tables, route).value;
    var qs := buildQuery(Unconsumed(params, PathPart(p.segments, params, Current).value.1));
    var queryParams := if qs == "" then map[] else parseQuery(qs);
    var tail := if qs == "" then "" else "?" + qs;
    AddFilesRoute(tables, route, p);
    assert CurrentGenerateOf(RouteOf(t, ByHandler(route.handler)), KeyText(ByHandler(route.handler)), params, buildQuery) == Ok(path + tail);
    SplitAfterPath(path, tail);
    assert tail != "" ==> tail[1..] == qs;
    assert RecognizeOf(after, path + tail, parseQuery, captures) == RecognizePath(after, path, queryParams, captures);
    assert after == AddRoute(nodes, p.segments, Current, Payload(p, route)).0;
    GenerateThenRecognize(nodes, p.segments, params, Current, Payload(p, route), queryParams, captures, after, path);
  }
}
