/** What `recognize` does with a path once the automaton is built, common to
    both versions (`recognize`, `recognizeChar`, `sortSolutions` and
    `findHandler` in dist/aurelia-route-recognizer.js and
    src/route-recognizer.js): split off the query string, decode and
    normalise the path, walk it, keep the accepting states, pick the best
    ranked one, and read the parameters out of the regular expression's
    captures. The regular-expression engine is not modelled: the captures of
    a match are a parameter. */
module Recognition {
  import opened Basics
  import opened Entities
  import opened UriCoding
  import opened Automaton
  import opened Ranking
  import opened Segments
  import opened Routes
  import opened Construction

  // ---------------------------------------------------------------------------
  // Query string and path normalisation

  /** `path.indexOf('?')`: the text before the first `?` and, when there is
      one, the query string after it. */
  function SplitQuery(path: string): (r: (string, Option<string>))
    ensures r.1.None? <==> '?' !in path
    ensures r.1.None? ==> r.0 == path
    ensures r.1.Some? ==> path == r.0 + "?" + r.1.value && '?' !in r.0
  {
    match IndexOf(path, '?')
    case None => (path, None)
    case Some(q) =>
      assert path == path[..q] + "?" + path[q + 1..];
      (path[..q], Some(path[q + 1..]))
  }

  /** A path without `?` followed by a query string that is empty or starts
      with `?` is split at that `?`, whatever else the query string holds. */
  lemma SplitAfterPath(path: string, qs: string)
    requires '?' !in path && (qs == "" || qs[0] == '?')
    ensures SplitQuery(path + qs) == (path, if qs == "" then None else Some(qs[1..]))
  {
    if qs != "" {
      assert path + qs == path + ['?'] + qs[1..];
      IndexOfAfter(path, '?', qs[1..]);
    } else {
      assert path + qs == path;
    }
  }

  /** The decoded path with a leading `/` added when it is missing. */
  function Rooted(decoded: string): (r: string)
    ensures r != [] && r[0] == '/'
  {
    if decoded != [] && decoded[0] == '/' then decoded else "/" + decoded
  }

  /** The path `recognize` walks and `isSlashDropped`: one trailing `/` is
      dropped from a rooted path longer than `/`. */
  function Normalize(decoded: string): (r: (string, bool))
    ensures r.0 != [] && r.0[0] == '/'
    ensures r.1 <==> |Rooted(decoded)| > 1 && Rooted(decoded)[|Rooted(decoded)| - 1] == '/'
    ensures r.0 + (if r.1 then "/" else "") == Rooted(decoded)
  {
    var p := Rooted(decoded);
    if |p| > 1 && p[|p| - 1] == '/' then
      assert p == p[..|p| - 1] + "/";
      (p[..|p| - 1], true)
    else (p, false)
  }

  /** A rooted path that does not end in `/`, or is `/` itself, is walked as
      it is. */
  lemma NormalizeKeeps(p: string)
    requires p != [] && p[0] == '/'
    requires |p| == 1 || p[|p| - 1] != '/'
    ensures Normalize(p) == (p, false)
  {
  }

  // ---------------------------------------------------------------------------
  // The walk

  /** No state, no walk. */
  lemma {:induction false} WalkNil(nodes: seq<Node>, w: string)
    requires Closed(nodes)
    ensures Walk(nodes, [], w) == []
    decreases |w|
  {
    if w != [] {
      WalkNil(nodes, w[1..]);
    }
  }

  /** The loop of `recognize` over the characters of the path, with its
      early `break` once no state is left. */
  method WalkPath(g: StateGraph, path: string) returns (states: seq<nat>)
    requires g.Valid()
    ensures states == Walk(g.nodes, [0], path)
  {
    states := [0];
    var i := 0;
    while i < |path|
      invariant 0 <= i <= |path| && EdgesIn(g.nodes, states)
      invariant Walk(g.nodes, states, path[i..]) == Walk(g.nodes, [0], path)
    {
      assert path[i..][1..] == path[i + 1..];
      states := g.RecognizeChar(states, path[i]);
      i := i + 1;
      if states == [] {
        WalkNil(g.nodes, path[i..]);
        break;
      }
    }
    assert path[i..] == [] || states == [];
    if path[i..] != [] {
      WalkNil(g.nodes, path[i..]);
    }
  }

  // ---------------------------------------------------------------------------
  // Solutions and the winner

  /** The states of the walk that carry handlers, in walk order, with their
      tallies. */
  function Solutions(nodes: seq<Node>, states: seq<nat>): (r: seq<Candidate>)
    requires EdgesIn(nodes, states)
    ensures forall k :: 0 <= k < |r| ==>
      r[k].state in states && r[k].state < |nodes| && nodes[r[k].state].accepting.Some? &&
      r[k].types == nodes[r[k].state].accepting.value.types
    ensures forall s :: s in states && s < |nodes| && nodes[s].accepting.Some? ==> exists k :: 0 <= k < |r| && r[k].state == s
    decreases |states|
  {
    if states == [] then []
    else
      var init := Solutions(nodes, states[..|states| - 1]);
      var s := states[|states| - 1];
      assert forall x :: x in states ==> x in states[..|states| - 1] || x == s;
      if nodes[s].accepting.Some? then
        var r := init + [Candidate(s, nodes[s].accepting.value.types)];
        assert r[|init|].state == s;
        assert forall k :: 0 <= k < |init| ==> r[k] == init[k];
        r
      else init
  }

  /** The loop of `recognize` that collects the states with handlers. */
  method CollectSolutions(g: StateGraph, states: seq<nat>) returns (solutions: seq<Candidate>)
    requires g.Valid() && EdgesIn(g.nodes, states)
    ensures solutions == Solutions(g.nodes, states)
  {
    solutions := [];
    for i := 0 to |states|
      invariant solutions == Solutions(g.nodes, states[..i])
    {
      assert states[..i + 1][..i] == states[..i];
      var s := states[i];
      if g.nodes[s].accepting.Some? {
        solutions := solutions + [Candidate(s, g.nodes[s].accepting.value.types)];
      }
    }
    assert states[..|states|] == states;
  }

  /** `solutions[0]` after `sortSolutions`, when there is a solution. */
  function Winner(nodes: seq<Node>, states: seq<nat>): (r: Option<nat>)
    requires EdgesIn(nodes, states)
  {
    var sol := Solutions(nodes, states);
    if sol == [] then None else Some(SortSolutions(sol)[0].state)
  }

  /** The winner is an accepting state of the walk that no other accepting
      state of the walk outranks; there is none exactly when no state of the
      walk carries handlers. (That it is the first such candidate in walk
      order is `Ranking.SortSolutionsWinner`.) */
  lemma WinnerIsBest(nodes: seq<Node>, states: seq<nat>)
    requires EdgesIn(nodes, states)
    ensures Winner(nodes, states).None? <==> forall s :: s in states && s < |nodes| ==> nodes[s].accepting.None?
    ensures Winner(nodes, states).Some? ==>
      var w := Winner(nodes, states).value;
      && w in states && w < |nodes| && nodes[w].accepting.Some?
      && forall s :: s in states && s < |nodes| && nodes[s].accepting.Some? ==>
           Compare(nodes[w].accepting.value.types, nodes[s].accepting.value.types) <= 0
  {
    var sol := Solutions(nodes, states);
    if sol != [] {
      SortSolutionsWinner(sol);
      var k := FirstBest(sol);
      assert Winner(nodes, states).value == sol[k].state;
      forall s | s in states && s < |nodes| && nodes[s].accepting.Some?
        ensures Compare(nodes[sol[k].state].accepting.value.types, nodes[s].accepting.value.types) <= 0
      {
        var j :| 0 <= j < |sol| && sol[j].state == s;
        assert Compare(sol[k].types, sol[j].types) <= 0;
      }
    } else {
      forall s | s in states && s < |nodes|
        ensures nodes[s].accepting.None?
      {
        if nodes[s].accepting.Some? {
          assert false;
        }
      }
    }
  }

  // ---------------------------------------------------------------------------
  // findHandler

  /** `captures[k]`: `undefined` past the end of the match. */
  function Capture(captures: seq<Option<string>>, k: nat): Option<string>
  {
    if k < |captures| then captures[k] else None
  }

  /** `params[names[j]] = captures[start + j]` for every `j` in order: a
      repeated name keeps its last capture. */
  function ParamsOf(names: seq<string>, captures: seq<Option<string>>, start: nat): (r: map<string, Option<string>>)
    ensures r.Keys == set j | 0 <= j < |names| :: names[j]
    decreases |names|
  {
    if names == [] then map[]
    else
      var n := |names| - 1;
      var init := ParamsOf(names[..n], captures, start);
      assert forall j :: 0 <= j < n ==> names[..n][j] == names[j];
      init[names[n] := Capture(captures, start + n)]
  }

  /** Each name is bound to the capture of its last occurrence; with
      distinct names, `names[j]` gets capture `start + j`. */
  lemma {:induction false} ParamsOfLast(names: seq<string>, captures: seq<Option<string>>, start: nat, j: nat)
    requires j < |names| && forall i :: j < i < |names| ==> names[i] != names[j]
    ensures ParamsOf(names, captures, start)[names[j]] == Capture(captures, start + j)
    decreases |names|
  {
    var n := |names| - 1;
    if j < n {
      ParamsOfLast(names[..n], captures, start, j);
    }
  }

  /** The results `findHandler` builds for `handlers` when the first of them
      takes its parameters from capture `start`, and the next capture
      index. */
  function HandlerResults(handlers: seq<HandlerEntry>, captures: seq<Option<string>>, start: nat): (r: (seq<RecognizedRoute>, nat))
    ensures |r.0| == |handlers|
    ensures forall i :: 0 <= i < |handlers| ==>
      r.0[i].handler == handlers[i].handler && (r.0[i].isDynamic <==> handlers[i].names != [])
    decreases |handlers|
  {
    if handlers == [] then ([], start)
    else
      var n := |handlers| - 1;
      var (init, next) := HandlerResults(handlers[..n], captures, start);
      var h := handlers[n];
      (init + [RecognizedRoute(h.handler, ParamsOf(h.names, captures, next), |h.names| > 0)], next + |h.names|)
  }

  /** `findHandler`: one result per handler entry, the captures dealt out in
      order from index 1 (index 0 is the whole match). */
  function FindHandlerOf(t: Terminal, captures: seq<Option<string>>, queryParams: Params): RecognizeResults
  {
    RecognizeResults(HandlerResults(t.handlers, captures, 1).0, queryParams)
  }

  /** The capture counter advances by the number of names of each handler:
      the `i`-th handler reads from just after all its predecessors' names. */
  lemma {:induction false} HandlerResultsCounter(handlers: seq<HandlerEntry>, captures: seq<Option<string>>, start: nat)
    ensures HandlerResults(handlers, captures, start).1 == start + NamesCount(handlers)
    decreases |handlers|
  {
    if handlers != [] {
      HandlerResultsCounter(handlers[..|handlers| - 1], captures, start);
    }
  }

  function NamesCount(handlers: seq<HandlerEntry>): nat
    decreases |handlers|
  {
    if handlers == [] then 0 else NamesCount(handlers[..|handlers| - 1]) + |handlers[|handlers| - 1].names|
  }

  /** A single handler entry, as `add` creates it, gets each of its distinct
      parameter names bound to the capture of the same position. */
  lemma SingleHandlerParams(entry: HandlerEntry, captures: seq<Option<string>>, j: nat)
    requires j < |entry.names| && forall i :: j < i < |entry.names| ==> entry.names[i] != entry.names[j]
    ensures var r := HandlerResults([entry], captures, 1).0;
      |r| == 1 && r[0].params[entry.names[j]] == Capture(captures, 1 + j)
  {
    assert [entry][..0] == [];
    ParamsOfLast(entry.names, captures, 1, j);
  }

  /** The inner loop of `findHandler`: each name takes the next capture. */
  method CollectParams(names: seq<string>, captures: seq<Option<string>>, start: nat) returns (params: map<string, Option<string>>)
    ensures params == ParamsOf(names, captures, start)
  {
    params := map[];
    for j := 0 to |names|
      invariant params == ParamsOf(names[..j], captures, start)
    {
      assert names[..j + 1][..j] == names[..j];
      params := params[names[j] := Capture(captures, start + j)];
    }
    assert names[..|names|] == names;
  }

  /** `findHandler` with its two loops and the running capture index. */
  method FindHandler(t: Terminal, captures: seq<Option<string>>, queryParams: Params) returns (result: RecognizeResults)
    ensures result == FindHandlerOf(t, captures, queryParams)
  {
    var handlers := t.handlers;
    var currentCapture := 1;
    var routes: seq<RecognizedRoute> := [];
    for i := 0 to |handlers|
      invariant (routes, currentCapture) == HandlerResults(handlers[..i], captures, 1)
    {
      assert handlers[..i + 1][..i] == handlers[..i];
      var names := handlers[i].names;
      var params := CollectParams(names, captures, currentCapture);
      routes := routes + [RecognizedRoute(handlers[i].handler, params, |names| > 0)];
      currentCapture := currentCapture + |names|;
    }
    assert handlers[..|handlers|] == handlers;
    result := RecognizeResults(routes, queryParams);
  }

  // ---------------------------------------------------------------------------
  // recognize, after the query string

  /** The answer for the winning payload `t`: the captures of its regular
      expression on the walked path, with the dropped `/` put back for a
      route ending in a star segment, dealt out by `findHandler`. */
  function Respond(t: Terminal, walked: string, dropped: bool, queryParams: Params,
                   captures: (Terminal, string) -> seq<Option<string>>): (r: RecognizeResults)
    ensures |r.routes| == |t.handlers| && r.queryParams == queryParams
    ensures forall i :: 0 <= i < |t.handlers| ==> r.routes[i].handler == t.handlers[i].handler
  {
    var full := if dropped && EndsWith(t.regex, "(.+)$") then walked + "/" else walked;
    FindHandlerOf(t, captures(t, full), queryParams)
  }

  /** What `recognize` answers once the walk has reached `states`: `None`
      (the `undefined` of no match) or the answer for the winner. */
  function Answer(nodes: seq<Node>, states: seq<nat>, walked: string, dropped: bool, queryParams: Params,
                  captures: (Terminal, string) -> seq<Option<string>>): Option<RecognizeResults>
    requires EdgesIn(nodes, states)
  {
    match Winner(nodes, states)
    case None => None
    case Some(w) =>
      WinnerIsBest(nodes, states);
      Some(Respond(nodes[w].accepting.value, walked, dropped, queryParams, captures))
  }

  /** There is no answer exactly when no state the walk reached carries
      handlers. */
  lemma AnswerNone(nodes: seq<Node>, states: seq<nat>, walked: string, dropped: bool, queryParams: Params,
                   captures: (Terminal, string) -> seq<Option<string>>)
    requires EdgesIn(nodes, states)
    ensures Answer(nodes, states, walked, dropped, queryParams, captures).None? <==>
      forall s :: s in states ==> nodes[s].accepting.None?
  {
    WinnerIsBest(nodes, states);
  }

  /** Otherwise the answer is that of a best-ranked state the walk
      reached. */
  lemma AnswerBest(nodes: seq<Node>, states: seq<nat>, walked: string, dropped: bool, queryParams: Params,
                   captures: (Terminal, string) -> seq<Option<string>>)
    requires EdgesIn(nodes, states)
    requires Answer(nodes, states, walked, dropped, queryParams, captures).Some?
    ensures exists w :: (w in states && nodes[w].accepting.Some? &&
      Answer(nodes, states, walked, dropped, queryParams, captures).value ==
        Respond(nodes[w].accepting.value, walked, dropped, queryParams, captures) &&
      forall s :: s in states && nodes[s].accepting.Some? ==>
        Compare(nodes[w].accepting.value.types, nodes[s].accepting.value.types) <= 0)
  {
    WinnerIsBest(nodes, states);
    var w := Winner(nodes, states).value;
    assert w in states && nodes[w].accepting.Some?;
  }

  /** `recognize` once the query string is split off and parsed: decode the
      path (a malformed escape throws `URIError`), normalise it and answer. */
  function RecognizePath(nodes: seq<Node>, path: string, queryParams: Params,
                         captures: (Terminal, string) -> seq<Option<string>>): (r: Result<Option<RecognizeResults>>)
    requires Closed(nodes) && |nodes| > 0
    ensures r.Err? <==> DecodeURI(path).Err?
    ensures r.Err? ==> r.error == UriError
    ensures r.Ok? && r.value.Some? ==> r.value.value.queryParams == queryParams
  {
    match DecodeURI(path)
    case Err(_) => Err(UriError)
    case Ok(decoded) =>
      var (walked, dropped) := Normalize(decoded);
      Ok(Answer(nodes, Walk(nodes, [0], walked), walked, dropped, queryParams, captures))
  }

  /** `recognize` answers `path` for a state the path reaches, whose route
      ranks at least as well as one with the given `types`: the answer is
      that state's response, carrying `queryParams`. */
  predicate RecognizedAtLeast(nodes: seq<Node>, path: string, queryParams: Params,
                              captures: (Terminal, string) -> seq<Option<string>>, types: Types)
    requires Closed(nodes) && |nodes| > 0
  {
    var r := RecognizePath(nodes, path, queryParams, captures);
    r.Ok? && r.value.Some? &&
    r.value.value.queryParams == queryParams &&
    exists w :: w in Walk(nodes, [0], path) && nodes[w].accepting.Some? &&
      r.value.value == Respond(nodes[w].accepting.value, path, false, queryParams, captures) &&
      Compare(nodes[w].accepting.value.types, types) <= 0
  }

  /** The body of `recognize` after the query string: decode, normalise,
      walk with early exit, collect the states with handlers, sort them and
      answer for the first. */
  method RecognizeIn(g: StateGraph, path: string, queryParams: Params,
                     captures: (Terminal, string) -> seq<Option<string>>) returns (r: Result<Option<RecognizeResults>>)
    requires g.Valid()
    ensures r == RecognizePath(g.nodes, path, queryParams, captures)
  {
    var decoded := DecodeURI(path);
    if decoded.Err? {
      return Err(UriError);
    }
    var (walked, dropped) := Normalize(decoded.value);
    var states := WalkPath(g, walked);
    var solutions := CollectSolutions(g, states);
    if solutions == [] {
      return Ok(None);
    }
    WinnerIsBest(g.nodes, states);
    var sorted := SortSolutions(solutions);
    var state := g.nodes[sorted[0].state].accepting.value;
    var full := walked;
    if dropped && EndsWith(state.regex, "(.+)$") {
      full := walked + "/";
    }
    var result := FindHandler(state, captures(state, full), queryParams);
    r := Ok(Some(result));
  }

  /** The slash `recognize` drops is put back exactly for a route whose last
      non-epsilon segment is a star segment. */
  lemma SlashRestored(segs: seq<Segment>, version: Version)
    ensures EndsWith(RegexSource(segs, version), "(.+)$") <==>
      LastSolid(segs).Some? && segs[LastSolid(segs).value].Star?
  {
    RegexEndsInStar(segs, version);
  }

  /** A non-empty path spelled by segment values starts with `/`. */
  lemma {:induction false} WordRooted(vals: seq<Option<string>>)
    ensures Word(vals) == [] || Word(vals)[0] == '/'
    decreases |vals|
  {
    if vals != [] {
      WordRooted(vals[1..]);
    }
  }

  /** A path written without escapes, rooted and without a trailing `/`,
      that walks to a state with handlers is recognised, by a state that
      ranks at least as well. */
  lemma RecognizeReached(nodes: seq<Node>, path: string, queryParams: Params,
                         captures: (Terminal, string) -> seq<Option<string>>, t: nat)
    requires Closed(nodes) && |nodes| > 0
    requires '%' !in path && path != [] && path[0] == '/' && (|path| == 1 || path[|path| - 1] != '/')
    requires t in Walk(nodes, [0], path) && t < |nodes| && nodes[t].accepting.Some?
    ensures var r := RecognizePath(nodes, path, queryParams, captures);
      r.Ok? && r.value.Some? &&
      exists w :: (w in Walk(nodes, [0], path) && nodes[w].accepting.Some? &&
        r.value.value == Respond(nodes[w].accepting.value, path, false, queryParams, captures) &&
        Compare(nodes[w].accepting.value.types, nodes[t].accepting.value.types) <= 0)
  {
    NormalizeKeeps(path);
    DecodeWithoutPercent(path, UriReserved);
    assert DecodeURI(path) == Ok(path);
    var states := Walk(nodes, [0], path);
    AnswerNone(nodes, states, path, false, queryParams, captures);
    AnswerBest(nodes, states, path, false, queryParams, captures);
    assert RecognizePath(nodes, path, queryParams, captures) == Ok(Answer(nodes, states, path, false, queryParams, captures));
  }

  /** End to end: once a route is added, a path that spells it, written
      without escapes and without a trailing `/`, is recognised, and the
      winner ranks at least as well as the added route. */
  lemma AddedRouteRecognized(nodes: seq<Node>, segs: seq<Segment>, vals: seq<Option<string>>, version: Version,
                             payload: Terminal, queryParams: Params, captures: (Terminal, string) -> seq<Option<string>>,
                             after: seq<Node>, path: string)
    requires Closed(nodes) && Shaped(nodes) && |nodes| > 0
    requires version.Legacy? ==> NoOptional(segs)
    requires FillsAll(segs, vals)
    requires after == AddRoute(nodes, segs, version, payload).0 && path == PathOf(vals)
    requires '%' !in path && (|path| == 1 || path[|path| - 1] != '/')
    ensures Closed(after) && |after| > 0
    ensures var r := RecognizePath(after, path, queryParams, captures);
      r.Ok? && r.value.Some? &&
      exists w :: (w in Walk(after, [0], path) && after[w].accepting.Some? &&
        r.value.value == Respond(after[w].accepting.value, path, false, queryParams, captures) &&
        Compare(after[w].accepting.value.types, payload.types) <= 0)
  {
    AddAccepts(nodes, segs, vals, version, payload, after);
    var t :| t in Walk(after, [0], path) && t < |after| && after[t].accepting == Some(payload);
    WordRooted(vals);
    RecognizeReached(after, path, queryParams, captures, t);
  }
}
