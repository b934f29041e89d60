/** Writing a path back from a route and a parameter bag (`generate` in
    src/route-recognizer.js and dist/aurelia-route-recognizer.js): a `/` and
    the value of every non-epsilon segment, a leading `/` for a route that
    writes nothing, and the parameters the path did not use in the query
    string. */
module Generation {
  import opened Basics
  import opened Entities
  import opened Automaton
  import opened Segments
  import opened Routes
  import opened QueryString
  import opened Construction
  import opened Ranking
  import opened Recognition

  /** `{ segments, handlers }`: what `add` files a route under. */
  datatype NamedRoute = NamedRoute(segments: seq<Segment>, handlers: seq<HandlerEntry>)

  /** A segment whose value `generate` insists on and does not find: a
      dynamic or star segment, not optional, whose parameter is `null` or
      `undefined`. */
  predicate Required(seg: Segment, params: Params, version: Version)
  {
    (seg.Dynamic? || seg.Star?) && !IsOptional(seg, version) &&
    (seg.name !in params || params[seg.name].Null?)
  }

  /** One round of the loop of `generate`: epsilon segments write nothing;
      any other segment marks its parameter consumed and writes `/` and its
      value; a missing value throws, except that the newest version leaves
      out an optional segment instead. */
  function GenerateSegment(acc: (string, set<string>), seg: Segment, params: Params, version: Version): (r: Result<(string, set<string>)>)
    ensures r.Err? <==> Required(seg, params, version)
    ensures r.Err? ==> r.error == MissingParameter(seg.name)
  {
    if seg.Epsilon? then Ok(acc)
    else
      var (v, consumed) := Generate(seg, params, acc.1);
      if v.None? || v.value.Null? then
        if IsOptional(seg, version) then Ok((acc.0, consumed))
        else Err(MissingParameter(seg.name))
      else Ok((acc.0 + ("/" + Stringify(v.value)), consumed))
  }

  /** The loop of `generate` over the segments: the path written and the
      parameters consumed, or the first missing parameter. */
  function PathPart(segs: seq<Segment>, params: Params, version: Version): Result<(string, set<string>)>
    decreases |segs|
  {
    if segs == [] then Ok(("", {}))
    else match PathPart(segs[..|segs| - 1], params, version)
      case Err(e) => Err(e)
      case Ok(acc) => GenerateSegment(acc, segs[|segs| - 1], params, version)
  }

  /** The parameters left once the consumed ones are deleted. */
  function Unconsumed(params: Params, consumed: set<string>): (r: Params)
    ensures r.Keys == params.Keys - consumed
  {
    map k | k in params && k !in consumed :: params[k]
  }

  /** The older `generate(name, params)`: an unknown name throws; otherwise
      the rooted path and the inline query string of what is left. */
  ghost function LegacyGenerateOf(route: Option<NamedRoute>, name: string, params: Params): (r: Result<string>)
    ensures r.Ok? ==> r.value != [] && r.value[0] == '/'
    ensures route.None? ==> r == Err(NoSuchRoute(name))
    ensures route.Some? ==> (r.Err? <==> exists k :: 0 <= k < |route.value.segments| && Required(route.value.segments[k], params, Legacy))
  {
    match route
    case None => Err(NoSuchRoute(name))
    case Some(rt) =>
      PathPartFails(rt.segments, params, Legacy);
      match PathPart(rt.segments, params, Legacy)
      case Err(e) => Err(e)
      case Ok((out, consumed)) => Ok(Rooted(out) + QueryStringOf(Unconsumed(params, consumed)))
  }

  /** The newest `generate(nameOrRoute, params)`: an unknown route throws; a
      handler with `generationUsesHref` gives its `href`; otherwise the
      rooted path, and `?` and the query string `buildQuery` makes of what
      is left when that is not empty. */
  function CurrentGenerateOf(route: Option<NamedRoute>, key: string, params: Params, buildQuery: Params -> string): (r: Result<string>)
    requires route.Some? ==> route.value.handlers != []
    ensures r.Ok? && route.Some? && !route.value.handlers[0].handler.generationUsesHref ==> r.value != [] && r.value[0] == '/'
    ensures route.None? ==> r == Err(NoSuchRoute(key))
    ensures route.Some? && !route.value.handlers[0].handler.generationUsesHref ==>
      (r.Err? <==> exists k :: 0 <= k < |route.value.segments| && Required(route.value.segments[k], params, Current))
  {
    match route
    case None => Err(NoSuchRoute(key))
    case Some(rt) =>
      var handler := rt.handlers[0].handler;
      if handler.generationUsesHref then Ok(handler.href)
      else
        PathPartFails(rt.segments, params, Current);
        match PathPart(rt.segments, params, Current)
        case Err(e) => Err(e)
        case Ok((out, consumed)) =>
          var qs := buildQuery(Unconsumed(params, consumed));
          Ok(Rooted(out) + (if qs == "" then "" else "?" + qs))
  }

  // ---------------------------------------------------------------------------
  // The loops

  /** An error in a prefix of the segments is the error of the whole. */
  lemma {:induction false} PathPartErrorSticks(segs: seq<Segment>, j: nat, params: Params, version: Version)
    requires j <= |segs| && PathPart(segs[..j], params, version).Err?
    ensures PathPart(segs, params, version) == PathPart(segs[..j], params, version)
    decreases |segs| - j
  {
    if j < |segs| {
      var n := |segs| - 1;
      assert segs[..n][..j] == segs[..j];
      PathPartErrorSticks(segs[..n], j, params, version);
    } else {
      assert segs[..j] == segs;
    }
  }

  /** The loop of `generate` that writes the path, with its `throw`. */
  method GeneratePath(segs: seq<Segment>, params: Params, version: Version) returns (r: Result<(string, set<string>)>)
    ensures r == PathPart(segs, params, version)
  {
    var output := "";
    var consumed: set<string> := {};
    for i := 0 to |segs|
      invariant PathPart(segs[..i], params, version) == Ok((output, consumed))
    {
      assert segs[..i + 1][..i] == segs[..i];
      var seg := segs[i];
      if seg.Epsilon? {
        continue;
      }
      var (value, c) := Generate(seg, params, consumed);
      consumed := c;
      if value.None? || value.value.Null? {
        if !IsOptional(seg, version) {
          PathPartErrorSticks(segs, i + 1, params, version);
          return Err(MissingParameter(seg.name));
        }
      } else {
        output := output + ("/" + Stringify(value.value));
      }
    }
    assert segs[..|segs|] == segs;
    r := Ok((output, consumed));
  }

  /** `for (param in consumed) delete params[param]`. */
  method RemoveConsumed(params: Params, consumed: set<string>) returns (r: Params)
    ensures r == Unconsumed(params, consumed)
  {
    r := params;
    var left := consumed;
    while left != {}
      invariant left <= consumed
      invariant r == Unconsumed(params, consumed - left)
      decreases left
    {
      var k :| k in left;
      r := r - {k};
      left := left - {k};
    }
  }

  // ---------------------------------------------------------------------------
  // What generation promises

  /** `generate` throws exactly when some segment is `Required`, and then
      names the first such segment's parameter. */
  lemma {:induction false} PathPartFails(segs: seq<Segment>, params: Params, version: Version)
    ensures PathPart(segs, params, version).Err? <==> exists k :: 0 <= k < |segs| && Required(segs[k], params, version)
    ensures PathPart(segs, params, version).Err? ==> exists k ::
      && 0 <= k < |segs| && Required(segs[k], params, version)
      && (forall j :: 0 <= j < k ==> !Required(segs[j], params, version))
      && PathPart(segs, params, version).error == MissingParameter(segs[k].name)
    decreases |segs|
  {
    if segs != [] {
      var n := |segs| - 1;
      var init := segs[..n];
      PathPartFails(init, params, version);
      assert forall k :: 0 <= k < n ==> init[k] == segs[k];
      if PathPart(init, params, version).Ok? {
        if PathPart(segs, params, version).Err? {
          assert Required(segs[n], params, version);
        }
      }
    }
  }

  /** What `generate` writes for one segment: nothing for epsilon and for a
      left-out optional segment, otherwise the value as text. */
  function ValueAt(seg: Segment, params: Params): Option<string>
  {
    if seg.Epsilon? then None
    else
      var v := Generate(seg, params, {}).0;
      if v.None? || v.value.Null? then None else Some(Stringify(v.value))
  }

  function ValuesOf(segs: seq<Segment>, params: Params): (r: seq<Option<string>>)
    ensures |r| == |segs| && forall k :: 0 <= k < |segs| ==> r[k] == ValueAt(segs[k], params)
    decreases |segs|
  {
    if segs == [] then [] else ValuesOf(segs[..|segs| - 1], params) + [ValueAt(segs[|segs| - 1], params)]
  }

  /** A successful `generate` consumes exactly the route's parameter names,
      the `names` its parse lists. */
  lemma {:induction false} PathPartConsumes(segs: seq<Segment>, params: Params, version: Version)
    requires PathPart(segs, params, version).Ok?
    ensures PathPart(segs, params, version).value.1 == set n | n in NamesOf(segs)
    decreases |segs|
  {
    if segs != [] {
      var n := |segs| - 1;
      var init := segs[..n];
      PathPartConsumes(init, params, version);
      var extra := if segs[n].Dynamic? || segs[n].Star? then [segs[n].name] else [];
      assert NamesOf(segs) == NamesOf(init) + extra;
      assert (set x | x in NamesOf(init) + extra) == (set x | x in NamesOf(init)) + (set x | x in extra);
    }
  }

  /** A successful `generate` writes the segment values in order, each after
      a `/`. */
  lemma {:induction false} PathPartWrites(segs: seq<Segment>, params: Params, version: Version)
    requires PathPart(segs, params, version).Ok?
    ensures PathPart(segs, params, version).value.0 == Word(ValuesOf(segs, params))
    decreases |segs|
  {
    if segs != [] {
      var n := |segs| - 1;
      var init := segs[..n];
      PathPartWrites(init, params, version);
      WordSnoc(ValuesOf(init, params), ValueAt(segs[n], params));
    }
  }

  /** Parameter values `recognize` can read back: for every dynamic or star
      segment with a value, the text `generate` writes for it (a string,
      `true`/`false`, or a list's items joined by commas) is non-empty, and
      without `/` for a dynamic segment. */
  predicate Writable(segs: seq<Segment>, params: Params)
  {
    forall k :: 0 <= k < |segs| && (segs[k].Dynamic? || segs[k].Star?) && segs[k].name in params && !params[segs[k].name].Null? ==>
      Stringify(params[segs[k].name]) != [] && (segs[k].Dynamic? ==> '/' !in Stringify(params[segs[k].name]))
  }

  /** With such values, what a successful `generate` writes is a filling of
      the route's segments. */
  lemma GeneratedFills(segs: seq<Segment>, params: Params, version: Version)
    requires PathPart(segs, params, version).Ok? && Writable(segs, params)
    ensures FillsAll(segs, ValuesOf(segs, params))
  {
    PathPartFails(segs, params, version);
    var vals := ValuesOf(segs, params);
    forall k | 0 <= k < |segs|
      ensures Fills(segs[k], vals[k])
    {
      var seg := segs[k];
      assert !Required(seg, params, version);
      if !seg.Epsilon? && vals[k].Some? {
        GeneratedSpells(seg, params, {});
      }
    }
  }

  /** Generation and recognition agree: once a route is added, the path
      `generate` writes for it (without escapes and without a trailing `/`)
      is recognised, by a state that ranks at least as well as the route. */
  lemma GenerateThenRecognize(nodes: seq<Node>, segs: seq<Segment>, params: Params, version: Version,
                              payload: Terminal, queryParams: Params, captures: (Terminal, string) -> seq<Option<string>>,
                              after: seq<Node>, path: string)
    requires Closed(nodes) && Shaped(nodes) && |nodes| > 0
    requires version.Legacy? ==> NoOptional(segs)
    requires Writable(segs, params) && PathPart(segs, params, version).Ok?
    requires after == AddRoute(nodes, segs, version, payload).0
    requires path == Rooted(PathPart(segs, params, version).value.0)
    requires '%' !in path && (|path| == 1 || path[|path| - 1] != '/')
    ensures Closed(after) && |after| > 0
    ensures RecognizedAtLeast(after, path, queryParams, captures, payload.types)
  {
    var vals := ValuesOf(segs, params);
    PathPartWrites(segs, params, version);
    GeneratedFills(segs, params, version);
    WordRooted(vals);
    assert path == PathOf(vals);
    AddedRouteRecognized(nodes, segs, vals, version, payload, queryParams, captures, after, path);
  }
}
