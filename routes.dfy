/** Route patterns: `parse`, which cuts a pattern such as `users/:id?`
    into segments and tallies their names and kinds, and the regular
    expression source `add` writes beside it (the `parse` function and the
    `regex` accumulation of `add` in src/route-recognizer.js and in
    dist/aurelia-route-recognizer.js). The two versions differ in how a
    token is classified, so every operation takes the `Version`. */
module Routes {
  import opened Basics
  import opened Entities
  import opened Segments

  /** `Legacy` is the src directory; `Current` is dist/aurelia-route-recognizer.js. */
  datatype Version = Legacy | Current

  /** What `parse` returns and fills in: the segments, the parameter names
      (`names`) and the tally of kinds (`types`). */
  datatype Parsed = Parsed(segments: seq<Segment>, names: seq<string>, types: Types)

  /** The characters `.` in a JavaScript regular expression does not match. */
  predicate IsLineTerminator(c: char)
  {
    c == '\n' || c == '\r' || c == '\U{2028}' || c == '\U{2029}'
  }

  /** `.+` matches the whole of `s`. */
  predicate AnyChars(s: string)
    decreases |s|
  {
    s != [] && !IsLineTerminator(s[0]) && (|s| == 1 || AnyChars(s[1..]))
  }

  /** The tokens of a pattern: one leading `/` dropped, then `split('/')`. */
  function Tokens(route: string): (tokens: seq<string>)
    ensures |tokens| >= 1 && forall i :: 0 <= i < |tokens| ==> '/' !in tokens[i]
  {
    Split(if route != [] && route[0] == '/' then route[1..] else route, '/')
  }

  /** The groups of `/^:([^?]+)(\?)?$/` for the text after the colon: the name
      and whether the `?` is there. */
  function DynamicParts(body: string): (r: Option<(string, bool)>)
    ensures r.Some? ==> r.value.0 != [] && '?' !in r.value.0
    ensures r.Some? ==> body == r.value.0 + (if r.value.1 then "?" else "")
  {
    if body != [] && '?' !in body then Some((body, false))
    else if |body| >= 2 && body[|body| - 1] == '?' && '?' !in body[..|body| - 1] then
      assert body == body[..|body| - 1] + "?";
      Some((body[..|body| - 1], true))
    else None
  }

  /** One token as `parse` classifies it.
      Legacy: `:x` and `*x` with `x` non-empty and free of `/`, the empty
      token, anything else static and case-sensitive.
      Current: `:name` or `:name?` (a name with `=` in it is an error), `*x`
      with `x` non-empty and free of line terminators, the empty token,
      anything else static with the route's case sensitivity. */
  function Classify(token: string, version: Version, caseSensitive: bool): (r: Result<Segment>)
    ensures r.Ok? ==> (r.value.Epsilon? <==> token == "")
    ensures version.Legacy? ==> r.Ok? && !(r.value.Dynamic? && r.value.optional)
    ensures version.Legacy? && r.value.Static? ==> r.value.caseSensitive
  {
    match version
    case Legacy =>
      if |token| >= 2 && token[0] == ':' && '/' !in token[1..] then Ok(Dynamic(token[1..], false))
      else if |token| >= 2 && token[0] == '*' && '/' !in token[1..] then Ok(Star(token[1..]))
      else if token == "" then Ok(Epsilon)
      else Ok(Static(token, true))
    case Current =>
      if token != [] && token[0] == ':' && DynamicParts(token[1..]).Some? then
        var (name, optional) := DynamicParts(token[1..]).value;
        if '=' in name then Err(DefaultValueNotSupported(name)) else Ok(Dynamic(name, optional))
      else if token != [] && token[0] == '*' && AnyChars(token[1..]) then
        Ok(Star(token[1..]))
      else if token == "" then Ok(Epsilon)
      else Ok(Static(token, caseSensitive))
  }

  /** The tokens classified left to right; the first error stops it. */
  function ClassifyAll(tokens: seq<string>, version: Version, caseSensitive: bool): Result<seq<Segment>>
    decreases |tokens|
  {
    if tokens == [] then Ok([])
    else match ClassifyAll(tokens[..|tokens| - 1], version, caseSensitive)
      case Err(e) => Err(e)
      case Ok(init) =>
        match Classify(tokens[|tokens| - 1], version, caseSensitive)
        case Err(e) => Err(e)
        case Ok(seg) => Ok(init + [seg])
  }

  /** The names of the dynamic and star segments, in order. */
  function NamesOf(segs: seq<Segment>): seq<string>
    decreases |segs|
  {
    if segs == [] then []
    else
      var last := segs[|segs| - 1];
      NamesOf(segs[..|segs| - 1]) + (if last.Dynamic? || last.Star? then [last.name] else [])
  }

  /** The tally of static, dynamic and star segments. */
  function TypesOf(segs: seq<Segment>): Types
    decreases |segs|
  {
    if segs == [] then Types(0, 0, 0)
    else
      var t := TypesOf(segs[..|segs| - 1]);
      match segs[|segs| - 1]
      case Static(_, _) => t.(statics := t.statics + 1)
      case Dynamic(_, _) => t.(dynamics := t.dynamics + 1)
      case Star(_) => t.(stars := t.stars + 1)
      case Epsilon => t
  }

  /** What `parse(route, names, types, caseSensitive)` returns, with the
      names and types it fills in. */
  function ParseOf(route: string, version: Version, caseSensitive: bool): Result<Parsed>
  {
    match ClassifyAll(Tokens(route), version, caseSensitive)
    case Err(e) => Err(e)
    case Ok(segs) => Ok(Parsed(segs, NamesOf(segs), TypesOf(segs)))
  }

  /** `parse`: one token at a time, pushing onto `results` and `names` and
      counting into `types`. */
  method Parse(route: string, version: Version, caseSensitive: bool) returns (r: Result<Parsed>)
    ensures r == ParseOf(route, version, caseSensitive)
  {
    var tokens := Tokens(route);
    var results: seq<Segment> := [];
    var names: seq<string> := [];
    var types := Types(0, 0, 0);
    for i := 0 to |tokens|
      invariant ClassifyAll(tokens[..i], version, caseSensitive) == Ok(results)
      invariant names == NamesOf(results) && types == TypesOf(results)
    {
      ClassifyAllStep(tokens, i, version, caseSensitive);
      var segment := Classify(tokens[i], version, caseSensitive);
      if segment.Err? {
        ClassifyAllError(tokens, i + 1, version, caseSensitive);
        return Err(segment.error);
      }
      var seg := segment.value;
      TallyStep(results, seg);
      if seg.Dynamic? {
        names := names + [seg.name];
        types := types.(dynamics := types.dynamics + 1);
      } else if seg.Star? {
        names := names + [seg.name];
        types := types.(stars := types.stars + 1);
      } else if seg.Static? {
        types := types.(statics := types.statics + 1);
      }
      results := results + [seg];
    }
    assert tokens[..|tokens|] == tokens;
    return Ok(Parsed(results, names, types));
  }

  /** One more token for `ClassifyAll`. */
  lemma ClassifyAllStep(tokens: seq<string>, i: nat, version: Version, caseSensitive: bool)
    requires i < |tokens| && ClassifyAll(tokens[..i], version, caseSensitive).Ok?
    ensures ClassifyAll(tokens[..i + 1], version, caseSensitive) ==
      match Classify(tokens[i], version, caseSensitive)
      case Err(e) => Err(e)
      case Ok(seg) => Ok(ClassifyAll(tokens[..i], version, caseSensitive).value + [seg])
  {
    assert tokens[..i + 1][..i] == tokens[..i];
  }

  /** One more segment for `NamesOf` and `TypesOf`. */
  lemma TallyStep(segs: seq<Segment>, seg: Segment)
    ensures NamesOf(segs + [seg]) == NamesOf(segs) + (if seg.Dynamic? || seg.Star? then [seg.name] else [])
    ensures TypesOf(segs + [seg]) == match seg
      case Static(_, _) => TypesOf(segs).(statics := TypesOf(segs).statics + 1)
      case Dynamic(_, _) => TypesOf(segs).(dynamics := TypesOf(segs).dynamics + 1)
      case Star(_) => TypesOf(segs).(stars := TypesOf(segs).stars + 1)
      case Epsilon => TypesOf(segs)
  {
    assert (segs + [seg])[..|segs|] == segs;
  }

  /** Once a prefix of the tokens fails, so does the whole. */
  lemma {:induction false} ClassifyAllError(tokens: seq<string>, i: nat, version: Version, caseSensitive: bool)
    requires i <= |tokens| && ClassifyAll(tokens[..i], version, caseSensitive).Err?
    ensures ClassifyAll(tokens, version, caseSensitive) == ClassifyAll(tokens[..i], version, caseSensitive)
    decreases |tokens| - i
  {
    if i < |tokens| {
      var t := tokens[..i + 1];
      assert t[..|t| - 1] == tokens[..i];
      ClassifyAllError(tokens, i + 1, version, caseSensitive);
    } else {
      assert tokens[..i] == tokens;
    }
  }

  // ---------------------------------------------------------------------------
  // What parse promises

  /** A successful classification has one segment per token, each the
      classification of its token; it fails exactly when some token does. */
  lemma {:induction false} ClassifyAllPointwise(tokens: seq<string>, version: Version, caseSensitive: bool)
    ensures ClassifyAll(tokens, version, caseSensitive).Ok? <==>
      forall i :: 0 <= i < |tokens| ==> Classify(tokens[i], version, caseSensitive).Ok?
    ensures ClassifyAll(tokens, version, caseSensitive).Ok? ==>
      var segs := ClassifyAll(tokens, version, caseSensitive).value;
      |segs| == |tokens| && forall i :: 0 <= i < |tokens| ==> Classify(tokens[i], version, caseSensitive) == Ok(segs[i])
    decreases |tokens|
  {
    if tokens != [] {
      var init := tokens[..|tokens| - 1];
      ClassifyAllPointwise(init, version, caseSensitive);
      assert forall i :: 0 <= i < |init| ==> init[i] == tokens[i];
    }
  }

  /** The older `parse` never throws. */
  lemma LegacyParseSucceeds(route: string, caseSensitive: bool)
    ensures ParseOf(route, Legacy, caseSensitive).Ok?
  {
    ClassifyAllPointwise(Tokens(route), Legacy, caseSensitive);
  }

  /** The newest `parse` throws exactly when some `:name` or `:name?` token
      has `=` in its name. */
  lemma CurrentParseError(route: string, caseSensitive: bool)
    ensures ParseOf(route, Current, caseSensitive).Err? <==>
      exists i :: 0 <= i < |Tokens(route)| && Tokens(route)[i] != [] && Tokens(route)[i][0] == ':' &&
        DynamicParts(Tokens(route)[i][1..]).Some? && '=' in DynamicParts(Tokens(route)[i][1..]).value.0
  {
    ClassifyAllPointwise(Tokens(route), Current, caseSensitive);
  }

  /** Number of non-empty tokens. */
  function NonEmpty(tokens: seq<string>): nat
    decreases |tokens|
  {
    if tokens == [] then 0 else NonEmpty(tokens[..|tokens| - 1]) + (if tokens[|tokens| - 1] != "" then 1 else 0)
  }

  /** Each non-empty token is counted once in `types`, and `names` holds one
      entry per dynamic or star segment. */
  lemma {:induction false} TypesCount(tokens: seq<string>, version: Version, caseSensitive: bool)
    requires ClassifyAll(tokens, version, caseSensitive).Ok?
    ensures var segs := ClassifyAll(tokens, version, caseSensitive).value;
      && TypesOf(segs).statics + TypesOf(segs).dynamics + TypesOf(segs).stars == NonEmpty(tokens)
      && |NamesOf(segs)| == TypesOf(segs).dynamics + TypesOf(segs).stars
    decreases |tokens|
  {
    if tokens != [] {
      var init := tokens[..|tokens| - 1];
      TypesCount(init, version, caseSensitive);
      var head := ClassifyAll(init, version, caseSensitive).value;
      var seg := Classify(tokens[|tokens| - 1], version, caseSensitive).value;
      assert ClassifyAll(tokens, version, caseSensitive).value == head + [seg];
      TallyStep(head, seg);
    }
  }

  /** The parse of a pattern: `ParseOf` agrees with the pointwise reading of
      its tokens, and the counts add up. */
  lemma ParseShape(route: string, version: Version, caseSensitive: bool)
    requires ParseOf(route, version, caseSensitive).Ok?
    ensures var p := ParseOf(route, version, caseSensitive).value;
      && |p.segments| == |Tokens(route)|
      && (forall i :: 0 <= i < |p.segments| ==> Classify(Tokens(route)[i], version, caseSensitive) == Ok(p.segments[i]))
      && p.types.statics + p.types.dynamics + p.types.stars == NonEmpty(Tokens(route))
      && |p.names| == p.types.dynamics + p.types.stars
  {
    ClassifyAllPointwise(Tokens(route), version, caseSensitive);
    TypesCount(Tokens(route), version, caseSensitive);
  }

  // ---------------------------------------------------------------------------
  // Writing a pattern back

  /** The token that stands for a segment in a pattern. */
  function Token(seg: Segment): string
  {
    match seg
    case Static(text, _) => text
    case Dynamic(name, optional) => ":" + name + (if optional then "?" else "")
    case Star(name) => "*" + name
    case Epsilon => ""
  }

  /** The segments a pattern can spell in a given version. */
  predicate Spellable(seg: Segment, version: Version, caseSensitive: bool)
  {
    match seg
    case Static(text, cs) =>
      text != [] && '/' !in text && text[0] != ':' && text[0] != '*' &&
      cs == (version.Legacy? || caseSensitive)
    case Dynamic(name, optional) =>
      name != [] && '/' !in name &&
      (version.Legacy? ==> !optional) && (version.Current? ==> '?' !in name && '=' !in name)
    case Star(name) =>
      name != [] && '/' !in name && (version.Current? ==> AnyChars(name))
    case Epsilon => true
  }

  /** A spellable segment's token classifies back to it. */
  lemma ClassifyToken(seg: Segment, version: Version, caseSensitive: bool)
    requires Spellable(seg, version, caseSensitive)
    ensures Classify(Token(seg), version, caseSensitive) == Ok(seg)
  {
    var token := Token(seg);
    match seg
    case Static(text, _) =>
    case Dynamic(name, optional) =>
      var body := token[1..];
      assert body == name + (if optional then "?" else "");
      if version.Current? {
        assert token != [] && token[0] == ':';
        if optional {
          assert body[|body| - 1] == '?';
          assert body[..|body| - 1] == name;
          assert DynamicParts(body) == Some((name, true));
        } else {
          assert body == name;
          assert DynamicParts(body) == Some((name, false));
        }
        assert '=' !in name;
      } else {
        assert body == name;
      }
    case Star(name) =>
      assert token[1..] == name;
    case Epsilon =>
  }

  function TokensOf(segs: seq<Segment>): (tokens: seq<string>)
    ensures |tokens| == |segs|
  {
    seq(|segs|, i requires 0 <= i < |segs| => Token(segs[i]))
  }

  lemma {:induction false} ClassifyTokens(segs: seq<Segment>, version: Version, caseSensitive: bool)
    requires forall i :: 0 <= i < |segs| ==> Spellable(segs[i], version, caseSensitive)
    ensures ClassifyAll(TokensOf(segs), version, caseSensitive) == Ok(segs)
    decreases |segs|
  {
    if segs != [] {
      var init := segs[..|segs| - 1];
      ClassifyTokens(init, version, caseSensitive);
      assert TokensOf(segs)[..|segs| - 1] == TokensOf(init);
      ClassifyToken(segs[|segs| - 1], version, caseSensitive);
      assert init + [segs[|segs| - 1]] == segs;
    }
  }

  /** The tokens of `/` followed by the tokens joined with `/`. */
  lemma TokensOfPattern(segs: seq<Segment>)
    requires segs != []
    requires forall i :: 0 <= i < |segs| ==> segs[i].Static? ==> '/' !in segs[i].text
    requires forall i :: 0 <= i < |segs| ==> segs[i].Dynamic? || segs[i].Star? ==> '/' !in segs[i].name
    ensures Tokens("/" + Join(TokensOf(segs), '/')) == TokensOf(segs)
  {
    var tokens := TokensOf(segs);
    var route := "/" + Join(tokens, '/');
    assert route[1..] == Join(tokens, '/');
    forall i | 0 <= i < |tokens| ensures '/' !in tokens[i] {
      assert tokens[i] == Token(segs[i]);
    }
    SplitJoin(tokens, '/');
  }

  /** Parsing undoes writing: `/` followed by the segments' tokens joined
      with `/` parses back to the same segments, with their names and tally. */
  lemma ParsePattern(segs: seq<Segment>, version: Version, caseSensitive: bool)
    requires segs != []
    requires forall i :: 0 <= i < |segs| ==> Spellable(segs[i], version, caseSensitive)
    ensures ParseOf("/" + Join(TokensOf(segs), '/'), version, caseSensitive) ==
      Ok(Parsed(segs, NamesOf(segs), TypesOf(segs)))
  {
    TokensOfPattern(segs);
    ClassifyTokens(segs, version, caseSensitive);
  }

  // ---------------------------------------------------------------------------
  // The regular expression source `add` builds

  /** A segment `add` may skip: an optional dynamic segment of the newest
      version. */
  predicate IsOptional(seg: Segment, version: Version)
  {
    version.Current? && seg.Dynamic? && seg.optional
  }

  /** `isEmpty` after the loop of `add`: no segment advanced the current
      state. */
  predicate AllSkippable(segs: seq<Segment>, version: Version)
    decreases |segs|
  {
    segs == [] ||
    (AllSkippable(segs[..|segs| - 1], version) && (segs[|segs| - 1].Epsilon? || IsOptional(segs[|segs| - 1], version)))
  }

  /** One segment that advances the current state is enough to make the
      route non-empty. */
  lemma {:induction false} SolidNotSkippable(segs: seq<Segment>, version: Version, j: nat)
    requires j < |segs| && !segs[j].Epsilon? && !IsOptional(segs[j], version)
    ensures !AllSkippable(segs, version)
    decreases |segs|
  {
    if j < |segs| - 1 {
      var init := segs[..|segs| - 1];
      assert init[j] == segs[j];
      SolidNotSkippable(init, version, j);
    }
  }

  /** What one segment appends to `regex`. */
  function Fragment(seg: Segment, version: Version): string
  {
    if seg.Epsilon? then ""
    else if IsOptional(seg, version) then "(?:/" + Regex(seg) + ")?"
    else "/" + Regex(seg)
  }

  function RegexBody(segs: seq<Segment>, version: Version): string
    decreases |segs|
  {
    if segs == [] then "" else RegexBody(segs[..|segs| - 1], version) + Fragment(segs[|segs| - 1], version)
  }

  /** The source of the regular expression an accepting state carries. */
  function RegexSource(segs: seq<Segment>, version: Version): string
  {
    "^" + RegexBody(segs, version) +
    (if AllSkippable(segs, version) then (if version.Legacy? then "/" else "/?") else "") + "$"
  }

  /** The position of the last segment that is not epsilon, if any. */
  function LastSolid(segs: seq<Segment>): (r: Option<nat>)
    ensures r.Some? ==> r.value < |segs| && !segs[r.value].Epsilon?
    decreases |segs|
  {
    if segs == [] then None
    else if segs[|segs| - 1].Epsilon? then LastSolid(segs[..|segs| - 1])
    else Some(|segs| - 1)
  }

  /** Trailing epsilon segments add nothing to the source: it is the
      fragments up to the last solid segment. */
  lemma {:induction false} LastSolidBody(segs: seq<Segment>, version: Version)
    ensures LastSolid(segs).None? ==> RegexBody(segs, version) == ""
    ensures LastSolid(segs).Some? ==> var j := LastSolid(segs).value;
      RegexBody(segs, version) == RegexBody(segs[..j], version) + Fragment(segs[j], version)
    decreases |segs|
  {
    if segs != [] {
      var init := segs[..|segs| - 1];
      if segs[|segs| - 1].Epsilon? {
        LastSolidBody(init, version);
        if LastSolid(init).Some? {
          var j := LastSolid(init).value;
          assert init[..j] == segs[..j] && init[j] == segs[j];
        }
      }
    }
  }

  /** With no solid segment everything is skippable. */
  lemma {:induction false} LastSolidNone(segs: seq<Segment>, version: Version)
    requires LastSolid(segs).None?
    ensures AllSkippable(segs, version)
    decreases |segs|
  {
    if segs != [] {
      LastSolidNone(segs[..|segs| - 1], version);
    }
  }

  /** A text ending in `(.+)` ends in `+)`. */
  lemma StarTailChars(x: string)
    requires EndsWith(x, "(.+)")
    ensures x[|x| - 1] == ')' && x[|x| - 2] == '+'
  {
    assert x[|x| - 4..][3] == x[|x| - 1] && x[|x| - 4..][2] == x[|x| - 2];
  }

  /** The closing `$` does not change whether the source ends in a star
      group. */
  lemma DollarEnd(x: string)
    ensures EndsWith(x + "$", "(.+)$") <==> EndsWith(x, "(.+)")
  {
    var y := x + "$";
    if EndsWith(y, "(.+)$") {
      assert x[|x| - 4..] == y[|y| - 5..][..4];
    }
    if EndsWith(x, "(.+)") {
      assert y[|y| - 5..] == x[|x| - 4..] + "$";
    }
  }

  /** Whether `init + f` ends in a star group depends only on the last
      segment's fragment, and it does exactly for a star segment. */
  lemma FragmentEnd(init: string, seg: Segment, version: Version)
    requires !seg.Epsilon? && !IsOptional(seg, version)
    ensures EndsWith(init + Fragment(seg, version), "(.+)") <==> seg.Star?
  {
    match seg
    case Star(_) => StarFragmentEnd(init, "/" + Regex(seg));
    case Dynamic(_, _) => DynamicFragmentEnd(init, "/" + Regex(seg));
    case Static(text, _) => StaticFragmentEnd(init, text);
  }

  /** A star segment's fragment ends in a star group. */
  lemma StarFragmentEnd(init: string, f: string)
    requires f == "/(.+)"
    ensures EndsWith(init + f, "(.+)")
  {
    var x := init + f;
    assert x[|x| - 4..] == f[1..];
  }

  /** A dynamic segment's fragment ends in `]+)`, not in a star group. */
  lemma DynamicFragmentEnd(init: string, f: string)
    requires f == "/([^/]+)"
    ensures !EndsWith(init + f, "(.+)")
  {
    var x := init + f;
    assert x[|x| - 3] == ']';
    if EndsWith(x, "(.+)") {
      StarTailChars(x);
    }
  }

  /** An escaped static text never ends in a bare `(.+)`. */
  lemma StaticFragmentEnd(init: string, text: string)
    ensures !EndsWith(init + ("/" + EscapeRegex(text)), "(.+)")
  {
    var e := EscapeRegex(text);
    var f := "/" + e;
    var x := init + f;
    if e != [] && e[|e| - 1] in Specials {
      EscapeEndsEscaped(text);
      assert x[|x| - 2] == e[|e| - 2];
    } else {
      assert x[|x| - 1] == f[|f| - 1];
    }
    if EndsWith(x, "(.+)") {
      StarTailChars(x);
    }
  }

  /** A text whose last character is not `)` does not end in a star group. */
  lemma NotStarTail(x: string)
    requires |x| >= 1 && x[|x| - 1] != ')'
    ensures !EndsWith(x, "(.+)")
  {
    if EndsWith(x, "(.+)") {
      StarTailChars(x);
    }
  }

  /** The test `recognize` uses to put back a dropped trailing slash — the
      source ends in `(.+)$` — holds exactly when the route's last
      non-epsilon segment is a star segment. */
  lemma RegexEndsInStar(segs: seq<Segment>, version: Version)
    ensures EndsWith(RegexSource(segs, version), "(.+)$") <==> LastSolid(segs).Some? && segs[LastSolid(segs).value].Star?
  {
    var body := RegexBody(segs, version);
    var tail := if AllSkippable(segs, version) then (if version.Legacy? then "/" else "/?") else "";
    var x := "^" + body + tail;
    assert RegexSource(segs, version) == x + "$";
    DollarEnd(x);
    if tail != "" {
      assert !EndsWith(x, "(.+)") by {
        assert x[|x| - 1] == tail[|tail| - 1];
        NotStarTail(x);
      }
      assert !(LastSolid(segs).Some? && segs[LastSolid(segs).value].Star?) by {
        if LastSolid(segs).Some? && segs[LastSolid(segs).value].Star? {
          SolidNotSkippable(segs, version, LastSolid(segs).value);
        }
      }
    } else {
      BodyEnd(segs, version, x);
    }
  }

  /** The case of a route with a segment that advances the state. */
  lemma BodyEnd(segs: seq<Segment>, version: Version, x: string)
    requires x == "^" + RegexBody(segs, version)
    requires !AllSkippable(segs, version)
    ensures EndsWith(x, "(.+)") <==> LastSolid(segs).Some? && segs[LastSolid(segs).value].Star?
  {
    LastSolidBody(segs, version);
    if LastSolid(segs).None? {
      LastSolidNone(segs, version);
    } else {
      var j := LastSolid(segs).value;
      var init := RegexBody(segs[..j], version);
      var f := Fragment(segs[j], version);
      assert x == ("^" + init) + f;
      if IsOptional(segs[j], version) {
        assert !EndsWith(x, "(.+)") by {
          assert f == "(?:/" + Regex(segs[j]) + ")?";
          assert x[|x| - 1] == '?';
          NotStarTail(x);
        }
      } else {
        FragmentEnd("^" + init, segs[j], version);
      }
    }
  }
}
