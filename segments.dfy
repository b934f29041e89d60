/** The four kinds of route segment (src/segments.js and the segment classes
    of dist/aurelia-route-recognizer.js): the character specifications each
    feeds to the automaton (`eachChar`), its regular-expression fragment
    (`regex`) and the text it contributes to a generated path (`generate`).
    The older version's segments are the special case `caseSensitive` = true
    for static segments and `optional` = false for dynamic ones. */
module Segments {
  import opened Basics
  import opened Entities
  import opened Automaton

  datatype Segment =
    | Static(text: string, caseSensitive: bool)
    | Dynamic(name: string, optional: bool)
    | Star(name: string)
    | Epsilon

  /** The thirteen characters `regex` escapes. */
  const Specials: set<char> := {'/', '.', '*', '+', '?', '|', '(', ')', '[', ']', '{', '}', '\\'}

  /** `toUpperCase` / `toLowerCase` of one character, on ASCII letters. */
  function Upper(c: char): char
  {
    if 'a' <= c <= 'z' then (c as int - 32) as char else c
  }

  function Lower(c: char): char
  {
    if 'A' <= c <= 'Z' then (c as int + 32) as char else c
  }

  /** The allow-set `eachChar` gives one character of a static segment: the
      character itself, or its upper- and lower-case forms. */
  function StaticSpec(c: char, caseSensitive: bool): CharSpec
  {
    CharSpec(Some(if caseSensitive then [c] else [Upper(c), Lower(c)]), None, false)
  }

  /** A case-insensitive static character accepts exactly the characters
      that fold to the same lower-case letter. */
  lemma CaseFold(c: char, t: char)
    ensures c in [Upper(t), Lower(t)] <==> Lower(c) == Lower(t)
  {
  }

  /** `eachChar`: the specifications a segment adds to the automaton. */
  function EachChar(seg: Segment): (specs: seq<CharSpec>)
    ensures forall k :: 0 <= k < |specs| ==> Normal(specs[k])
    ensures seg.Static? ==> (|specs| == |seg.text| &&
      forall k, c :: 0 <= k < |specs| ==>
        (Accepts(specs[k], c) <==> if seg.caseSensitive then c == seg.text[k] else Lower(c) == Lower(seg.text[k])))
    ensures seg.Dynamic? ==> |specs| == 1 && specs[0].repeat && forall c :: Accepts(specs[0], c) <==> c != '/'
    ensures seg.Star? ==> |specs| == 1 && specs[0].repeat && forall c :: Accepts(specs[0], c)
    ensures seg.Epsilon? ==> specs == []
  {
    match seg
    case Static(text, caseSensitive) =>
      var specs := seq(|text|, k requires 0 <= k < |text| => StaticSpec(text[k], caseSensitive));
      forall k, c | 0 <= k < |specs| {
        CaseFold(c, text[k]);
      }
      specs
    case Dynamic(_, _) => [CharSpec(None, Some("/"), true)]
    case Star(_) => [CharSpec(None, Some(""), true)]
    case Epsilon => []
  }

  /** `string.replace(escapeRegex, '\\$1')`: a backslash before every special
      character. */
  function EscapeRegex(s: string): (r: string)
    ensures |r| >= |s|
    ensures s == [] <==> r == []
  {
    if s == [] then []
    else (if s[0] in Specials then ['\\', s[0]] else [s[0]]) + EscapeRegex(s[1..])
  }

  /** One character: a special character gets one backslash before it, any
      other is copied. */
  lemma EscapeRegexChar(c: char)
    ensures EscapeRegex([c]) == if c in Specials then ['\\', c] else [c]
  {
    assert [c][1..] == [];
  }

  /** The replacement works character by character: escaping a
      concatenation is concatenating the escapes. */
  lemma {:induction false} EscapeRegexAppend(a: string, b: string)
    ensures EscapeRegex(a + b) == EscapeRegex(a) + EscapeRegex(b)
    decreases |a|
  {
    if a != [] {
      assert (a + b)[0] == a[0];
      assert (a + b)[1..] == a[1..] + b;
      EscapeRegexAppend(a[1..], b);
    } else {
      assert a + b == b;
    }
  }

  /** Removes one backslash before each escaped character. */
  function Unescape(s: string): string
  {
    if s == [] then []
    else if s[0] == '\\' && |s| >= 2 then [s[1]] + Unescape(s[2..])
    else [s[0]] + Unescape(s[1..])
  }

  /** Escaping loses nothing: removing the backslashes gives the text back. */
  lemma {:induction false} UnescapeEscape(s: string)
    ensures Unescape(EscapeRegex(s)) == s
  {
    if s != [] {
      var rest := EscapeRegex(s[1..]);
      UnescapeEscape(s[1..]);
      if s[0] in Specials {
        var e := ['\\', s[0]] + rest;
        assert e[2..] == rest;
      } else {
        var e := [s[0]] + rest;
        assert e[1..] == rest;
      }
      assert s == [s[0]] + s[1..];
    }
  }

  /** An escaped text never ends in a bare special character: the last
      special character is always preceded by a backslash. */
  lemma {:induction false} EscapeEndsEscaped(s: string)
    requires |EscapeRegex(s)| > 0 && EscapeRegex(s)[|EscapeRegex(s)| - 1] in Specials
    ensures |EscapeRegex(s)| >= 2 && EscapeRegex(s)[|EscapeRegex(s)| - 2] == '\\'
  {
    var rest := EscapeRegex(s[1..]);
    var e := EscapeRegex(s);
    if rest == [] {
      assert s[1..] == [];
    } else {
      EscapeEndsEscaped(s[1..]);
      assert e[|e| - 1] == rest[|rest| - 1];
      assert e[|e| - 2] == rest[|rest| - 2];
    }
  }

  /** `regex()`: the segment's regular-expression source fragment. */
  function Regex(seg: Segment): (r: string)
    ensures seg.Static? ==> Unescape(r) == seg.text
    ensures seg.Dynamic? ==> r == "([^/]+)"
    ensures seg.Star? ==> r == "(.+)"
    ensures r == [] <==> seg.Epsilon? || (seg.Static? && seg.text == [])
  {
    match seg
    case Static(text, _) => UnescapeEscape(text); EscapeRegex(text)
    case Dynamic(_, _) => "([^/]+)"
    case Star(_) => "(.+)"
    case Epsilon => ""
  }

  /** `generate(params, consumed)`: the segment's text and the new set of
      consumed parameter names. A static segment yields its text and an
      epsilon segment the empty string, neither touching `consumed`; a
      dynamic or star segment yields `params[name]`, `None` standing for
      `undefined`, and marks `name` consumed. */
  function Generate(seg: Segment, params: Params, consumed: set<string>): (r: (Option<Value>, set<string>))
    ensures seg.Static? || seg.Epsilon? ==> r.1 == consumed && r.0.Some? && r.0.value.Str?
    ensures (seg.Dynamic? || seg.Star?) ==> r.1 == consumed + {seg.name} && (r.0.Some? <==> seg.name in params)
  {
    match seg
    case Static(text, _) => (Some(Str(text)), consumed)
    case Dynamic(name, _) => (if name in params then Some(params[name]) else None, consumed + {name})
    case Star(name) => (if name in params then Some(params[name]) else None, consumed + {name})
    case Epsilon => (Some(Str("")), consumed)
  }

  // ---------------------------------------------------------------------------
  // The words a route pattern describes

  /** `w` is read by the specifications of `seg`: one character per
      specification for a static segment; one or more characters, all
      accepted by the repeating specification, for a dynamic or star one. */
  predicate SpellsSegment(seg: Segment, w: string)
  {
    match seg
    case Static(_, _) => Spelled(EachChar(seg), w)
    case Dynamic(_, _) => w != [] && forall k :: 0 <= k < |w| ==> Accepts(EachChar(seg)[0], w[k])
    case Star(_) => w != [] && forall k :: 0 <= k < |w| ==> Accepts(EachChar(seg)[0], w[k])
    case Epsilon => false
  }

  /** What a path may hold at a segment: nothing for epsilon and for an
      optional dynamic segment that is left out, otherwise a spelling. */
  predicate Fills(seg: Segment, v: Option<string>)
  {
    match v
    case None => seg.Epsilon? || (seg.Dynamic? && seg.optional)
    case Some(w) => SpellsSegment(seg, w)
  }

  predicate FillsAll(segs: seq<Segment>, vals: seq<Option<string>>)
  {
    |segs| == |vals| && forall k :: 0 <= k < |segs| ==> Fills(segs[k], vals[k])
  }

  /** The path spelled by `vals`: `/` and the text of every present value. */
  function Word(vals: seq<Option<string>>): string
  {
    if vals == [] then ""
    else (match vals[0] case None => "" case Some(w) => "/" + w) + Word(vals[1..])
  }

  /** The text `generate` writes for a segment (its value converted to a
      string, so `true` for a boolean) is a spelling of it, provided a
      dynamic value's text is non-empty without `/` and a star value's text
      non-empty: the automaton recognises what generation writes. */
  lemma GeneratedSpells(seg: Segment, params: Params, consumed: set<string>)
    requires !seg.Epsilon?
    requires Generate(seg, params, consumed).0.Some? && !Generate(seg, params, consumed).0.value.Null?
    requires seg.Dynamic? || seg.Star? ==> Stringify(Generate(seg, params, consumed).0.value) != []
    requires seg.Dynamic? ==> '/' !in Stringify(Generate(seg, params, consumed).0.value)
    ensures Fills(seg, Some(Stringify(Generate(seg, params, consumed).0.value)))
  {
    var w := Stringify(Generate(seg, params, consumed).0.value);
    if seg.Static? {
      var specs := EachChar(seg);
      forall k | 0 <= k < |w|
        ensures Accepts(specs[k], w[k])
      {
        assert Accepts(specs[k], w[k]) <==> if seg.caseSensitive then w[k] == seg.text[k] else Lower(w[k]) == Lower(seg.text[k]);
      }
    }
  }

  /** The state `addSegment` returns is reached from its start by every
      spelling of the segment. */
  lemma SegmentWalk(nodes: seq<Node>, s: nat, seg: Segment, w: string)
    requires Closed(nodes) && Shaped(nodes) && s < |nodes|
    requires SpellsSegment(seg, w)
    ensures var (n1, t1) := PutAllResult(nodes, s, EachChar(seg)); t1 in Walk(n1, [s], w)
  {
    var specs := EachChar(seg);
    match seg
    case Static(_, _) =>
      PutAllWalk(nodes, s, specs, w);
    case Dynamic(_, _) =>
      PutAllSingle(nodes, s, CharSpec(None, Some("/"), true));
      PutRepeatWalk(nodes, s, CharSpec(None, Some("/"), true), w);
    case Star(_) =>
      PutAllSingle(nodes, s, CharSpec(None, Some(""), true));
      PutRepeatWalk(nodes, s, CharSpec(None, Some(""), true), w);
  }
}
