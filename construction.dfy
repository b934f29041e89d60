/** How `add` threads a route pattern through the automaton: the loop over
    the segments with `addSegment`, the links from skipped optional states,
    the extra `/` transition of an empty route, and the marking of the
    accepting states (`add` in dist/aurelia-route-recognizer.js and in
    src/route-recognizer.js). The functions here are the specification; the
    methods do it step by step on a `StateGraph`. */
module Construction {
  import opened Basics
  import opened Entities
  import opened Automaton
  import opened Segments
  import opened Routes

  /** The variables of the loop of `add`: the arena, `currentState`,
      `skippableStates` and `isEmpty`. */
  datatype Build = Build(nodes: seq<Node>, current: nat, skippable: seq<nat>, empty: bool)

  /** The loop's invariant: the arena is well formed and every state the loop
      holds is in it. */
  predicate Sound(b: Build)
  {
    Closed(b.nodes) && Shaped(b.nodes) && b.current < |b.nodes| && EdgesIn(b.nodes, b.skippable)
  }

  /** Before the first segment: at the root, nothing skipped, empty. */
  function Start(nodes: seq<Node>): Build
  {
    Build(nodes, 0, [], true)
  }

  /** Only the newest version has optional segments. */
  predicate NoOptional(segs: seq<Segment>)
  {
    forall k :: 0 <= k < |segs| ==> !(segs[k].Dynamic? && segs[k].optional)
  }

  lemma GrowsTrans(a: seq<Node>, b: seq<Node>, c: seq<Node>)
    requires Grows(a, b) && Grows(b, c)
    ensures Grows(a, c)
  {
    forall i | 0 <= i < |a|
      ensures a[i].next <= c[i].next
    {
      assert a[i].next <= b[i].next && b[i].next <= c[i].next;
    }
  }

  /** What one pass of the loop keeps: the older arena's states and
      payloads, the shape, and the states it holds. */
  lemma StepKeeps(a: seq<Node>, b: seq<Node>, c: seq<Node>, held: seq<nat>, next: nat)
    requires GrowsKeeping(a, b) && GrowsKeeping(b, c) && |c| == |b| && Shaped(b)
    requires EdgesIn(a, held) && next < |b|
    ensures GrowsKeeping(a, c) && Shaped(c) && EdgesIn(c, held + [next])
  {
    GrowsTrans(a, b, c);
    GrowsShaped(b, c);
  }

  // ---------------------------------------------------------------------------
  // addSegment, the links, the marks

  /** `addSegment`: a `/` transition out of `s`, then the segment's
      specifications; the arena, `firstState` and `nextState`. */
  function AddSegmentResult(nodes: seq<Node>, s: nat, seg: Segment): (r: (seq<Node>, nat, nat))
    requires Closed(nodes) && Shaped(nodes) && s < |nodes|
    ensures Closed(r.0) && Shaped(r.0) && GrowsKeeping(nodes, r.0)
    ensures r.1 < |r.0| && r.2 < |r.0| && r.1 in r.0[s].next && r.0[r.1].spec == SlashSpec
  {
    var (n1, first) := PutResult(nodes, s, SlashSpec);
    PutShaped(nodes, s, SlashSpec);
    var (n2, next) := PutAllResult(n1, first, EachChar(seg));
    PutAllShaped(n1, first, EachChar(seg));
    assert n1[s].next <= n2[s].next;
    (n2, first, next)
  }

  lemma KeepingTrans(a: seq<Node>, b: seq<Node>, c: seq<Node>)
    requires GrowsKeeping(a, b) && GrowsKeeping(b, c)
    ensures GrowsKeeping(a, c)
  {
    GrowsTrans(a, b, c);
  }

  /** `state.nextStates.push(target)` for every state of `from`, in order. */
  function LinkAll(nodes: seq<Node>, from: seq<nat>, target: nat): (r: seq<Node>)
    requires Closed(nodes) && EdgesIn(nodes, from) && target < |nodes|
    ensures Closed(r) && GrowsKeeping(nodes, r) && |r| == |nodes|
    ensures forall x :: x in from ==> target in r[x].next
    decreases |from|
  {
    if from == [] then nodes
    else
      var init := from[..|from| - 1];
      var n1 := LinkAll(nodes, init, target);
      var s := from[|from| - 1];
      var r := n1[s := n1[s].(next := n1[s].next + [target])];
      assert forall x :: x in from ==> x in init || x == s;
      assert forall x :: x in init ==> target in n1[x].next && n1[x].next <= r[x].next;
      assert GrowsKeeping(n1, r);
      KeepingTrans(nodes, n1, r);
      r
  }

  /** `handlers`, `regex` and `types` set on every state of `states`. */
  function MarkAll(nodes: seq<Node>, states: seq<nat>, payload: Terminal): (r: seq<Node>)
    requires EdgesIn(nodes, states)
    ensures |r| == |nodes|
    ensures forall i :: 0 <= i < |r| ==> r[i].spec == nodes[i].spec && r[i].next == nodes[i].next
    ensures forall i :: 0 <= i < |r| ==> r[i].accepting == if i in states then Some(payload) else nodes[i].accepting
    decreases |states|
  {
    if states == [] then nodes
    else
      var init := states[..|states| - 1];
      var n1 := MarkAll(nodes, init, payload);
      var s := states[|states| - 1];
      assert forall i :: i in states <==> i in init || i == s;
      n1[s := n1[s].(accepting := Some(payload))]
  }

  /** Marking changes no transition, so it keeps the arena closed and every
      walk. */
  lemma MarkAllWalk(nodes: seq<Node>, states: seq<nat>, payload: Terminal, from: seq<nat>, w: string)
    requires Closed(nodes) && EdgesIn(nodes, states) && EdgesIn(nodes, from)
    ensures Closed(MarkAll(nodes, states, payload)) && Grows(nodes, MarkAll(nodes, states, payload))
    ensures forall t :: t in Walk(nodes, from, w) ==> t in Walk(MarkAll(nodes, states, payload), from, w)
  {
    var r := MarkAll(nodes, states, payload);
    assert forall i :: 0 <= i < |r| ==> r[i].next == nodes[i].next;
    WalkMonotone(nodes, r, from, from, w);
  }

  // ---------------------------------------------------------------------------
  // The loop of add

  /** One pass of the loop: an epsilon segment is skipped; any other segment
      is added after `currentState` and linked from every skipped state; an
      optional segment is then skipped itself, any other one becomes the
      current state and clears the skipped ones. */
  function BuildStep(b: Build, seg: Segment, version: Version): (r: Build)
    requires Sound(b)
    ensures Sound(r) && GrowsKeeping(b.nodes, r.nodes)
  {
    if seg.Epsilon? then b
    else
      var (n2, first, next) := AddSegmentResult(b.nodes, b.current, seg);
      var n3 := LinkAll(n2, b.skippable, first);
      StepKeeps(b.nodes, n2, n3, b.skippable, next);
      if IsOptional(seg, version) then Build(n3, b.current, b.skippable + [next], b.empty)
      else Build(n3, next, [], false)
  }

  /** The loop over all segments. */
  function BuildAll(b: Build, segs: seq<Segment>, version: Version): (r: Build)
    requires Sound(b)
    ensures Sound(r) && GrowsKeeping(b.nodes, r.nodes)
    decreases |segs|
  {
    if segs == [] then b
    else
      var b1 := BuildAll(b, segs[..|segs| - 1], version);
      var r := BuildStep(b1, segs[|segs| - 1], version);
      KeepingTrans(b.nodes, b1.nodes, r.nodes);
      r
  }

  /** After the loop, an empty route gets a `/` transition out of the current
      state; the arena and the state to mark. */
  function Close(b: Build): (r: (seq<Node>, nat))
    requires Sound(b)
    ensures Closed(r.0) && Shaped(r.0) && GrowsKeeping(b.nodes, r.0) && r.1 < |r.0|
    ensures EdgesIn(r.0, b.skippable)
  {
    if b.empty then
      PutShaped(b.nodes, b.current, SlashSpec);
      PutResult(b.nodes, b.current, SlashSpec)
    else (b.nodes, b.current)
  }

  /** What `add` leaves in the arena and returns: the trailing skipped states
      and the final state carry `payload`. */
  function AddRoute(nodes: seq<Node>, segs: seq<Segment>, version: Version, payload: Terminal): (r: (seq<Node>, nat))
    requires Closed(nodes) && Shaped(nodes) && |nodes| > 0
    ensures Closed(r.0) && Shaped(r.0) && |r.0| >= |nodes| && r.1 < |r.0|
  {
    var b := BuildAll(Start(nodes), segs, version);
    var (n, cur) := Close(b);
    (MarkAll(n, b.skippable + [cur], payload), cur)
  }

  // ---------------------------------------------------------------------------
  // Every path the pattern describes is accepted

  /** The path a filling of the segments spells, as `recognize` walks it: a
      route that spells nothing is reached by `/`. */
  function PathOf(vals: seq<Option<string>>): string
  {
    if Word(vals) == "" then "/" else Word(vals)
  }

  function Piece(v: Option<string>): string
  {
    match v
    case None => ""
    case Some(w) => "/" + w
  }

  lemma {:induction false} WordSnoc(vals: seq<Option<string>>, v: Option<string>)
    ensures Word(vals + [v]) == Word(vals) + Piece(v)
    decreases |vals|
  {
    if vals == [] {
      assert [v][1..] == [];
    } else {
      assert (vals + [v])[1..] == vals[1..] + [v];
      WordSnoc(vals[1..], v);
    }
  }

  /** The loop's reachability invariant, for the prefix `u` of the path
      read so far: nothing read means still at the root and empty;
      otherwise some state reached by `u` is a skipped one or the current
      one of a non-empty route. */
  predicate Reached(b: Build, u: string)
    requires Sound(b)
  {
    && (u == "" ==> b.empty && b.current == 0)
    && (u != "" ==> exists x :: x in Walk(b.nodes, [0], u) && (x in b.skippable || (x == b.current && !b.empty)))
  }

  /** `addSegment` leads from its first state to its last one along every
      spelling of the segment. */
  lemma AddSegmentWalk(nodes: seq<Node>, s: nat, seg: Segment, w: string)
    requires Closed(nodes) && Shaped(nodes) && s < |nodes| && SpellsSegment(seg, w)
    ensures var (n2, first, next) := AddSegmentResult(nodes, s, seg); next in Walk(n2, [first], w)
  {
    var (n1, first) := PutResult(nodes, s, SlashSpec);
    PutShaped(nodes, s, SlashSpec);
    SegmentWalk(n1, first, seg, w);
  }

  /** A state `x` reached by `u` that has a `/` state `first` as a successor,
      from which `w` leads to `next` in an older arena, leads by `u + "/" +
      w` to `next`. */
  lemma ExtendPath(before: seq<Node>, n2: seq<Node>, n3: seq<Node>, u: string, w: string, x: nat, first: nat, next: nat)
    requires Closed(before) && Closed(n2) && Closed(n3) && |before| > 0
    requires Grows(before, n3) && Grows(n2, n3)
    requires x in Walk(before, [0], u)
    requires first < |n2| && x < |n3| && first in n3[x].next && n3[first].spec == SlashSpec
    requires next in Walk(n2, [first], w)
    ensures next in Walk(n3, [0], u + ("/" + w))
  {
    WalkMonotone(before, n3, [0], [0], u);
    var S := Walk(n3, [0], u);
    StepReaches(n3, S, x, first, '/');
    assert ("/" + w)[0] == '/' && ("/" + w)[1..] == w;
    WalkMonotone(n2, n3, [first], Step(n3, S, '/'), w);
    WalkAppend(n3, [0], u, "/" + w);
  }

  /** The loop variables after a non-epsilon segment: the segment's `/`
      state is a successor of the current state and of every skipped one,
      and its last state is reached from there by every spelling. */
  lemma BuildStepParts(b: Build, seg: Segment, version: Version, w: string, n2: seq<Node>, first: nat, next: nat, r: Build)
    requires Sound(b) && !seg.Epsilon?
    requires (n2, first, next) == AddSegmentResult(b.nodes, b.current, seg)
    requires r == BuildStep(b, seg, version)
    ensures Sound(r) && Closed(n2) && Grows(b.nodes, n2) && Grows(n2, r.nodes) && first < |n2| && b.current < |r.nodes|
    ensures first in r.nodes[b.current].next && r.nodes[first].spec == SlashSpec
    ensures forall x :: x in b.skippable ==> first in r.nodes[x].next
    ensures SpellsSegment(seg, w) ==> next in Walk(n2, [first], w)
    ensures IsOptional(seg, version) ==> r.current == b.current && r.skippable == b.skippable + [next] && r.empty == b.empty
    ensures !IsOptional(seg, version) ==> r.current == next && r.skippable == [] && !r.empty
  {
    assert n2[b.current].next <= r.nodes[b.current].next;
    if SpellsSegment(seg, w) {
      AddSegmentWalk(b.nodes, b.current, seg, w);
    }
  }

  /** A step that keeps the current state and the emptiness flag, keeps
      every skipped state and only grows the arena keeps the invariant. */
  lemma SkippedReached(b: Build, r: Build, u: string)
    requires Sound(b) && Sound(r) && Reached(b, u) && Grows(b.nodes, r.nodes)
    requires r.current == b.current && r.empty == b.empty && b.skippable <= r.skippable
    ensures Reached(r, u)
  {
    if u != "" {
      var x :| x in Walk(b.nodes, [0], u) && (x in b.skippable || (x == b.current && !b.empty));
      WalkMonotone(b.nodes, r.nodes, [0], [0], u);
      assert x in r.skippable || (x == r.current && !r.empty);
    }
  }

  /** A step that adds a `/` state `first` after the current state and every
      skipped one, from which `w` leads to `next`, and then holds `next` as
      a skipped state or as the current state of a non-empty route, keeps
      the invariant for `u + "/" + w`. */
  lemma FilledReached(b: Build, r: Build, n2: seq<Node>, first: nat, next: nat, u: string, w: string)
    requires Sound(b) && Sound(r) && Reached(b, u)
    requires Closed(n2) && Grows(b.nodes, n2) && Grows(n2, r.nodes) && first < |n2|
    requires first in r.nodes[b.current].next && r.nodes[first].spec == SlashSpec
    requires forall x :: x in b.skippable ==> first in r.nodes[x].next
    requires next in Walk(n2, [first], w)
    requires next in r.skippable || (next == r.current && !r.empty)
    ensures Reached(r, u + ("/" + w))
  {
    var x: nat :| x in Walk(b.nodes, [0], u) && (x in b.skippable || x == b.current) by {
      if u == "" {
        assert Walk(b.nodes, [0], u) == [0];
      }
    }
    GrowsTrans(b.nodes, n2, r.nodes);
    ExtendPath(b.nodes, n2, r.nodes, u, w, x, first, next);
  }

  /** One pass of the loop keeps the reachability invariant, extended by what
      the segment's value spells. */
  lemma BuildStepReached(b: Build, seg: Segment, v: Option<string>, u: string, version: Version)
    requires Sound(b) && Reached(b, u) && Fills(seg, v)
    requires version.Legacy? ==> !(seg.Dynamic? && seg.optional)
    ensures Reached(BuildStep(b, seg, version), u + Piece(v))
  {
    var r := BuildStep(b, seg, version);
    if seg.Epsilon? {
      assert u + Piece(v) == u;
    } else {
      var w := if v.Some? then v.value else "";
      var (n2, first, next) := AddSegmentResult(b.nodes, b.current, seg);
      BuildStepParts(b, seg, version, w, n2, first, next, r);
      if v.None? {
        assert u + Piece(v) == u;
        SkippedReached(b, r, u);
      } else {
        assert u + Piece(v) == u + ("/" + w);
        FilledReached(b, r, n2, first, next, u, w);
      }
    }
  }

  /** The loop keeps the reachability invariant for the whole pattern. */
  lemma {:induction false} BuildAllReached(nodes: seq<Node>, segs: seq<Segment>, vals: seq<Option<string>>, version: Version)
    requires Closed(nodes) && Shaped(nodes) && |nodes| > 0
    requires version.Legacy? ==> NoOptional(segs)
    requires FillsAll(segs, vals)
    ensures Reached(BuildAll(Start(nodes), segs, version), Word(vals))
    decreases |segs|
  {
    if segs != [] {
      var n := |segs| - 1;
      var init := segs[..n];
      assert vals == vals[..n] + [vals[n]];
      assert FillsAll(init, vals[..n]);
      BuildAllReached(nodes, init, vals[..n], version);
      WordSnoc(vals[..n], vals[n]);
      BuildStepReached(BuildAll(Start(nodes), init, version), segs[n], vals[n], Word(vals[..n]), version);
    }
  }

  /** The states `add` marks include one reached by the path. */
  lemma CloseReached(b: Build, u: string, n: seq<Node>, cur: nat) returns (t: nat)
    requires Sound(b) && Reached(b, u) && (n, cur) == Close(b)
    ensures t in Walk(n, [0], if u == "" then "/" else u) && t in b.skippable + [cur]
  {
    if u == "" {
      assert cur in n[0].next && SameKey(n[cur].spec, SlashSpec);
      StepReaches(n, [0], 0, cur, '/');
      assert Walk(n, [0], "/") == Walk(n, Step(n, [0], '/'), []);
      t := cur;
    } else {
      var x :| x in Walk(b.nodes, [0], u) && (x in b.skippable || (x == b.current && !b.empty));
      WalkMonotone(b.nodes, n, [0], [0], u);
      t := x;
    }
  }

  /** After `add`, every path that fills the route's segments (each segment
      spelled by its value; epsilon and, in the newest version, optional
      segments possibly left out) reaches from the root a state carrying the
      route's handlers, regular expression and types. */
  lemma AddAccepts(nodes: seq<Node>, segs: seq<Segment>, vals: seq<Option<string>>, version: Version, payload: Terminal,
                   after: seq<Node>)
    requires Closed(nodes) && Shaped(nodes) && |nodes| > 0
    requires version.Legacy? ==> NoOptional(segs)
    requires FillsAll(segs, vals)
    requires after == AddRoute(nodes, segs, version, payload).0
    ensures Closed(after) && exists t :: t in Walk(after, [0], PathOf(vals)) && t < |after| && after[t].accepting == Some(payload)
  {
    var b := BuildAll(Start(nodes), segs, version);
    BuildAllReached(nodes, segs, vals, version);
    var c := Close(b);
    ClosedAccepts(b, Word(vals), payload, c.0, c.1, after);
  }

  /** Closing and marking a build that reaches `u` accepts `u` (or `/` for
      the empty word) with the payload. */
  lemma ClosedAccepts(b: Build, u: string, payload: Terminal, n: seq<Node>, cur: nat, after: seq<Node>)
    requires Sound(b) && Reached(b, u) && (n, cur) == Close(b)
    requires after == MarkAll(n, b.skippable + [cur], payload)
    ensures Closed(after)
    ensures exists t :: t in Walk(after, [0], if u == "" then "/" else u) && t < |after| && after[t].accepting == Some(payload)
  {
    var w := if u == "" then "/" else u;
    var t := CloseReached(b, u, n, cur);
    MarkReached(n, b.skippable + [cur], payload, t, w);
    assert t in Walk(after, [0], w) && t < |after| && after[t].accepting == Some(payload);
  }

  /** A marked state reached by a path is still reached after marking, and
      carries the payload. */
  lemma MarkReached(n: seq<Node>, states: seq<nat>, payload: Terminal, t: nat, w: string)
    requires Closed(n) && |n| > 0 && EdgesIn(n, states)
    requires t in Walk(n, [0], w) && t in states
    ensures var m := MarkAll(n, states, payload);
      Closed(m) && t in Walk(m, [0], w) && t < |m| && m[t].accepting == Some(payload)
  {
    MarkAllWalk(n, states, payload, [0], w);
  }

  /** `add` loses no transition: whatever the root reached before, it still
      reaches. */
  lemma AddKeepsWalks(nodes: seq<Node>, segs: seq<Segment>, version: Version, payload: Terminal, w: string)
    requires Closed(nodes) && Shaped(nodes) && |nodes| > 0
    ensures var after := AddRoute(nodes, segs, version, payload).0;
      Closed(after) && |after| >= |nodes| && forall t :: t in Walk(nodes, [0], w) ==> t in Walk(after, [0], w)
  {
    var b := BuildAll(Start(nodes), segs, version);
    var (n, cur) := Close(b);
    GrowsTrans(nodes, b.nodes, n);
    WalkMonotone(nodes, n, [0], [0], w);
    MarkAllWalk(n, b.skippable + [cur], payload, [0], w);
  }

  /** Without optional segments nothing is ever skipped, so the older
      version's `add`, which has no skipped states, builds the same arena. */
  lemma {:induction false} NoOptionalNoSkips(nodes: seq<Node>, segs: seq<Segment>, version: Version)
    requires Closed(nodes) && Shaped(nodes) && |nodes| > 0
    requires NoOptional(segs)
    ensures BuildAll(Start(nodes), segs, version).skippable == []
    ensures BuildAll(Start(nodes), segs, version).empty <==> forall k :: 0 <= k < |segs| ==> segs[k].Epsilon?
    decreases |segs|
  {
    if segs != [] {
      var init := segs[..|segs| - 1];
      assert NoOptional(init) by {
        assert forall k :: 0 <= k < |init| ==> init[k] == segs[k];
      }
      NoOptionalNoSkips(nodes, init, version);
      assert forall k :: 0 <= k < |init| ==> init[k] == segs[k];
    }
  }

  // ---------------------------------------------------------------------------
  // The loops, on the mutable arena

  /** `addSegment` of the newest version: `put({ validChars: '/' })`, then
      `put` of every specification `eachChar` yields. */
  method AddSegment(g: StateGraph, s: nat, seg: Segment) returns (first: nat, next: nat)
    requires g.Valid() && Shaped(g.nodes) && s < |g.nodes|
    modifies g
    ensures g.Valid() && Shaped(g.nodes)
    ensures (g.nodes, first, next) == AddSegmentResult(old(g.nodes), s, seg)
  {
    ghost var n0 := g.nodes;
    first := g.Put(s, SlashSpec);
    ghost var n1 := g.nodes;
    next := g.PutAll(first, EachChar(seg));
    assert (g.nodes, first, next) == AddSegmentResult(n0, s, seg) by {
      assert (n1, first) == PutResult(n0, s, SlashSpec);
      assert (g.nodes, next) == PutAllResult(n1, first, EachChar(seg));
    }
  }

  /** `skippableStates[j].nextStates.push(firstState)` for every `j`. */
  method LinkEach(g: StateGraph, from: seq<nat>, target: nat)
    requires g.Valid() && EdgesIn(g.nodes, from) && target < |g.nodes|
    modifies g
    ensures g.Valid() && g.nodes == LinkAll(old(g.nodes), from, target)
  {
    for j := 0 to |from|
      invariant g.Valid() && |g.nodes| == |old(g.nodes)|
      invariant EdgesIn(old(g.nodes), from[..j])
      invariant g.nodes == LinkAll(old(g.nodes), from[..j], target)
    {
      assert from[..j + 1][..j] == from[..j];
      g.Link(from[j], target);
    }
    assert from[..|from|] == from;
  }

  /** The marking loops at the end of `add`: `handlers`, `regex` and `types`
      stored on every state of `states`. */
  method MarkEach(g: StateGraph, states: seq<nat>, payload: Terminal)
    requires g.Valid() && EdgesIn(g.nodes, states)
    modifies g
    ensures g.Valid() && g.nodes == MarkAll(old(g.nodes), states, payload)
  {
    for j := 0 to |states|
      invariant g.Valid() && |g.nodes| == |old(g.nodes)|
      invariant EdgesIn(old(g.nodes), states[..j])
      invariant g.nodes == MarkAll(old(g.nodes), states[..j], payload)
    {
      assert states[..j + 1][..j] == states[..j];
      g.MarkAccepting(states[j], payload);
    }
    assert states[..|states|] == states;
  }

  /** Marking the skipped states and then the final one is marking the
      list of all of them. */
  lemma MarkLast(nodes: seq<Node>, states: seq<nat>, last: nat, payload: Terminal)
    requires EdgesIn(nodes, states) && last < |nodes|
    ensures EdgesIn(nodes, states + [last])
    ensures MarkAll(nodes, states + [last], payload) ==
      MarkAll(nodes, states, payload)[last := MarkAll(nodes, states, payload)[last].(accepting := Some(payload))]
  {
    assert (states + [last])[..|states|] == states;
  }

  /** The last step of `add`: the skipped states, then the final one,
      become accepting. */
  method Accept(g: StateGraph, current: nat, skippable: seq<nat>, payload: Terminal)
    requires g.Valid() && EdgesIn(g.nodes, skippable) && current < |g.nodes|
    modifies g
    ensures g.Valid() && g.nodes == MarkAll(old(g.nodes), skippable + [current], payload)
  {
    MarkLast(g.nodes, skippable, current, payload);
    MarkEach(g, skippable, payload);
    g.MarkAccepting(current, payload);
  }

  /** `AddRoute` in the steps the methods take. */
  lemma AddRouteSteps(nodes: seq<Node>, segs: seq<Segment>, version: Version, payload: Terminal,
                      closed: seq<Node>, current: nat, skippable: seq<nat>)
    requires Closed(nodes) && Shaped(nodes) && |nodes| > 0
    requires var b := BuildAll(Start(nodes), segs, version);
      (closed, current) == Close(b) && skippable == b.skippable
    ensures EdgesIn(closed, skippable + [current])
    ensures AddRoute(nodes, segs, version, payload) == (MarkAll(closed, skippable + [current], payload), current)
  {
  }

  /** The loop of `add` over one more segment is one more pass. */
  lemma BuildAllSnoc(start: Build, segs: seq<Segment>, i: nat, version: Version)
    requires Sound(start) && i < |segs|
    ensures BuildAll(start, segs[..i + 1], version) == BuildStep(BuildAll(start, segs[..i], version), segs[i], version)
  {
    assert segs[..i + 1][..i] == segs[..i];
  }

  /** The source and the emptiness flag over one more segment: the source
      built so far grows by that segment's fragment, written whole or as a
      `/` and then the segment's own `regex()`. */
  lemma RegexSnoc(segs: seq<Segment>, i: nat, version: Version)
    requires i < |segs|
    ensures RegexBody(segs[..i + 1], version) == RegexBody(segs[..i], version) + Fragment(segs[i], version)
    ensures "^" + RegexBody(segs[..i + 1], version) == "^" + RegexBody(segs[..i], version) + Fragment(segs[i], version)
    ensures !segs[i].Epsilon? && !IsOptional(segs[i], version) ==>
      "^" + RegexBody(segs[..i + 1], version) == "^" + RegexBody(segs[..i], version) + "/" + Regex(segs[i])
    ensures AllSkippable(segs[..i + 1], version) == (AllSkippable(segs[..i], version) && (segs[i].Epsilon? || IsOptional(segs[i], version)))
  {
    assert segs[..i + 1][..i] == segs[..i];
  }

  /** The pass over a non-epsilon segment, given what `addSegment` did. */
  lemma BuildStepIs(b: Build, seg: Segment, version: Version, n2: seq<Node>, first: nat, next: nat)
    requires Sound(b) && !seg.Epsilon?
    requires (n2, first, next) == AddSegmentResult(b.nodes, b.current, seg)
    ensures EdgesIn(n2, b.skippable) && first < |n2|
    ensures IsOptional(seg, version) ==> BuildStep(b, seg, version) == Build(LinkAll(n2, b.skippable, first), b.current, b.skippable + [next], b.empty)
    ensures !IsOptional(seg, version) ==> BuildStep(b, seg, version) == Build(LinkAll(n2, b.skippable, first), next, [], false)
  {
  }

  /** The loop of `add` has done `segs[..i]`. */
  ghost predicate Threaded(start: Build, segs: seq<Segment>, i: nat, b: Build, regex: string, version: Version)
    requires Sound(start) && i <= |segs|
  {
    && b == BuildAll(start, segs[..i], version)
    && regex == "^" + RegexBody(segs[..i], version)
    && b.empty == AllSkippable(segs[..i], version)
  }

  /** One pass of the loop of the newest `add`: an epsilon segment is
      skipped; for any other one `addSegment`, the links from the skipped
      states, and the update of the loop variables and of `regex`. */
  method ThreadStep(g: StateGraph, ghost start: Build, segs: seq<Segment>, i: nat,
                    current: nat, skippable: seq<nat>, empty: bool, regex: string)
    returns (current': nat, skippable': seq<nat>, empty': bool, regex': string)
    requires g.Valid() && Shaped(g.nodes) && Sound(start) && i < |segs|
    requires Threaded(start, segs, i, Build(g.nodes, current, skippable, empty), regex, Current)
    modifies g
    ensures g.Valid() && Shaped(g.nodes)
    ensures Threaded(start, segs, i + 1, Build(g.nodes, current', skippable', empty'), regex', Current)
  {
    var seg := segs[i];
    BuildAllSnoc(start, segs, i, Current);
    RegexSnoc(segs, i, Current);
    if seg.Epsilon? {
      return current, skippable, empty, regex;
    }
    ghost var b := Build(g.nodes, current, skippable, empty);
    var first, next := AddSegment(g, current, seg);
    ghost var n2 := g.nodes;
    BuildStepIs(b, seg, Current, n2, first, next);
    LinkEach(g, skippable, first);
    GrowsShaped(n2, g.nodes);
    if seg.Dynamic? && seg.optional {
      current', skippable', empty' := current, skippable + [next], empty;
      regex' := regex + ("(?:/" + Regex(seg) + ")?");
    } else {
      current', skippable', empty' := next, [], false;
      regex' := regex + ("/" + Regex(seg));
    }
  }

  /** The loop of the newest `add` and the `isEmpty` step after it: the
      state to mark last, the trailing skipped states, and the regular
      expression source built so far (without its closing `$`). */
  method Thread(g: StateGraph, segs: seq<Segment>) returns (current: nat, skippable: seq<nat>, regex: string)
    requires g.Valid() && Shaped(g.nodes)
    modifies g
    ensures g.Valid() && Shaped(g.nodes)
    ensures var b := BuildAll(Start(old(g.nodes)), segs, Current);
      (g.nodes, current) == Close(b) && skippable == b.skippable
    ensures regex + "$" == RegexSource(segs, Current)
  {
    ghost var start := Start(g.nodes);
    current := 0;
    skippable := [];
    regex := "^";
    var empty := true;
    for i := 0 to |segs|
      invariant g.Valid() && Shaped(g.nodes)
      invariant Threaded(start, segs, i, Build(g.nodes, current, skippable, empty), regex, Current)
    {
      current, skippable, empty, regex := ThreadStep(g, start, segs, i, current, skippable, empty, regex);
    }
    assert segs[..|segs|] == segs;
    if empty {
      current := g.Put(current, SlashSpec);
      regex := regex + "/?";
    }
  }

  /** One pass of the loop of the older `add`: an epsilon segment is
      skipped; any other one clears `isEmpty`, adds a `/` transition and then
      the segment's specifications, and appends `/` and the segment's
      fragment to `regex`. */
  method LegacyStep(g: StateGraph, ghost start: Build, segs: seq<Segment>, i: nat,
                    current: nat, empty: bool, regex: string)
    returns (current': nat, empty': bool, regex': string)
    requires g.Valid() && Shaped(g.nodes) && Sound(start) && i < |segs|
    requires Threaded(start, segs, i, Build(g.nodes, current, [], empty), regex, Legacy)
    modifies g
    ensures g.Valid() && Shaped(g.nodes)
    ensures Threaded(start, segs, i + 1, Build(g.nodes, current', [], empty'), regex', Legacy)
  {
    var seg := segs[i];
    BuildAllSnoc(start, segs, i, Legacy);
    RegexSnoc(segs, i, Legacy);
    if seg.Epsilon? {
      return current, empty, regex;
    }
    ghost var b := Build(g.nodes, current, [], empty);
    empty' := false;
    var first := g.Put(current, SlashSpec);
    ghost var n1 := g.nodes;
    regex' := regex + "/";
    current' := g.PutAll(first, EachChar(seg));
    regex' := regex' + Regex(seg);
    assert (g.nodes, first, current') == AddSegmentResult(b.nodes, current, seg) by {
      assert (n1, first) == PutResult(b.nodes, current, SlashSpec);
      assert (g.nodes, current') == PutAllResult(n1, first, EachChar(seg));
    }
    BuildStepIs(b, seg, Legacy, g.nodes, first, current');
  }

  /** The loop of the older `add` and the `isEmpty` step after it: the state
      to mark and the regular expression source (without its closing `$`).
      That version has no skipped states. */
  method ThreadLegacy(g: StateGraph, segs: seq<Segment>) returns (current: nat, regex: string)
    requires g.Valid() && Shaped(g.nodes)
    modifies g
    ensures g.Valid() && Shaped(g.nodes)
    ensures var b := BuildAll(Start(old(g.nodes)), segs, Legacy);
      (g.nodes, current) == Close(b) && b.skippable == []
    ensures regex + "$" == RegexSource(segs, Legacy)
  {
    ghost var start := Start(g.nodes);
    current := 0;
    regex := "^";
    var empty := true;
    for i := 0 to |segs|
      invariant g.Valid() && Shaped(g.nodes)
      invariant Threaded(start, segs, i, Build(g.nodes, current, [], empty), regex, Legacy)
    {
      current, empty, regex := LegacyStep(g, start, segs, i, current, empty, regex);
    }
    assert segs[..|segs|] == segs;
    if empty {
      current := g.Put(current, SlashSpec);
      regex := regex + "/";
    }
  }
}
