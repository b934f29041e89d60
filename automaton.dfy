/** The character-level automaton (`State` in src/state.js; the newest
    version carries a textually identical copy). All states live in one arena,
    `StateGraph.nodes`; a state is its index there and `nextStates` holds
    indices, so the self-loop of a repeating state is plain data. Index 0 is
    the root state, which has no character specification. */
module Automaton {
  import opened Basics
  import opened Entities

  /** A character specification: an allow-set (`validChars`) or a deny-set
      (`invalidChars`), each an optional string, and the `repeat` flag. */
  datatype CharSpec = CharSpec(validChars: Option<string>, invalidChars: Option<string>, repeat: bool)

  /** The root's specification: `new State()` leaves it undefined. */
  const RootSpec := CharSpec(None, None, false)

  /** `{ validChars: '/' }`, the separator transition. */
  const SlashSpec := CharSpec(Some("/"), None, false)

  /** The equality `get` uses: both strings equal, `repeat` ignored. */
  predicate SameKey(a: CharSpec, b: CharSpec)
  {
    a.validChars == b.validChars && a.invalidChars == b.invalidChars
  }

  /** The test `match` applies to a child: membership in `validChars` when it
      is defined, otherwise absence from `invalidChars` when that is defined;
      a specification with neither accepts nothing. */
  predicate Accepts(spec: CharSpec, ch: char)
  {
    if spec.validChars.Some? then ch in spec.validChars.value
    else if spec.invalidChars.Some? then ch !in spec.invalidChars.value
    else false
  }

  /** A state: its specification, `nextStates`, and, once some route ends
      here, the accepting payload (`handlers`, `regex`, `types`). */
  datatype Node = Node(spec: CharSpec, next: seq<nat>, accepting: Option<Terminal>)

  predicate EdgesIn(nodes: seq<Node>, edges: seq<nat>)
  {
    forall k :: 0 <= k < |edges| ==> edges[k] < |nodes|
  }

  /** Every edge points at a state of the arena. */
  predicate Closed(nodes: seq<Node>)
  {
    forall i :: 0 <= i < |nodes| ==> EdgesIn(nodes, nodes[i].next)
  }

  /** `after` is `before` with more states and more edges, and nothing else
      changed: states keep their specification and payload, edges are only
      appended. */
  predicate Grows(before: seq<Node>, after: seq<Node>)
  {
    && |before| <= |after|
    && forall i :: 0 <= i < |before| ==>
         after[i].spec == before[i].spec && before[i].next <= after[i].next
  }

  /** Like `Grows`, and no payload changed either. */
  predicate GrowsKeeping(before: seq<Node>, after: seq<Node>)
  {
    Grows(before, after) && forall i :: 0 <= i < |before| ==> after[i].accepting == before[i].accepting
  }

  // ---------------------------------------------------------------------------
  // get

  /** The position, in `edges`, of the first child whose key equals `spec`'s. */
  function FirstWithKey(nodes: seq<Node>, edges: seq<nat>, spec: CharSpec): (r: Option<nat>)
    requires EdgesIn(nodes, edges)
    ensures r.Some? ==> r.value < |edges| && SameKey(nodes[edges[r.value]].spec, spec)
    ensures r.Some? ==> forall k :: 0 <= k < r.value ==> !SameKey(nodes[edges[k]].spec, spec)
    ensures r.None? ==> forall k :: 0 <= k < |edges| ==> !SameKey(nodes[edges[k]].spec, spec)
  {
    if edges == [] then None
    else if SameKey(nodes[edges[0]].spec, spec) then Some(0)
    else match FirstWithKey(nodes, edges[1..], spec)
      case None => None
      case Some(k) => Some(k + 1)
  }

  /** What `get(spec)` on state `s` returns. */
  function Child(nodes: seq<Node>, s: nat, spec: CharSpec): Option<nat>
    requires Closed(nodes) && s < |nodes|
  {
    match FirstWithKey(nodes, nodes[s].next, spec)
    case None => None
    case Some(k) => Some(nodes[s].next[k])
  }

  // ---------------------------------------------------------------------------
  // put

  /** The arena and the state `put(spec)` on state `s` leaves and returns. */
  function PutResult(nodes: seq<Node>, s: nat, spec: CharSpec): (r: (seq<Node>, nat))
    requires Closed(nodes) && s < |nodes|
    ensures Closed(r.0) && r.1 < |r.0| && GrowsKeeping(nodes, r.0)
    ensures r.1 in r.0[s].next && SameKey(r.0[r.1].spec, spec)
  {
    match Child(nodes, s, spec)
    case Some(t) => (nodes, t)
    case None =>
      var t := |nodes|;
      var grown := nodes[s := nodes[s].(next := nodes[s].next + [t])];
      (grown + [Node(spec, if spec.repeat then [t] else [], None)], t)
  }

  /** `addSegment`'s callback loop: `put` each specification in turn. */
  function PutAllResult(nodes: seq<Node>, s: nat, specs: seq<CharSpec>): (r: (seq<Node>, nat))
    requires Closed(nodes) && s < |nodes|
    ensures Closed(r.0) && r.1 < |r.0| && GrowsKeeping(nodes, r.0)
    decreases |specs|
  {
    if specs == [] then (nodes, s)
    else
      var (n1, t1) := PutResult(nodes, s, specs[0]);
      PutAllResult(n1, t1, specs[1..])
  }

  // ---------------------------------------------------------------------------
  // match and recognizeChar

  /** The children among `edges` that accept `ch`, in order. */
  function Matches(nodes: seq<Node>, edges: seq<nat>, ch: char): (r: seq<nat>)
    requires EdgesIn(nodes, edges)
    ensures EdgesIn(nodes, r)
    decreases |edges|
  {
    if edges == [] then []
    else
      var last := edges[|edges| - 1];
      Matches(nodes, edges[..|edges| - 1], ch) + (if Accepts(nodes[last].spec, ch) then [last] else [])
  }

  /** `recognizeChar`: the concatenation of `match(ch)` over `states`. */
  function Step(nodes: seq<Node>, states: seq<nat>, ch: char): (r: seq<nat>)
    requires Closed(nodes) && EdgesIn(nodes, states)
    ensures EdgesIn(nodes, r)
    decreases |states|
  {
    if states == [] then []
    else Step(nodes, states[..|states| - 1], ch) + Matches(nodes, nodes[states[|states| - 1]].next, ch)
  }

  /** The state list after feeding `w` one character at a time. */
  function Walk(nodes: seq<Node>, states: seq<nat>, w: string): (r: seq<nat>)
    requires Closed(nodes) && EdgesIn(nodes, states)
    ensures EdgesIn(nodes, r)
    decreases |w|
  {
    if w == [] then states else Walk(nodes, Step(nodes, states, w[0]), w[1..])
  }

  /** `a` is an in-order subsequence of `b`. */
  predicate IsSubsequence(a: seq<nat>, b: seq<nat>)
    decreases |b|
  {
    if a == [] then true
    else if b == [] then false
    else if a[|a| - 1] == b[|b| - 1] then IsSubsequence(a[..|a| - 1], b[..|b| - 1])
    else IsSubsequence(a, b[..|b| - 1])
  }

  // ---------------------------------------------------------------------------
  // The arena as the source mutates it

  class StateGraph {
    var nodes: seq<Node>

    ghost predicate Valid()
      reads this
    {
      |nodes| > 0 && Closed(nodes)
    }

    /** The root state, `new State()`. */
    constructor ()
      ensures Valid() && nodes == [Node(RootSpec, [], None)]
    {
      nodes := [Node(RootSpec, [], None)];
    }

    /** `get(spec)`: the first child whose `validChars` and `invalidChars`
        equal `spec`'s, or none. */
    method Get(s: nat, spec: CharSpec) returns (r: Option<nat>)
      requires Valid() && s < |nodes|
      ensures r == Child(nodes, s, spec)
      ensures r.None? <==> forall k :: 0 <= k < |nodes[s].next| ==> !SameKey(nodes[nodes[s].next[k]].spec, spec)
      ensures r.Some? ==> r.value in nodes[s].next && SameKey(nodes[r.value].spec, spec)
    {
      var edges := nodes[s].next;
      var i := 0;
      while i < |edges|
        invariant 0 <= i <= |edges|
        invariant forall k :: 0 <= k < i ==> !SameKey(nodes[edges[k]].spec, spec)
      {
        var child := edges[i];
        if nodes[child].spec.validChars == spec.validChars && nodes[child].spec.invalidChars == spec.invalidChars {
          r := Some(child);
          return;
        }
        i := i + 1;
      }
      r := None;
    }

    /** `put(spec)`: the existing child with the same key, leaving every
        state as it was; otherwise a new child appended to `nextStates`, with
        itself as its only successor when `spec.repeat` is set. */
    method Put(s: nat, spec: CharSpec) returns (t: nat)
      requires Valid() && s < |nodes|
      modifies this
      ensures Valid() && (nodes, t) == PutResult(old(nodes), s, spec)
      ensures old(Child(nodes, s, spec)).Some? ==> t == old(Child(nodes, s, spec)).value && nodes == old(nodes)
      ensures old(Child(nodes, s, spec)).None? ==>
        && t == old(|nodes|) && |nodes| == old(|nodes|) + 1
        && nodes[t] == Node(spec, if spec.repeat then [t] else [], None)
        && nodes[s].next == old(nodes[s].next) + [t]
        && forall i :: 0 <= i < old(|nodes|) && i != s ==> nodes[i] == old(nodes[i])
    {
      var existing := Get(s, spec);
      if existing.Some? {
        return existing.value;
      }
      t := |nodes|;
      nodes := nodes[s := nodes[s].(next := nodes[s].next + [t])];
      nodes := nodes + [Node(spec, if spec.repeat then [t] else [], None)];
    }

    /** `match(ch)`: the children of `s` whose specification accepts `ch`,
        in `nextStates` order. */
    method Match(s: nat, ch: char) returns (r: seq<nat>)
      requires Valid() && s < |nodes|
      ensures r == Matches(nodes, nodes[s].next, ch)
    {
      var edges := nodes[s].next;
      r := [];
      for i := 0 to |edges|
        invariant r == Matches(nodes, edges[..i], ch)
      {
        assert edges[..i + 1][..i] == edges[..i];
        var child := edges[i];
        var spec := nodes[child].spec;
        if spec.validChars.Some? {
          if ch in spec.validChars.value {
            r := r + [child];
          }
        } else if spec.invalidChars.Some? {
          if ch !in spec.invalidChars.value {
            r := r + [child];
          }
        }
      }
      assert edges[..|edges|] == edges;
    }

    /** `recognizeChar(states, ch)`: `match(ch)` of every state, concatenated
        in order. */
    method RecognizeChar(states: seq<nat>, ch: char) returns (r: seq<nat>)
      requires Valid() && EdgesIn(nodes, states)
      ensures r == Step(nodes, states, ch)
    {
      r := [];
      for i := 0 to |states|
        invariant r == Step(nodes, states[..i], ch)
      {
        assert states[..i + 1][..i] == states[..i];
        var more := Match(states[i], ch);
        r := r + more;
      }
      assert states[..|states|] == states;
    }

    /** `addSegment` of src/route-recognizer.js: `put` every specification of
        a segment in turn, starting from `s`. */
    method PutAll(s: nat, specs: seq<CharSpec>) returns (t: nat)
      requires Valid() && s < |nodes|
      modifies this
      ensures Valid() && (nodes, t) == PutAllResult(old(nodes), s, specs)
    {
      t := s;
      for i := 0 to |specs|
        invariant Valid() && t < |nodes|
        invariant PutAllResult(nodes, t, specs[i..]) == PutAllResult(old(nodes), s, specs)
      {
        assert specs[i..][1..] == specs[i + 1..];
        t := Put(t, specs[i]);
      }
    }

    /** `state.nextStates.push(target)` done from outside `put`. */
    method Link(from: nat, target: nat)
      requires Valid() && from < |nodes| && target < |nodes|
      modifies this
      ensures Valid() && |nodes| == old(|nodes|)
      ensures nodes == old(nodes)[from := old(nodes[from]).(next := old(nodes[from].next) + [target])]
    {
      nodes := nodes[from := nodes[from].(next := nodes[from].next + [target])];
    }

    /** Stores `handlers`, `regex` and `types` on state `s`. */
    method MarkAccepting(s: nat, payload: Terminal)
      requires Valid() && s < |nodes|
      modifies this
      ensures Valid() && nodes == old(nodes)[s := old(nodes[s]).(accepting := Some(payload))]
    {
      nodes := nodes[s := nodes[s].(accepting := Some(payload))];
    }
  }

  // ---------------------------------------------------------------------------
  // Properties of get, put and match

  lemma {:induction false} FirstWithKeyAppend(nodes: seq<Node>, edges: seq<nat>, t: nat, spec: CharSpec)
    requires EdgesIn(nodes, edges) && t < |nodes|
    requires FirstWithKey(nodes, edges, spec).None? && SameKey(nodes[t].spec, spec)
    ensures FirstWithKey(nodes, edges + [t], spec) == Some(|edges|)
  {
    if edges != [] {
      assert (edges + [t])[1..] == edges[1..] + [t];
      FirstWithKeyAppend(nodes, edges[1..], t, spec);
    }
  }

  lemma {:induction false} FirstWithKeyFrame(before: seq<Node>, after: seq<Node>, edges: seq<nat>, spec: CharSpec)
    requires EdgesIn(before, edges) && Grows(before, after)
    ensures FirstWithKey(after, edges, spec) == FirstWithKey(before, edges, spec)
  {
    if edges != [] {
      FirstWithKeyFrame(before, after, edges[1..], spec);
    }
  }

  /** `put` is idempotent: putting the same specification again returns the
      same state and does not grow the automaton. */
  lemma PutIdempotent(nodes: seq<Node>, s: nat, spec: CharSpec)
    requires Closed(nodes) && s < |nodes|
    ensures var (n1, t1) := PutResult(nodes, s, spec); PutResult(n1, s, spec) == (n1, t1)
  {
    var (n1, t1) := PutResult(nodes, s, spec);
    if Child(nodes, s, spec).None? {
      assert n1[s].next == nodes[s].next + [t1];
      FirstWithKeyFrame(nodes, n1, nodes[s].next, spec);
      FirstWithKeyAppend(n1, nodes[s].next, t1, spec);
    }
  }

  /** A child `put` returned is among the states `match` yields for every
      character its specification accepts. */
  lemma PutThenMatch(nodes: seq<Node>, s: nat, spec: CharSpec, ch: char)
    requires Closed(nodes) && s < |nodes| && Accepts(spec, ch)
    ensures var (n1, t1) := PutResult(nodes, s, spec); t1 in Matches(n1, n1[s].next, ch)
  {
    var (n1, t1) := PutResult(nodes, s, spec);
    MatchesMembers(n1, n1[s].next, ch, t1);
  }

  /** `match(ch)` yields exactly the children that accept `ch`. */
  lemma {:induction false} MatchesMembers(nodes: seq<Node>, edges: seq<nat>, ch: char, t: nat)
    requires EdgesIn(nodes, edges)
    ensures t in Matches(nodes, edges, ch) <==> t in edges && t < |nodes| && Accepts(nodes[t].spec, ch)
    decreases |edges|
  {
    if edges != [] {
      var init := edges[..|edges| - 1];
      MatchesMembers(nodes, init, ch, t);
      assert edges == init + [edges[|edges| - 1]];
    }
  }

  /** `match(ch)` keeps `nextStates` order: its result is a subsequence. */
  lemma {:induction false} MatchesInOrder(nodes: seq<Node>, edges: seq<nat>, ch: char)
    requires EdgesIn(nodes, edges)
    ensures IsSubsequence(Matches(nodes, edges, ch), edges)
    decreases |edges|
  {
    if edges != [] {
      var init := edges[..|edges| - 1];
      var last := edges[|edges| - 1];
      assert edges == init + [last];
      MatchesInOrder(nodes, init, ch);
      if Accepts(nodes[last].spec, ch) {
        var r := Matches(nodes, edges, ch);
        assert r[..|r| - 1] == Matches(nodes, init, ch);
      } else {
        assert Matches(nodes, edges, ch) == Matches(nodes, init, ch);
        SubsequenceOfLonger(Matches(nodes, init, ch), init, last);
      }
    }
  }

  lemma {:induction false} SubsequenceOfLonger(a: seq<nat>, b: seq<nat>, x: nat)
    requires IsSubsequence(a, b)
    ensures IsSubsequence(a, b + [x])
    decreases |b|, 1
  {
    var bx := b + [x];
    assert bx[..|bx| - 1] == b;
    if a != [] && a[|a| - 1] == x {
      SubsequencePrefix(a, b);
    }
  }

  /** Dropping the last element of a subsequence keeps it a subsequence. */
  lemma {:induction false} SubsequencePrefix(a: seq<nat>, b: seq<nat>)
    requires a != [] && IsSubsequence(a, b)
    ensures IsSubsequence(a[..|a| - 1], b)
    decreases |b|, 0
  {
    if b == [] {
      assert false;
    } else {
      var init := b[..|b| - 1];
      assert init + [b[|b| - 1]] == b;
      if a[|a| - 1] == b[|b| - 1] {
        SubsequenceOfLonger(a[..|a| - 1], init, b[|b| - 1]);
      } else {
        SubsequencePrefix(a, init);
        SubsequenceOfLonger(a[..|a| - 1], init, b[|b| - 1]);
      }
    }
  }


  /** `recognizeChar` yields exactly the children, of some state in the list,
      that accept `ch`. */
  lemma {:induction false} StepMembers(nodes: seq<Node>, states: seq<nat>, ch: char, t: nat)
    requires Closed(nodes) && EdgesIn(nodes, states)
    ensures t in Step(nodes, states, ch) <==>
      exists s :: s in states && t in nodes[s].next && Accepts(nodes[t].spec, ch)
    decreases |states|
  {
    if states != [] {
      var init := states[..|states| - 1];
      var last := states[|states| - 1];
      StepMembers(nodes, init, ch, t);
      MatchesMembers(nodes, nodes[last].next, ch, t);
      assert states == init + [last];
      if t in Step(nodes, states, ch) {
        if t in Step(nodes, init, ch) {
          var s :| s in init && t in nodes[s].next && Accepts(nodes[t].spec, ch);
          assert s in states;
        } else {
          assert last in states;
        }
      }
    }
  }

  // ---------------------------------------------------------------------------
  // Shape: the specifications the recognizer puts, and their self-loops

  /** The two shapes of specification the segments produce: an allow-set
      that never repeats, or a deny-set that always repeats. */
  predicate Normal(spec: CharSpec)
  {
    || (spec.validChars.Some? && spec.invalidChars.None? && !spec.repeat)
    || (spec.validChars.None? && spec.invalidChars.Some? && spec.repeat)
  }

  /** Every state is the root or has a normal specification, and every
      repeating state loops back to itself. */
  predicate Shaped(nodes: seq<Node>)
  {
    forall i :: 0 <= i < |nodes| ==>
      (Normal(nodes[i].spec) || nodes[i].spec == RootSpec) && (nodes[i].spec.repeat ==> i in nodes[i].next)
  }

  lemma GrowsShaped(before: seq<Node>, after: seq<Node>)
    requires Shaped(before) && Grows(before, after) && |after| == |before|
    ensures Shaped(after)
  {
    forall i | 0 <= i < |after| && after[i].spec.repeat
      ensures i in after[i].next
    {
      assert i in before[i].next;
      assert before[i].next <= after[i].next;
    }
  }

  /** `put` of a normal specification keeps the shape, and the state it
      returns carries exactly that specification (two normal specifications
      with the same key agree on `repeat`). */
  lemma PutShaped(nodes: seq<Node>, s: nat, spec: CharSpec)
    requires Closed(nodes) && Shaped(nodes) && s < |nodes| && Normal(spec)
    ensures var (n1, t1) := PutResult(nodes, s, spec); Shaped(n1) && n1[t1].spec == spec
  {
    var (n1, t1) := PutResult(nodes, s, spec);
    if Child(nodes, s, spec).None? {
      forall i | 0 <= i < |n1| && n1[i].spec.repeat
        ensures i in n1[i].next
      {
        if i < |nodes| {
          assert i in nodes[i].next;
          assert nodes[i].next <= n1[i].next;
        }
      }
    }
  }

  /** `addSegment` of a normal specification sequence keeps the shape. */
  lemma {:induction false} PutAllShaped(nodes: seq<Node>, s: nat, specs: seq<CharSpec>)
    requires Closed(nodes) && Shaped(nodes) && s < |nodes|
    requires forall k :: 0 <= k < |specs| ==> Normal(specs[k])
    ensures Shaped(PutAllResult(nodes, s, specs).0)
    decreases |specs|
  {
    if specs != [] {
      PutShaped(nodes, s, specs[0]);
      var (n1, t1) := PutResult(nodes, s, specs[0]);
      PutAllShaped(n1, t1, specs[1..]);
    }
  }

  // ---------------------------------------------------------------------------
  // Walks

  /** One step reaches every accepting child of every state in the list. */
  lemma StepReaches(nodes: seq<Node>, states: seq<nat>, s: nat, t: nat, ch: char)
    requires Closed(nodes) && EdgesIn(nodes, states)
    requires s in states && t in nodes[s].next && t < |nodes| && Accepts(nodes[t].spec, ch)
    ensures t in Step(nodes, states, ch)
  {
    StepMembers(nodes, states, ch, t);
  }

  /** Walking `u + v` is walking `u`, then `v`. */
  lemma {:induction false} WalkAppend(nodes: seq<Node>, states: seq<nat>, u: string, v: string)
    requires Closed(nodes) && EdgesIn(nodes, states)
    ensures Walk(nodes, states, u + v) == Walk(nodes, Walk(nodes, states, u), v)
    decreases |u|
  {
    if u != [] {
      assert (u + v)[0] == u[0];
      assert (u + v)[1..] == u[1..] + v;
      WalkAppend(nodes, Step(nodes, states, u[0]), u[1..], v);
    } else {
      assert u + v == v;
    }
  }

  /** Walks are monotone: more starting states, more states and more edges
      reach at least the same states. */
  lemma {:induction false} WalkMonotone(before: seq<Node>, after: seq<Node>, a: seq<nat>, b: seq<nat>, w: string)
    requires Closed(before) && Closed(after) && Grows(before, after)
    requires EdgesIn(before, a) && EdgesIn(after, b)
    requires forall x :: x in a ==> x in b
    ensures forall t :: t in Walk(before, a, w) ==> t in Walk(after, b, w)
    decreases |w|
  {
    if w != [] {
      var a1 := Step(before, a, w[0]);
      var b1 := Step(after, b, w[0]);
      forall t | t in a1
        ensures t in b1
      {
        StepMembers(before, a, w[0], t);
        var s :| s in a && t in before[s].next && Accepts(before[t].spec, w[0]);
        assert before[s].next <= after[s].next;
        StepReaches(after, b, s, t, w[0]);
      }
      WalkMonotone(before, after, a1, b1, w[1..]);
    }
  }

  /** A state that loops back to itself and accepts every character of `w`
      stays in the list while `w` is read. */
  lemma {:induction false} SelfLoopWalk(nodes: seq<Node>, states: seq<nat>, t: nat, w: string)
    requires Closed(nodes) && EdgesIn(nodes, states)
    requires t in states && t < |nodes| && t in nodes[t].next
    requires forall k :: 0 <= k < |w| ==> Accepts(nodes[t].spec, w[k])
    ensures t in Walk(nodes, states, w)
    decreases |w|
  {
    if w != [] {
      StepReaches(nodes, states, t, t, w[0]);
      SelfLoopWalk(nodes, Step(nodes, states, w[0]), t, w[1..]);
    }
  }

  /** `w` spells `specs` one character per specification. */
  predicate Spelled(specs: seq<CharSpec>, w: string)
  {
    |specs| == |w| && forall k :: 0 <= k < |w| ==> Accepts(specs[k], w[k])
  }

  /** The state `addSegment` returns is reached from its start by every word
      that spells the specifications one character each. */
  lemma {:induction false} PutAllWalk(nodes: seq<Node>, s: nat, specs: seq<CharSpec>, w: string)
    requires Closed(nodes) && Shaped(nodes) && s < |nodes|
    requires forall k :: 0 <= k < |specs| ==> Normal(specs[k])
    requires Spelled(specs, w)
    ensures var (n1, t1) := PutAllResult(nodes, s, specs); t1 in Walk(n1, [s], w)
    decreases |specs|
  {
    if specs != [] {
      var (n1, t1) := PutResult(nodes, s, specs[0]);
      PutShaped(nodes, s, specs[0]);
      var (n2, t2) := PutAllResult(n1, t1, specs[1..]);
      PutAllWalk(n1, t1, specs[1..], w[1..]);
      assert n1[s].next <= n2[s].next;
      StepReaches(n2, [s], s, t1, w[0]);
      WalkMonotone(n2, n2, [t1], Step(n2, [s], w[0]), w[1..]);
    }
  }

  /** The state `put` returns for a repeating specification is reached by
      every non-empty word all of whose characters it accepts. */
  lemma PutRepeatWalk(nodes: seq<Node>, s: nat, spec: CharSpec, w: string)
    requires Closed(nodes) && Shaped(nodes) && s < |nodes|
    requires Normal(spec) && spec.repeat
    requires w != [] && forall k :: 0 <= k < |w| ==> Accepts(spec, w[k])
    ensures var (n1, t1) := PutResult(nodes, s, spec); t1 in Walk(n1, [s], w)
  {
    var (n1, t1) := PutResult(nodes, s, spec);
    PutShaped(nodes, s, spec);
    StepReaches(n1, [s], s, t1, w[0]);
    SelfLoopWalk(n1, Step(n1, [s], w[0]), t1, w[1..]);
  }

  lemma PutAllSingle(nodes: seq<Node>, s: nat, spec: CharSpec)
    requires Closed(nodes) && s < |nodes|
    ensures PutAllResult(nodes, s, [spec]) == PutResult(nodes, s, spec)
  {
    assert [spec][1..] == [];
  }
}
