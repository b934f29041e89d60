/** How `recognize` chooses among several accepting states: the comparator of
    `sortSolutions` on the states' `types` tallies, and the (stable) sort it
    drives. */
module Ranking {
  import opened Entities

  /** The comparator handed to `Array.prototype.sort`: fewer stars first;
      between routes with stars, more statics and then more dynamics first;
      otherwise fewer dynamics first, then more statics first. */
  function Compare(a: Types, b: Types): int
  {
    if a.stars != b.stars then a.stars - b.stars
    else if a.stars != 0 && a.statics != b.statics then b.statics - a.statics
    else if a.stars != 0 && a.dynamics != b.dynamics then b.dynamics - a.dynamics
    else if a.dynamics != b.dynamics then a.dynamics - b.dynamics
    else if a.statics != b.statics then b.statics - a.statics
    else 0
  }

  /** The ranking key the comparator implements, compared lexicographically:
      stars ascending; with stars, statics and dynamics descending; then
      dynamics ascending and statics descending. */
  function Key(t: Types): seq<int>
  {
    var stars: int, statics: int, dynamics: int := t.stars, t.statics, t.dynamics;
    [stars,
     if stars != 0 then -statics else 0,
     if stars != 0 then -dynamics else 0,
     dynamics,
     -statics]
  }

  /** Strict lexicographic order on equally long integer sequences. */
  predicate LexLess(x: seq<int>, y: seq<int>)
    requires |x| == |y|
    decreases |x|
  {
    x != [] && (x[0] < y[0] || (x[0] == y[0] && LexLess(x[1..], y[1..])))
  }

  /** The comparator is the lexicographic order on `Key`: negative exactly
      when the first key is smaller, zero exactly when the tallies agree. */
  lemma CompareIsLexicographic(a: Types, b: Types)
    ensures Compare(a, b) < 0 <==> LexLess(Key(a), Key(b))
    ensures Compare(a, b) == 0 <==> a == b
  {
    LexLessUnfold(Key(a), Key(b));
  }

  lemma LexLessUnfold(x: seq<int>, y: seq<int>)
    requires |x| == |y| == 5
    ensures LexLess(x, y) <==>
      x[0] < y[0] || (x[0] == y[0] && (x[1] < y[1] || (x[1] == y[1] && (x[2] < y[2] || (x[2] == y[2] &&
      (x[3] < y[3] || (x[3] == y[3] && x[4] < y[4])))))))
  {
    var x1, y1 := x[1..], y[1..];
    var x2, y2 := x1[1..], y1[1..];
    var x3, y3 := x2[1..], y2[1..];
    var x4, y4 := x3[1..], y3[1..];
    assert x4[1..] == [] && y4[1..] == [];
    assert x1[0] == x[1] && x2[0] == x[2] && x3[0] == x[3] && x4[0] == x[4];
    assert y1[0] == y[1] && y2[0] == y[2] && y3[0] == y[3] && y4[0] == y[4];
    assert LexLess(x4, y4) <==> x[4] < y[4];
    assert LexLess(x3, y3) <==> x[3] < y[3] || (x[3] == y[3] && LexLess(x4, y4));
    assert LexLess(x2, y2) <==> x[2] < y[2] || (x[2] == y[2] && LexLess(x3, y3));
    assert LexLess(x1, y1) <==> x[1] < y[1] || (x[1] == y[1] && LexLess(x2, y2));
  }

  /** Reversing the arguments reverses the verdict. */
  lemma CompareAntisymmetric(a: Types, b: Types)
    ensures Compare(a, b) < 0 <==> Compare(b, a) > 0
    ensures Compare(a, b) == 0 <==> Compare(b, a) == 0
  {
  }

  /** The comparator orders transitively, so it is a total preorder. */
  lemma CompareTransitive(a: Types, b: Types, c: Types)
    requires Compare(a, b) <= 0 && Compare(b, c) <= 0
    ensures Compare(a, c) <= 0
    ensures Compare(a, b) < 0 || Compare(b, c) < 0 ==> Compare(a, c) < 0
  {
  }

  // ---------------------------------------------------------------------------
  // sortSolutions

  /** An accepting state reached by the walk, with the tally it carries. */
  datatype Candidate = Candidate(state: nat, types: Types)

  predicate Sorted(s: seq<Candidate>)
  {
    forall i, j :: 0 <= i < j < |s| ==> Compare(s[i].types, s[j].types) <= 0
  }

  /** Inserts `x` after every element that does not rank strictly behind it. */
  function Insert(x: Candidate, s: seq<Candidate>): (r: seq<Candidate>)
    ensures |r| == |s| + 1
    ensures multiset(r) == multiset(s) + multiset{x}
  {
    if s == [] then [x]
    else if Compare(x.types, s[0].types) < 0 then [x] + s
    else
      assert s == [s[0]] + s[1..];
      [s[0]] + Insert(x, s[1..])
  }

  /** `sortSolutions(states)`, as the stable sort of ECMAScript 2019 orders
      it: equally ranked candidates keep their order. */
  function SortSolutions(s: seq<Candidate>): (r: seq<Candidate>)
    ensures |r| == |s|
    ensures multiset(r) == multiset(s)
    decreases |s|
  {
    if s == [] then []
    else
      assert s == s[..|s| - 1] + [s[|s| - 1]];
      Insert(s[|s| - 1], SortSolutions(s[..|s| - 1]))
  }

  lemma {:induction false} InsertSorted(x: Candidate, s: seq<Candidate>)
    requires Sorted(s)
    ensures Sorted(Insert(x, s))
    decreases |s|
  {
    if s != [] {
      if Compare(x.types, s[0].types) < 0 {
        forall j | 0 <= j < |s| ensures Compare(x.types, s[j].types) <= 0 {
          if j > 0 { CompareTransitive(x.types, s[0].types, s[j].types); }
        }
      } else {
        InsertSorted(x, s[1..]);
        var r := Insert(x, s);
        forall j | 1 <= j < |r| ensures Compare(s[0].types, r[j].types) <= 0 {
          assert r[j] in multiset(s[1..]) + multiset{x};
          if r[j] == x {
          } else {
            assert r[j] in s[1..];
          }
        }
      }
    }
  }

  /** `sortSolutions` returns a permutation of its input in comparator order. */
  lemma {:induction false} SortSolutionsSorted(s: seq<Candidate>)
    ensures Sorted(SortSolutions(s))
    decreases |s|
  {
    if s != [] {
      SortSolutionsSorted(s[..|s| - 1]);
      InsertSorted(s[|s| - 1], SortSolutions(s[..|s| - 1]));
    }
  }

  /** The index of the first best-ranked candidate: nothing ranks strictly
      ahead of it, and everything before it ranks strictly behind it. */
  function FirstBest(s: seq<Candidate>): (k: nat)
    requires s != []
    ensures k < |s|
    ensures forall j :: 0 <= j < |s| ==> Compare(s[k].types, s[j].types) <= 0
    ensures forall j :: 0 <= j < k ==> Compare(s[j].types, s[k].types) > 0
    decreases |s|
  {
    if |s| == 1 then 0
    else
      var k := FirstBest(s[..|s| - 1]);
      if Compare(s[|s| - 1].types, s[k].types) < 0 then
        assert forall j :: 0 <= j < |s| - 1 ==> Compare(s[j].types, s[|s| - 1].types) > 0 by {
          forall j | 0 <= j < |s| - 1 ensures Compare(s[j].types, s[|s| - 1].types) > 0 {
            assert s[..|s| - 1][j] == s[j];
            CompareTransitive(s[|s| - 1].types, s[k].types, s[j].types);
          }
        }
        |s| - 1
      else
        assert forall j :: 0 <= j < |s| - 1 ==> s[..|s| - 1][j] == s[j];
        k
  }

  /** The state `recognize` picks, `solutions[0]` after sorting, is the first
      best-ranked candidate in walk order. */
  lemma {:induction false} SortSolutionsWinner(s: seq<Candidate>)
    requires s != []
    ensures SortSolutions(s)[0] == s[FirstBest(s)]
    decreases |s|
  {
    if |s| > 1 {
      var init := s[..|s| - 1];
      SortSolutionsWinner(init);
      assert SortSolutions(init) != [];
    }
  }
}
