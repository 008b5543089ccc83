/** Reachability in a finite directed graph whose edges may point to missing nodes. */
module Graphs {

  /** Each node with its successors; only the keys are nodes. */
  type Graph = map<string, set<string>>

  ghost predicate IsPath(g: Graph, p: seq<string>) {
    && |p| > 0
    && (forall i | 0 <= i < |p| :: p[i] in g)
    && (forall i | 0 < i < |p| :: p[i] in g[p[i - 1]])
  }

  ghost predicate IsPathBetween(g: Graph, p: seq<string>, a: string, b: string) {
    IsPath(g, p) && p[0] == a && p[|p| - 1] == b
  }

  ghost predicate Reaches(g: Graph, a: string, b: string) {
    exists p :: IsPathBetween(g, p, a, b)
  }

  /** The nodes reachable from the nodes in `from`. */
  ghost function Closure(g: Graph, from: set<string>): set<string> {
    set h | h in g && exists r :: r in from && Reaches(g, r, h)
  }

  ghost predicate ClosedUnderEdges(g: Graph, s: set<string>) {
    forall a, b | a in s && a in g && b in g[a] && b in g :: b in s
  }

  function Transposed(g: Graph): Graph {
    map n | n in g :: set m | m in g && n in g[m]
  }

  lemma ClosureContainsStart(g: Graph, from: set<string>, r: string)
    requires r in from && r in g
    ensures r in Closure(g, from)
  {
    assert IsPathBetween(g, [r], r, r);
    assert Reaches(g, r, r);
  }

  lemma ClosureStep(g: Graph, from: set<string>, a: string, b: string)
    requires a in Closure(g, from) && b in g[a] && b in g
    ensures b in Closure(g, from)
  {
    var r :| r in from && Reaches(g, r, a);
    var p :| IsPathBetween(g, p, r, a);
    assert IsPathBetween(g, p + [b], r, b);
    assert Reaches(g, r, b);
  }

  lemma {:induction false} PathStaysInside(g: Graph, s: set<string>, p: seq<string>)
    requires IsPath(g, p) && p[0] in s && ClosedUnderEdges(g, s)
    ensures p[|p| - 1] in s
  {
    if |p| > 1 {
      PathStaysInside(g, s, p[..|p| - 1]);
    }
  }

  /** The closure is the least set that holds the starting nodes and is closed under edges. */
  lemma ClosureIsLeast(g: Graph, from: set<string>, s: set<string>)
    requires forall r | r in from && r in g :: r in s
    requires ClosedUnderEdges(g, s)
    ensures Closure(g, from) <= s
  {
    forall h | h in Closure(g, from) ensures h in s {
      var r :| r in from && Reaches(g, r, h);
      var p :| IsPathBetween(g, p, r, h);
      PathStaysInside(g, s, p);
    }
  }

  lemma ReachesTransposed(g: Graph, a: string, b: string)
    requires Reaches(g, a, b)
    ensures Reaches(Transposed(g), b, a)
  {
    var p :| IsPathBetween(g, p, a, b);
    var q := seq(|p|, i requires 0 <= i < |p| => p[|p| - 1 - i]);
    var t := Transposed(g);
    forall i | 0 < i < |q| ensures q[i] in t[q[i - 1]] {
      assert p[|p| - i] in g[p[|p| - 1 - i]];
    }
    assert IsPathBetween(t, q, b, a);
  }

  lemma TransposedTwice(g: Graph, n: string)
    requires n in g
    ensures Transposed(Transposed(g))[n] <= g[n]
  {
    var t := Transposed(g);
    forall m | m in Transposed(t)[n] ensures m in g[n] {
      assert m in t && n in t[m];
    }
  }

  lemma ReachesRestricted(g: Graph, g': Graph, a: string, b: string)
    requires Reaches(g', a, b)
    requires forall n | n in g' :: n in g && g'[n] <= g[n]
    ensures Reaches(g, a, b)
  {
    var p :| IsPathBetween(g', p, a, b);
    assert IsPathBetween(g, p, a, b);
  }

  /** Walking the edges backwards from `b` finds `a` exactly when walking them forwards from `a`
      finds `b`. */
  lemma BackwardIsForward(g: Graph, a: string, b: string)
    ensures Reaches(Transposed(g), b, a) <==> Reaches(g, a, b)
  {
    if Reaches(g, a, b) {
      ReachesTransposed(g, a, b);
    }
    if Reaches(Transposed(g), b, a) {
      ReachesTransposed(Transposed(g), b, a);
      var tt := Transposed(Transposed(g));
      forall n | n in tt ensures n in g && tt[n] <= g[n] {
        TransposedTwice(g, n);
      }
      ReachesRestricted(g, tt, a, b);
    }
  }

  predicate Subgraph(g': Graph, g: Graph) {
    forall n | n in g' :: n in g && g'[n] == g[n]
  }

  lemma ClosureOfSmaller(g: Graph, g': Graph, from: set<string>)
    requires Subgraph(g', g)
    ensures Closure(g', from) <= Closure(g, from)
  {
    forall h | h in Closure(g', from) ensures h in Closure(g, from) {
      var r :| r in from && Reaches(g', r, h);
      ReachesRestricted(g, g', r, h);
    }
  }

  lemma ClosureIsClosed(g: Graph, from: set<string>)
    ensures ClosedUnderEdges(g, Closure(g, from))
  {
    var s := Closure(g, from);
    forall a, b | a in s && a in g && b in g[a] && b in g ensures b in s {
      ClosureStep(g, from, a, b);
    }
  }

  lemma ClosureContainsStarts(g: Graph, from: set<string>)
    ensures forall r | r in from && r in g :: r in Closure(g, from)
  {
    forall r | r in from && r in g ensures r in Closure(g, from) {
      ClosureContainsStart(g, from, r);
    }
  }

  lemma ClosedInLarger(g: Graph, g': Graph, inner: set<string>, outer: set<string>)
    requires Subgraph(g', g) && inner <= outer <= g'.Keys
    requires ClosedUnderEdges(g', inner) && ClosedUnderEdges(g, outer)
    ensures ClosedUnderEdges(g, inner)
  {
    forall a, b | a in inner && a in g && b in g[a] && b in g ensures b in inner {
      assert b in outer;
    }
  }

  /** Deleting nodes that are not reachable from `from` changes nothing for `from`. */
  lemma ClosureOfSubgraph(g: Graph, g': Graph, from: set<string>)
    requires Subgraph(g', g)
    requires Closure(g, from) <= g'.Keys
    ensures Closure(g', from) == Closure(g, from)
  {
    ClosureOfSmaller(g, g', from);
    ClosureIsClosed(g, from);
    ClosureIsClosed(g', from);
    ClosedInLarger(g, g', Closure(g', from), Closure(g, from));
    ClosureContainsStarts(g, from);
    ClosureContainsStarts(g', from);
    ClosureIsLeast(g, from, Closure(g', from));
  }
}
