/** Bipartite graphs, matchings and vertex covers: the reference the search in
    `BipartiteMatching` is proved against. */
module BipartiteGraph {

  /** The connectivity matrix of elements (left) and matchers (right), stored flat in
      element-major order. */
  datatype MatchMatrix = MatchMatrix(numElements: nat, numMatchers: nat, matched: seq<bool>) {
    ghost predicate Valid() {
      |matched| == numElements * numMatchers
    }

    predicate IsElement(l: int) {
      0 <= l < numElements
    }

    predicate IsMatcher(r: int) {
      0 <= r < numMatchers
    }

    function SpaceIndex(l: nat, r: nat): (i: nat)
      requires IsElement(l) && IsMatcher(r)
      ensures i < numElements * numMatchers
    {
      assert (l + 1) * numMatchers <= numElements * numMatchers;
      l * numMatchers + r
    }

    predicate HasEdge(l: nat, r: nat)
      requires Valid() && IsElement(l) && IsMatcher(r)
    {
      matched[SpaceIndex(l, r)]
    }

    function SetEdge(l: nat, r: nat, b: bool): MatchMatrix
      requires Valid() && IsElement(l) && IsMatcher(r)
    {
      this.(matched := matched[SpaceIndex(l, r) := b])
    }
  }

  type Pair = (nat, nat)

  ghost predicate IsEdge(g: MatchMatrix, p: Pair)
    requires g.Valid()
  {
    g.IsElement(p.0) && g.IsMatcher(p.1) && g.HasEdge(p.0, p.1)
  }

  /** No element and no matcher occurs in two of the pairs. */
  ghost predicate NodesDistinct(m: set<Pair>) {
    forall p <- m, q <- m :: p.0 == q.0 || p.1 == q.1 ==> p == q
  }

  ghost predicate IsMatching(g: MatchMatrix, m: set<Pair>)
    requires g.Valid()
  {
    && (forall p <- m :: IsEdge(g, p))
    && NodesDistinct(m)
  }

  ghost predicate IsMaximumMatching(g: MatchMatrix, m: set<Pair>)
    requires g.Valid()
  {
    && IsMatching(g, m)
    && forall other :: IsMatching(g, other) ==> |other| <= |m|
  }

  /** Every pair touches one of the given elements or one of the given matchers. */
  ghost predicate Covers(m: set<Pair>, ls: set<nat>, rs: set<nat>) {
    forall p <- m :: p.0 in ls || p.1 in rs
  }

  /** Weak duality: a matching is no larger than a node set that covers it, because each
      of its pairs can be charged to a node of its own. */
  lemma {:induction false} MatchingWithinCover(m: set<Pair>, ls: set<nat>, rs: set<nat>)
    requires NodesDistinct(m) && Covers(m, ls, rs)
    ensures |m| <= |ls| + |rs|
    decreases |m|
  {
    if m != {} {
      var p :| p in m;
      var rest := m - {p};
      if p.0 in ls {
        assert |ls| == |ls - {p.0}| + 1;
        MatchingWithinCover(rest, ls - {p.0}, rs);
      } else {
        assert |rs| == |rs - {p.1}| + 1;
        MatchingWithinCover(rest, ls, rs - {p.1});
      }
    }
  }
}
