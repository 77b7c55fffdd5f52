/** Maximum bipartite matching by augmenting paths, one search per element. */
module BipartiteMatching {
  import opened BipartiteGraph

  /** Marks an element or a matcher that is not matched. */
  const UNUSED := -1

  /** The two arrays hold nodes of the graph or `UNUSED`. */
  ghost predicate InRange(g: MatchMatrix, left: seq<int>, right: seq<int>) {
    && g.Valid()
    && |left| == g.numElements
    && |right| == g.numMatchers
    && (forall l | 0 <= l < |left| :: left[l] == UNUSED || g.IsMatcher(left[l]))
    && (forall r | 0 <= r < |right| :: right[r] == UNUSED || g.IsElement(right[r]))
  }

  /** Entries are unused or mutually referent, and only edges of the graph are used. */
  ghost predicate Consistent(g: MatchMatrix, left: seq<int>, right: seq<int>) {
    && InRange(g, left, right)
    && (forall l | 0 <= l < |left| && left[l] != UNUSED :: g.HasEdge(l, left[l]) && right[left[l]] == l)
    && (forall r | 0 <= r < |right| && right[r] != UNUSED :: left[right[r]] == r)
  }

  /** `path` lists the matchers of an alternating path from element `l` to an unmatched
      matcher: unmatched edges lead to matchers, matched edges back to elements. */
  ghost predicate IsAugmentingPath(g: MatchMatrix, right: seq<int>, l: nat, path: seq<nat>)
    requires g.Valid() && |right| == g.numMatchers && g.IsElement(l)
    decreases path
  {
    && path != []
    && g.IsMatcher(path[0])
    && g.HasEdge(l, path[0])
    && path[0] !in path[1..]
    && if right[path[0]] == UNUSED then path == [path[0]]
       else g.IsElement(right[path[0]]) && IsAugmentingPath(g, right, right[path[0]], path[1..])
  }

  /** The two arrays after pushing one unit of flow along an augmenting path. */
  ghost function Augmented(
    g: MatchMatrix, left: seq<int>, right: seq<int>, l: nat, path: seq<nat>): (res: (seq<int>, seq<int>))
    requires InRange(g, left, right) && g.IsElement(l) && IsAugmentingPath(g, right, l, path)
    ensures |res.0| == |left| && |res.1| == |right|
    decreases path
  {
    var r := path[0];
    if right[r] == UNUSED then
      (left[l := r], right[r := l])
    else
      var (left', right') := Augmented(g, left, right, right[r], path[1..]);
      (left'[l := r], right'[r := l])
  }

  /** What an augmentation leaves alone: elements whose matcher is off the path, and
      matchers off the path. */
  lemma {:induction false} AugmentedFrame(g: MatchMatrix, left: seq<int>, right: seq<int>, l: nat, path: seq<nat>)
    requires Consistent(g, left, right) && g.IsElement(l) && IsAugmentingPath(g, right, l, path)
    ensures var (left', right') := Augmented(g, left, right, l, path);
            && (forall l' | 0 <= l' < |left| && l' != l && (left[l'] == UNUSED || left[l'] !in path) ::
                  left'[l'] == left[l'])
            && (forall r | 0 <= r < |right| && r !in path :: right'[r] == right[r])
    decreases path
  {
    if right[path[0]] != UNUSED {
      AugmentedFrame(g, left, right, right[path[0]], path[1..]);
    }
  }

  /** An augmentation matches `l` and keeps every matched element matched. The arrays
      stay mutually referent except at the matcher `l` had before, which still refers to
      `l`: the caller one level up overwrites that entry. */
  lemma {:induction false} AugmentedAlmostConsistent(
    g: MatchMatrix, left: seq<int>, right: seq<int>, l: nat, path: seq<nat>)
    requires Consistent(g, left, right) && g.IsElement(l) && IsAugmentingPath(g, right, l, path)
    requires left[l] == UNUSED || left[l] !in path
    ensures var (left', right') := Augmented(g, left, right, l, path);
            && InRange(g, left', right')
            && (forall l' | 0 <= l' < |left| && left'[l'] != UNUSED ::
                  g.HasEdge(l', left'[l']) && right'[left'[l']] == l')
            && (forall r | 0 <= r < |right| && right'[r] != UNUSED && r != left[l] :: left'[right'[r]] == r)
            && (forall l' | 0 <= l' < |left| :: left'[l'] == UNUSED <==> left[l'] == UNUSED && l' != l)
    decreases path
  {
    if right[path[0]] != UNUSED {
      AugmentedAlmostConsistent(g, left, right, right[path[0]], path[1..]);
      AugmentedFrame(g, left, right, right[path[0]], path[1..]);
    }
  }

  /** Augmenting from an unmatched element yields mutually referent arrays in which
      exactly that element is newly matched. */
  lemma AugmentedConsistent(g: MatchMatrix, left: seq<int>, right: seq<int>, l: nat, path: seq<nat>)
    requires Consistent(g, left, right) && g.IsElement(l) && IsAugmentingPath(g, right, l, path)
    requires left[l] == UNUSED
    ensures var (left', right') := Augmented(g, left, right, l, path);
            && Consistent(g, left', right')
            && (forall l' | 0 <= l' < |left| :: left'[l'] == UNUSED <==> left[l'] == UNUSED && l' != l)
  {
    AugmentedAlmostConsistent(g, left, right, l, path);
  }

  /** The marks while element `l` is searched: its matchers below `upTo` are marked, and
      every newly marked matcher is matched, to an element whose matchers are all marked. */
  ghost predicate SearchedUpTo(g: MatchMatrix, right: seq<int>, l: nat, upTo: nat, before: seq<bool>, after: seq<bool>)
    requires g.Valid() && |right| == |before| == |after| == g.numMatchers && g.IsElement(l)
  {
    && (forall r | 0 <= r < |after| && before[r] :: after[r])
    && (forall r: nat | r < upTo && r < |after| && g.HasEdge(l, r) :: after[r])
    && forall r: nat | r < |after| && after[r] && !before[r] :: IsDeadEnd(g, right, r, after)
  }

  ghost predicate IsDeadEnd(g: MatchMatrix, right: seq<int>, r: nat, marks: seq<bool>)
    requires g.Valid() && |right| == |marks| == g.numMatchers && r < |right|
  {
    && g.IsElement(right[r])
    && forall r': nat | r' < |marks| && g.HasEdge(right[r], r') :: marks[r']
  }

  /** The marks a failed search leaves. */
  ghost predicate Exhausted(g: MatchMatrix, right: seq<int>, l: nat, before: seq<bool>, after: seq<bool>)
    requires g.Valid() && |right| == |before| == |after| == g.numMatchers && g.IsElement(l)
  {
    SearchedUpTo(g, right, l, g.numMatchers, before, after)
  }

  /** A matcher whose own search fails is a dead end, so the search moves past it. */
  lemma SearchedPast(g: MatchMatrix, right: seq<int>, l: nat, r: nat, s0: seq<bool>, s1: seq<bool>, s2: seq<bool>)
    requires g.Valid() && |right| == |s0| == |s1| == |s2| == g.numMatchers && g.IsElement(l) && g.IsMatcher(r)
    requires SearchedUpTo(g, right, l, r, s0, s1)
    requires g.IsElement(right[r]) && Exhausted(g, right, right[r], s1[r := true], s2)
    ensures SearchedUpTo(g, right, l, r + 1, s0, s2)
  {
    var s1' := s1[r := true];
    forall k: nat | k < |s2| && s2[k] && !s0[k]
      ensures IsDeadEnd(g, right, k, s2)
    {
      if k != r && s1[k] {
        assert IsDeadEnd(g, right, k, s1);
        forall k': nat | k' < |s2| && g.HasEdge(right[k], k') ensures s2[k'] {
          assert s1'[k'];
        }
      }
    }
    forall k: nat | k < r + 1 && g.HasEdge(l, k) ensures s2[k] {
      assert s1'[k];
    }
  }

  /** A region no augmenting path leaves: its elements only reach its matchers, which are
      all matched to its elements. */
  ghost predicate IsDead(g: MatchMatrix, right: seq<int>, ls: set<nat>, rs: set<nat>)
    requires g.Valid() && |right| == g.numMatchers
  {
    && (forall l <- ls :: g.IsElement(l) && forall r: nat | g.IsMatcher(r) && g.HasEdge(l, r) :: r in rs)
    && (forall r <- rs :: g.IsMatcher(r) && right[r] in ls)
  }

  lemma {:induction false} NoPathFromDead(
    g: MatchMatrix, left: seq<int>, right: seq<int>, ls: set<nat>, rs: set<nat>, l: nat, path: seq<nat>)
    requires InRange(g, left, right) && IsDead(g, right, ls, rs) && l in ls
    ensures !IsAugmentingPath(g, right, l, path)
    decreases path
  {
    if path != [] && g.IsMatcher(path[0]) && g.HasEdge(l, path[0]) {
      NoPathFromDead(g, left, right, ls, rs, right[path[0]], path[1..]);
    }
  }

  /** An augmenting path never meets a dead matcher. */
  lemma {:induction false} PathAvoidsDead(
    g: MatchMatrix, left: seq<int>, right: seq<int>, ls: set<nat>, rs: set<nat>, l: nat, path: seq<nat>)
    requires InRange(g, left, right) && IsDead(g, right, ls, rs) && g.IsElement(l)
    requires IsAugmentingPath(g, right, l, path)
    ensures forall r <- rs :: r !in path
    decreases path
  {
    if path[0] in rs {
      NoPathFromDead(g, left, right, ls, rs, right[path[0]], path[1..]);
      assert false;
    } else if right[path[0]] != UNUSED {
      PathAvoidsDead(g, left, right, ls, rs, right[path[0]], path[1..]);
    }
  }

  /** Hence a dead region stays dead through every later augmentation. */
  lemma DeadStaysDead(
    g: MatchMatrix, left: seq<int>, right: seq<int>, ls: set<nat>, rs: set<nat>, l: nat, path: seq<nat>)
    requires Consistent(g, left, right) && IsDead(g, right, ls, rs) && g.IsElement(l)
    requires IsAugmentingPath(g, right, l, path)
    ensures IsDead(g, Augmented(g, left, right, l, path).1, ls, rs)
  {
    PathAvoidsDead(g, left, right, ls, rs, l, path);
    AugmentedFrame(g, left, right, l, path);
  }

  ghost function Marked(seen: seq<bool>): (res: set<nat>)
    ensures forall r: nat :: r in res <==> r < |seen| && seen[r]
  {
    set r | 0 <= r < |seen| && seen[r]
  }

  ghost function Partners(right: seq<int>, rs: set<nat>): (res: set<nat>) {
    set r | r in rs && r < |right| && right[r] >= 0 :: right[r]
  }

  /** A search that starts with no marks and fails has marked out a dead region. */
  lemma FailedSearchIsDead(g: MatchMatrix, right: seq<int>, l: nat, before: seq<bool>, after: seq<bool>)
    requires g.Valid() && |right| == |before| == |after| == g.numMatchers && g.IsElement(l)
    requires forall r | 0 <= r < |before| :: !before[r]
    requires Exhausted(g, right, l, before, after)
    ensures IsDead(g, right, {l} + Partners(right, Marked(after)), Marked(after))
  {
  }

  /** Koenig duality, the counting half: when every element outside a dead region is
      matched, the elements outside it and the matchers in it cover the graph with as many
      nodes as there are matched elements. */
  lemma DeadRegionCover(g: MatchMatrix, left: seq<int>, right: seq<int>, ls: set<nat>, rs: set<nat>)
    requires Consistent(g, left, right) && IsDead(g, right, ls, rs)
    requires forall l | 0 <= l < |left| && left[l] == UNUSED :: l in ls
    ensures |Elements(g) - ls| + |rs| == |MatchedElements(left)|
  {
    PartnersCount(g, left, right, rs);
    MatchedInsideOrOutside(g, left, right, ls, rs);
  }

  lemma MatchedInsideOrOutside(g: MatchMatrix, left: seq<int>, right: seq<int>, ls: set<nat>, rs: set<nat>)
    requires Consistent(g, left, right) && IsDead(g, right, ls, rs)
    requires forall l | 0 <= l < |left| && left[l] == UNUSED :: l in ls
    ensures (Elements(g) - ls) !! Partners(right, rs)
    ensures MatchedElements(left) == (Elements(g) - ls) + Partners(right, rs)
  {
    forall l | l in MatchedElements(left)
      ensures l in (Elements(g) - ls) + Partners(right, rs)
    {
      assert g.HasEdge(l, left[l]) && right[left[l]] == l;
    }
    forall l | l in Partners(right, rs)
      ensures l in MatchedElements(left) && l in ls
    {
      var r :| r in rs && right[r] == l;
      assert left[right[r]] == r;
    }
  }

  ghost function Elements(g: MatchMatrix): set<nat> {
    Range(g.numElements)
  }

  ghost function MatchedElements(left: seq<int>): set<nat> {
    set l | 0 <= l < |left| && left[l] != UNUSED
  }

  /** Matched matchers have as many partners as there are of them. */
  lemma {:induction false} PartnersCount(g: MatchMatrix, left: seq<int>, right: seq<int>, rs: set<nat>)
    requires Consistent(g, left, right)
    requires forall r <- rs :: g.IsMatcher(r) && right[r] >= 0
    ensures |Partners(right, rs)| == |rs|
    decreases |rs|
  {
    if rs != {} {
      var r :| r in rs;
      PartnersCount(g, left, right, rs - {r});
      assert left[right[r]] == r;
      assert right[r] !in Partners(right, rs - {r});
      assert Partners(right, rs) == Partners(right, rs - {r}) + {right[r]};
    }
  }

  ghost function PairSet(pairs: seq<Pair>): set<Pair> {
    set p | p in pairs
  }

  lemma MarkedBound(seen: seq<bool>)
    ensures |Marked(seen)| <= |seen|
  {
    SubsetOfRange(Marked(seen), |seen|);
  }

  lemma {:induction false} SubsetOfRange(s: set<nat>, n: nat)
    requires forall x <- s :: x < n
    ensures |s| <= n
  {
    if n == 0 {
      assert s == {};
    } else {
      SubsetOfRange(s - {n - 1}, n - 1);
      assert s <= (s - {n - 1}) + {n - 1};
    }
  }

  /** Marking one more matcher makes the search space strictly smaller. */
  lemma MarkedGrows(s0: seq<bool>, s1: seq<bool>, s2: seq<bool>, r: nat)
    requires |s0| == |s1| == |s2| && r < |s0| && !s0[r] && s2[r]
    requires forall k | 0 <= k < |s0| && s0[k] :: s1[k]
    requires forall k | 0 <= k < |s0| && s1[k] :: s2[k]
    ensures |Marked(s0)| < |Marked(s2)| <= |s0|
  {
    MarkedBound(s2);
    SubsetSmaller(Marked(s0), Marked(s2), r);
  }

  lemma SubsetSmaller(a: set<nat>, b: set<nat>, x: nat)
    requires a <= b && x in b && x !in a
    ensures |a| < |b|
  {
    SubsetLeq(a, b - {x});
  }

  lemma {:induction false} SubsetLeq(a: set<nat>, b: set<nat>)
    requires a <= b
    ensures |a| <= |b|
    decreases |a|
  {
    if a != {} {
      var x :| x in a;
      SubsetLeq(a - {x}, b - {x});
    }
  }

  /** The edges of the flow, in element order. */
  function Pairs(left: seq<int>): (pairs: seq<Pair>)
    requires forall l | 0 <= l < |left| :: left[l] >= UNUSED
  {
    if left == [] then []
    else
      var l := |left| - 1;
      Pairs(left[..l]) + if left[l] == UNUSED then [] else [(l, left[l])]
  }

  lemma {:induction false} PairsElements(left: seq<int>)
    requires forall l | 0 <= l < |left| :: left[l] >= UNUSED
    ensures forall p: Pair :: p in Pairs(left) <==> p.0 < |left| && left[p.0] == p.1
  {
    if left != [] {
      PairsElements(left[..|left| - 1]);
    }
  }

  lemma PairSetAppend(pairs: seq<Pair>, p: Pair)
    requires p !in pairs
    ensures |PairSet(pairs + [p])| == |PairSet(pairs)| + 1
  {
    assert PairSet(pairs + [p]) == PairSet(pairs) + {p};
  }

  lemma MatchedElementsAppend(left: seq<int>, r: int)
    ensures |MatchedElements(left + [r])| == |MatchedElements(left)| + if r == UNUSED then 0 else 1
  {
    if r == UNUSED {
      assert MatchedElements(left + [r]) == MatchedElements(left);
    } else {
      assert MatchedElements(left + [r]) == MatchedElements(left) + {|left|};
    }
  }

  lemma {:induction false} PairsCount(left: seq<int>)
    requires forall l | 0 <= l < |left| :: left[l] >= UNUSED
    ensures |Pairs(left)| == |PairSet(Pairs(left))| == |MatchedElements(left)|
  {
    if left != [] {
      var l := |left| - 1;
      var front, last := left[..l], left[l];
      PairsCount(front);
      MatchedElementsAppend(front, last);
      assert left == front + [last];
      if last == UNUSED {
        assert Pairs(left) == Pairs(front);
      } else {
        assert (l, last) !in Pairs(front) by {
          PairsElements(front);
        }
        PairSetAppend(Pairs(front), (l, last));
      }
    }
  }

  lemma DeadUnion(g: MatchMatrix, right: seq<int>, ls: set<nat>, rs: set<nat>, ls': set<nat>, rs': set<nat>)
    requires g.Valid() && |right| == g.numMatchers
    requires IsDead(g, right, ls, rs) && IsDead(g, right, ls', rs')
    ensures IsDead(g, right, ls + ls', rs + rs')
  {
  }

  /** A failed search enlarges the dead region found so far. */
  lemma FailedSearchExtends(
    g: MatchMatrix, right: seq<int>, l: nat, before: seq<bool>, after: seq<bool>, ls: set<nat>, rs: set<nat>)
    requires g.Valid() && |right| == |before| == |after| == g.numMatchers && g.IsElement(l)
    requires forall r | 0 <= r < |before| :: !before[r]
    requires Exhausted(g, right, l, before, after) && IsDead(g, right, ls, rs)
    ensures IsDead(g, right, ls + ({l} + Partners(right, Marked(after))), rs + Marked(after))
  {
    FailedSearchIsDead(g, right, l, before, after);
    DeadUnion(g, right, ls, rs, {l} + Partners(right, Marked(after)), Marked(after));
  }

  /** The stopping argument: flow that leaves only dead elements unmatched is a maximum
      matching, whatever the graph. */
  lemma PairsMaximum(g: MatchMatrix, left: seq<int>, right: seq<int>, ls: set<nat>, rs: set<nat>)
    requires Consistent(g, left, right) && IsDead(g, right, ls, rs)
    requires forall l | 0 <= l < |left| && left[l] == UNUSED :: l in ls
    ensures IsMaximumMatching(g, PairSet(Pairs(left)))
    ensures |PairSet(Pairs(left))| == |Pairs(left)|
  {
    PairsElements(left);
    PairsCount(left);
    DeadRegionCover(g, left, right, ls, rs);
    forall other: set<Pair> | IsMatching(g, other)
      ensures |other| <= |PairSet(Pairs(left))|
    {
      assert Covers(other, Elements(g) - ls, rs) by {
        forall p | p in other ensures p.0 in Elements(g) - ls || p.1 in rs {
          assert IsEdge(g, p);
        }
      }
      MatchingWithinCover(other, Elements(g) - ls, rs);
    }
  }

  /** Berge's criterion for one search: when a search that starts with no marks fails,
      there is no augmenting path at all. */
  lemma ExhaustedHasNoPath(g: MatchMatrix, left: seq<int>, right: seq<int>, l: nat, before: seq<bool>, after: seq<bool>)
    requires InRange(g, left, right) && |before| == |after| == g.numMatchers && g.IsElement(l)
    requires forall r | 0 <= r < |before| :: !before[r]
    requires Exhausted(g, right, l, before, after)
    ensures forall path :: !IsAugmentingPath(g, right, l, path)
  {
    FailedSearchIsDead(g, right, l, before, after);
    forall path ensures !IsAugmentingPath(g, right, l, path) {
      NoPathFromDead(g, left, right, {l} + Partners(right, Marked(after)), Marked(after), l, path);
    }
  }

  ghost function Range(n: nat): (res: set<nat>)
    ensures |res| == n
    ensures forall x: nat :: x in res <==> x < n
  {
    if n == 0 then {} else Range(n - 1) + {n - 1}
  }

  ghost function MatchersOf(m: set<Pair>): set<nat> {
    set p <- m :: p.1
  }

  lemma {:induction false} MatchersOfSize(m: set<Pair>)
    requires NodesDistinct(m)
    ensures |MatchersOf(m)| == |m|
    decreases |m|
  {
    if m != {} {
      var p :| p in m;
      MatchersOfSize(m - {p});
      assert MatchersOf(m) == MatchersOf(m - {p}) + {p.1};
    }
  }

  lemma SameSizeSubset(a: set<nat>, b: set<nat>)
    requires a <= b && |a| == |b|
    ensures a == b
  {
    if x :| x in b && x !in a {
      SubsetSmaller(a, b, x);
    }
  }

  /** A matching with as many edges as matchers assigns each matcher an element. */
  lemma FullMatchingAssigns(g: MatchMatrix, m: set<Pair>)
    requires g.Valid() && IsMatching(g, m) && |m| == g.numMatchers
    ensures exists owners :: IsAssignment(g, owners)
  {
    MatchersOfSize(m);
    forall r | r in MatchersOf(m) ensures r in Range(g.numMatchers) {
      var p :| p in m && p.1 == r;
      assert IsEdge(g, p);
    }
    SameSizeSubset(MatchersOf(m), Range(g.numMatchers));
    var partner := map r | r in MatchersOf(m) :: PartnerIn(m, r);
    var owners := seq(g.numMatchers, r requires r in partner => partner[r]);
    assert IsAssignment(g, owners) by {
      forall r | 0 <= r < |owners|
        ensures (owners[r], r) in m && IsEdge(g, (owners[r], r))
      {
        assert owners[r] == PartnerIn(m, r);
      }
    }
  }

  ghost function PartnerIn(m: set<Pair>, r: nat): (l: nat)
    requires r in MatchersOf(m)
    ensures (l, r) in m
  {
    var p :| p in m && p.1 == r;
    p.0
  }

  ghost function AssignmentPairs(owners: seq<nat>): set<Pair> {
    set r | 0 <= r < |owners| :: (owners[r], r)
  }

  lemma {:induction false} AssignmentPairsSize(owners: seq<nat>)
    ensures |AssignmentPairs(owners)| == |owners|
  {
    if owners != [] {
      var last := |owners| - 1;
      AssignmentPairsSize(owners[..last]);
      assert AssignmentPairs(owners) == AssignmentPairs(owners[..last]) + {(owners[last], last)};
    }
  }

  /** A maximum matching has an edge at every matcher exactly when the matchers can all be
      given elements of their own. */
  lemma PairingIffAssignment(g: MatchMatrix, m: set<Pair>)
    requires g.Valid() && IsMaximumMatching(g, m)
    ensures |m| == g.numMatchers <==> exists owners :: IsAssignment(g, owners)
  {
    if |m| == g.numMatchers {
      FullMatchingAssigns(g, m);
    }
    forall owners | IsAssignment(g, owners)
      ensures |m| == g.numMatchers
    {
      AssignmentPairsSize(owners);
      assert IsMatching(g, AssignmentPairs(owners));
      assert Covers(m, {}, Range(g.numMatchers)) by {
        assert forall p <- m :: IsEdge(g, p);
      }
      MatchingWithinCover(m, {}, Range(g.numMatchers));
    }
  }

  class MaxBipartiteMatchState {
    const graph: MatchMatrix
    const left: array<int>
    const right: array<int>

    ghost predicate Shape() {
      graph.Valid() && left.Length == graph.numElements && right.Length == graph.numMatchers && left != right
    }

    constructor (g: MatchMatrix)
      requires g.Valid()
      ensures graph == g && Shape() && fresh(left) && fresh(right)
      ensures Consistent(g, left[..], right[..])
      ensures forall l | 0 <= l < left.Length :: left[l] == UNUSED
      ensures forall r | 0 <= r < right.Length :: right[r] == UNUSED
    {
      graph := g;
      left := new int[g.numElements](_ => UNUSED);
      right := new int[g.numMatchers](_ => UNUSED);
    }

    /** Depth-first search for an augmenting path from `ilhs` through unmarked matchers.
        Either the flow is pushed along the path found, or nothing but marks changes and
        the marks show that there is no such path. */
    method TryAugment(ilhs: nat, seen: array<bool>) returns (found: bool, ghost path: seq<nat>)
      requires Shape() && graph.IsElement(ilhs) && seen.Length == graph.numMatchers
      requires Consistent(graph, left[..], right[..])
      requires left[ilhs] == UNUSED || seen[left[ilhs]]
      modifies left, right, seen
      ensures forall r | 0 <= r < seen.Length && old(seen[r]) :: seen[r]
      ensures found ==> IsAugmentingPath(graph, old(right[..]), ilhs, path)
      ensures found ==> forall r <- path :: r < seen.Length && !old(seen[..])[r]
      ensures found ==> (left[..], right[..]) == Augmented(graph, old(left[..]), old(right[..]), ilhs, path)
      ensures !found ==> left[..] == old(left[..]) && right[..] == old(right[..])
      ensures !found ==> Exhausted(graph, right[..], ilhs, old(seen[..]), seen[..])
      ensures !found && (forall r | 0 <= r < seen.Length :: !old(seen[r])) ==>
                forall p :: !IsAugmentingPath(graph, old(right[..]), ilhs, p)
      decreases graph.numMatchers - |Marked(seen[..])|
    {
      ghost var l0, r0, s0 := left[..], right[..], seen[..];
      path := [];
      for irhs := 0 to graph.numMatchers
        invariant left[..] == l0 && right[..] == r0
        invariant SearchedUpTo(graph, r0, ilhs, irhs, s0, seen[..])
      {
        if seen[irhs] {
          continue;
        }
        if !graph.HasEdge(ilhs, irhs) {
          continue;
        }
        ghost var s1 := seen[..];
        seen[irhs] := true;
        assert seen[..] == s1[irhs := true];
        if right[irhs] == UNUSED {
          path := [irhs];
          found := true;
        } else {
          MarkedGrows(s0, s1, seen[..], irhs);
          ghost var rest;
          found, rest := TryAugment(right[irhs], seen);
          path := [irhs] + rest;
        }
        if found {
          left[ilhs] := irhs;
          right[irhs] := ilhs;
          return;
        }
        SearchedPast(graph, r0, ilhs, irhs, s0, s1, seen[..]);
      }
      if forall r | 0 <= r < |s0| :: !s0[r] {
        ExhaustedHasNoPath(graph, l0, r0, ilhs, s0, seen[..]);
      }
      return false, [];
    }

    /** Lists the edges of the flow. */
    method CollectPairs() returns (result: seq<Pair>)
      requires Shape() && Consistent(graph, left[..], right[..])
      ensures result == Pairs(left[..])
    {
      result := [];
      for ilhs := 0 to left.Length
        invariant result == Pairs(left[..ilhs])
      {
        assert left[..ilhs + 1] == left[..ilhs] + [left[ilhs]];
        if left[ilhs] != UNUSED {
          result := result + [(ilhs, left[ilhs])];
        }
      }
      assert left[..left.Length] == left[..];
    }

    /** Searches once from every element. `deadElements` and `deadMatchers` collect what
        the failed searches marked; no later augmentation touches them. */
    method Compute() returns (result: seq<Pair>)
      requires Shape() && Consistent(graph, left[..], right[..])
      requires forall l | 0 <= l < left.Length :: left[l] == UNUSED
      requires forall r | 0 <= r < right.Length :: right[r] == UNUSED
      modifies left, right
      ensures Consistent(graph, left[..], right[..])
      ensures result == Pairs(left[..])
      ensures IsMaximumMatching(graph, PairSet(result)) && |PairSet(result)| == |result|
    {
      ghost var deadElements: set<nat>, deadMatchers: set<nat> := {}, {};
      for ilhs := 0 to graph.numElements
        invariant Consistent(graph, left[..], right[..])
        invariant forall l | ilhs <= l < left.Length :: left[l] == UNUSED
        invariant forall l | 0 <= l < ilhs && left[l] == UNUSED :: l in deadElements
        invariant IsDead(graph, right[..], deadElements, deadMatchers)
      {
        assert left[ilhs] == UNUSED;
        var seen := new bool[graph.numMatchers](_ => false);
        ghost var l0, r0, s0 := left[..], right[..], seen[..];
        var found, path := TryAugment(ilhs, seen);
        if found {
          AugmentedConsistent(graph, l0, r0, ilhs, path);
          DeadStaysDead(graph, l0, r0, deadElements, deadMatchers, ilhs, path);
        } else {
          FailedSearchExtends(graph, r0, ilhs, s0, seen[..], deadElements, deadMatchers);
          deadElements := deadElements + ({ilhs} + Partners(r0, Marked(seen[..])));
          deadMatchers := deadMatchers + Marked(seen[..]);
        }
      }
      result := CollectPairs();
      PairsMaximum(graph, left[..], right[..], deadElements, deadMatchers);
    }
  }

  method FindMaxBipartiteMatching(g: MatchMatrix) returns (result: seq<Pair>)
    requires g.Valid()
    ensures IsMaximumMatching(g, PairSet(result)) && |PairSet(result)| == |result|
  {
    var state := new MaxBipartiteMatchState(g);
    result := state.Compute();
  }

  /** An assignment of distinct elements to all matchers, matcher by matcher. */
  ghost predicate IsAssignment(g: MatchMatrix, owners: seq<nat>)
    requires g.Valid()
  {
    && |owners| == g.numMatchers
    && (forall r | 0 <= r < |owners| :: g.IsElement(owners[r]) && g.HasEdge(owners[r], r))
    && (forall r, r' | 0 <= r < r' < |owners| :: owners[r] != owners[r'])
  }

  method FindPairing(g: MatchMatrix) returns (result: bool)
    requires g.Valid()
    ensures result <==> exists owners :: IsAssignment(g, owners)
  {
    var matches := FindMaxBipartiteMatching(g);
    result := |matches| == g.numMatchers;
    PairingIffAssignment(g, PairSet(matches));
  }
}
