/** The connectivity matrix as its users see it: one row of booleans for each element. */
module BipartiteRows {
  import opened BipartiteGraph
  import opened BipartiteMatching

  type Rows = seq<seq<bool>>

  ghost predicate IsTable(rows: Rows, numMatchers: nat) {
    forall row <- rows :: |row| == numMatchers
  }

  /** The rows one after another. */
  function Flat(rows: Rows): seq<bool> {
    if rows == [] then [] else rows[0] + Flat(rows[1..])
  }

  function FromRows(rows: Rows, numMatchers: nat): MatchMatrix {
    MatchMatrix(|rows|, numMatchers, Flat(rows))
  }

  lemma OneMoreRow(n: nat, m: nat)
    ensures (n + 1) * m == m + n * m
  {
  }

  lemma CellInside(n: nat, m: nat, l: nat, r: nat)
    requires l < n && r < m
    ensures l * m + r < n * m
  {
    assert (l + 1) * m <= n * m;
  }

  lemma NextRowCell(rows: Rows, numMatchers: nat, i: nat)
    requires IsTable(rows, numMatchers) && rows != [] && i < |Flat(rows[1..])|
    ensures numMatchers + i < |Flat(rows)| && Flat(rows)[numMatchers + i] == Flat(rows[1..])[i]
  {
  }

  lemma {:induction false} FlatCells(rows: Rows, numMatchers: nat, l: nat, r: nat)
    requires IsTable(rows, numMatchers) && l < |rows| && r < numMatchers
    ensures l * numMatchers + r < |Flat(rows)| && Flat(rows)[l * numMatchers + r] == rows[l][r]
  {
    FlatSize(rows, numMatchers);
    CellInside(|rows|, numMatchers, l, r);
    if l > 0 {
      FlatCells(rows[1..], numMatchers, l - 1, r);
      OneMoreRow(l - 1, numMatchers);
      NextRowCell(rows, numMatchers, (l - 1) * numMatchers + r);
    }
  }

  lemma {:induction false} FlatSize(rows: Rows, numMatchers: nat)
    requires IsTable(rows, numMatchers)
    ensures |Flat(rows)| == |rows| * numMatchers
  {
    if rows != [] {
      FlatSize(rows[1..], numMatchers);
      OneMoreRow(|rows| - 1, numMatchers);
    }
  }

  /** The edges of the matrix are the true entries of the rows. */
  lemma EdgesAreEntries(rows: Rows, numMatchers: nat)
    requires IsTable(rows, numMatchers)
    ensures FromRows(rows, numMatchers).Valid()
    ensures forall l: nat, r: nat | l < |rows| && r < numMatchers ::
              FromRows(rows, numMatchers).HasEdge(l, r) <==> rows[l][r]
  {
    FlatSize(rows, numMatchers);
    forall l: nat, r: nat | l < |rows| && r < numMatchers
      ensures FromRows(rows, numMatchers).HasEdge(l, r) <==> rows[l][r]
    {
      FlatCells(rows, numMatchers, l, r);
    }
  }

  lemma CellsOrdered(m: nat, l: nat, r: nat, l': nat, r': nat)
    requires r < m && l < l'
    ensures l * m + r < l' * m + r'
  {
    assert (l + 1) * m <= l' * m;
  }

  lemma CellsApart(m: nat, l: nat, r: nat, l': nat, r': nat)
    requires r < m && r' < m && (l != l' || r != r')
    ensures l * m + r != l' * m + r'
  {
    if l < l' {
      CellsOrdered(m, l, r, l', r');
    } else if l' < l {
      CellsOrdered(m, l', r', l, r);
    }
  }

  /** Setting an edge changes exactly that edge. */
  lemma SetEdgeChangesOne(g: MatchMatrix, l: nat, r: nat, b: bool)
    requires g.Valid() && g.IsElement(l) && g.IsMatcher(r)
    ensures var g' := g.SetEdge(l, r, b);
            && g'.Valid() && g'.numElements == g.numElements && g'.numMatchers == g.numMatchers
            && forall l': nat, r': nat | g.IsElement(l') && g.IsMatcher(r') ::
                 g'.HasEdge(l', r') == if l' == l && r' == r then b else g.HasEdge(l', r')
  {
    forall l': nat, r': nat | g.IsElement(l') && g.IsMatcher(r')
      ensures g.SetEdge(l, r, b).HasEdge(l', r') == if l' == l && r' == r then b else g.HasEdge(l', r')
    {
      if l' != l || r' != r {
        CellsApart(g.numMatchers, l, r, l', r');
      }
    }
  }

  // ---- the results over rows ----

  /** Distinct elements for all matchers, each accepted by its matcher. */
  ghost predicate RowAssignment(rows: Rows, numMatchers: nat, owners: seq<nat>)
    requires IsTable(rows, numMatchers)
  {
    && |owners| == numMatchers
    && (forall r | 0 <= r < |owners| :: owners[r] < |rows| && rows[owners[r]][r])
    && (forall r, r' | 0 <= r < r' < |owners| :: owners[r] != owners[r'])
  }

  ghost predicate RowMatching(rows: Rows, numMatchers: nat, m: set<Pair>)
    requires IsTable(rows, numMatchers)
  {
    && (forall p <- m :: p.0 < |rows| && p.1 < numMatchers && rows[p.0][p.1])
    && NodesDistinct(m)
  }

  lemma MatchingsAreRowMatchings(rows: Rows, numMatchers: nat, m: set<Pair>)
    requires IsTable(rows, numMatchers)
    ensures FromRows(rows, numMatchers).Valid()
    ensures IsMatching(FromRows(rows, numMatchers), m) <==> RowMatching(rows, numMatchers, m)
  {
    EdgesAreEntries(rows, numMatchers);
    var g := FromRows(rows, numMatchers);
    forall p | p in m
      ensures IsEdge(g, p) <==> p.0 < |rows| && p.1 < numMatchers && rows[p.0][p.1]
    {
    }
  }

  /** The pairs found for a table of rows are a largest set of true entries no two of which
      share a row or a column. */
  method FindMaxRowMatching(rows: Rows, numMatchers: nat) returns (result: seq<Pair>)
    requires IsTable(rows, numMatchers)
    ensures RowMatching(rows, numMatchers, PairSet(result)) && |PairSet(result)| == |result|
    ensures forall other | RowMatching(rows, numMatchers, other) :: |other| <= |result|
  {
    EdgesAreEntries(rows, numMatchers);
    result := FindMaxBipartiteMatching(FromRows(rows, numMatchers));
    MatchingsAreRowMatchings(rows, numMatchers, PairSet(result));
    forall other | RowMatching(rows, numMatchers, other)
      ensures |other| <= |result|
    {
      MatchingsAreRowMatchings(rows, numMatchers, other);
    }
  }

  /** All matchers can be assigned distinct elements exactly when the table has an assignment. */
  method FindRowPairing(rows: Rows, numMatchers: nat) returns (result: bool)
    requires IsTable(rows, numMatchers)
    ensures result <==> exists owners :: RowAssignment(rows, numMatchers, owners)
  {
    EdgesAreEntries(rows, numMatchers);
    var g := FromRows(rows, numMatchers);
    result := FindPairing(g);
    forall owners: seq<nat>
      ensures IsAssignment(g, owners) <==> RowAssignment(rows, numMatchers, owners)
    {
    }
  }
}
