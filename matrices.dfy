/**
 * The matrix builders of package graph: an edge-by-node incidence table and a
 * node-by-node adjacency table, both dense over the set of edge end points.
 *
 * The builders are loops that fill Go maps; Go visits the keys of a map in an
 * unspecified order, which is modelled by choosing the next key with `:|`, so
 * every property below holds for every visiting order.
 */
module Matrices {
  import opened Model
  import opened SeqFacts

  type IncidenceTable = map<Edge, map<Node, int>>
  type AdjacencyTable = map<Node, map<Node, int>>

  /** The node set both builders work over: every `from` and `to` of an edge.
      Entries of the graph's own node list that no edge touches are not in it. */
  function EndPoints(edges: seq<Edge>): set<Node> {
    (set e | e in edges :: e.from) + (set e | e in edges :: e.to)
  }

  predicate IsEndPoint(e: Edge, n: Node) {
    n == e.from || n == e.to
  }

  /** `a` and `b` are joined by `e`, in either direction. */
  predicate Joins(e: Edge, a: Node, b: Node) {
    (e.from == a && e.to == b) || (e.from == b && e.to == a)
  }

  predicate Adjacent(edges: seq<Edge>, a: Node, b: Node) {
    exists e :: e in edges && Joins(e, a, b)
  }

  /** `s` lists exactly the nodes adjacent to `a`. */
  ghost predicate ListsNeighbours(edges: seq<Edge>, a: Node, s: seq<Node>) {
    forall b {:trigger Adjacent(edges, a, b)} :: b in s <==> Adjacent(edges, a, b)
  }

  // ---------------------------------------------------------------------------
  // Reference tables
  // ---------------------------------------------------------------------------

  function IncidenceRow(e: Edge, nodes: set<Node>): map<Node, int> {
    map n | n in nodes :: if IsEndPoint(e, n) then 1 else 0
  }

  /** The table IncidenceMatrix builds: one row per distinct edge value, one
      column per end point, 1 where the node is an end of the edge. */
  function IncidenceOf(edges: seq<Edge>): IncidenceTable {
    map e | e in edges :: IncidenceRow(e, EndPoints(edges))
  }

  function AdjacencyRow(edges: seq<Edge>, a: Node, nodes: set<Node>): map<Node, int> {
    map b | b in nodes :: if Adjacent(edges, a, b) then 1 else 0
  }

  /** The table AdjacencyMatrix builds: square over the end points, 1 where
      some edge joins the two nodes in either direction. */
  function AdjacencyOf(edges: seq<Edge>): AdjacencyTable {
    map a | a in EndPoints(edges) :: AdjacencyRow(edges, a, EndPoints(edges))
  }

  // ---------------------------------------------------------------------------
  // The builders, as the source writes them
  // ---------------------------------------------------------------------------

  /** Collects the end points of `edges` into a set (the `nodes` set both
      builders start from). */
  method CollectEndPoints(edges: seq<Edge>) returns (nodes: set<Node>)
    ensures nodes == EndPoints(edges)
  {
    nodes := {};
    for i := 0 to |edges|
      invariant forall n :: n in nodes <==> exists k :: 0 <= k < i && IsEndPoint(edges[k], n)
    {
      nodes := nodes + {edges[i].from};
      nodes := nodes + {edges[i].to};
    }
    forall n | n in EndPoints(edges) ensures n in nodes {
      var e :| e in edges && IsEndPoint(e, n);
      var k :| 0 <= k < |edges| && edges[k] == e;
    }
  }

  /** One incidence row: every node of `nodes` gets an entry, 1 when it is an
      end of `e` (`from` and `to` are compared one after the other, so a
      self-loop gets a single 1). */
  method IncidenceRowOf(e: Edge, nodes: set<Node>) returns (mNodes: map<Node, int>)
    ensures mNodes == IncidenceRow(e, nodes)
  {
    mNodes := map[];
    var rest := nodes;
    while rest != {}
      invariant rest <= nodes
      invariant mNodes.Keys == nodes - rest
      invariant forall n :: n in mNodes ==> mNodes[n] == if IsEndPoint(e, n) then 1 else 0
      decreases |rest|
    {
      var n :| n in rest;
      mNodes := mNodes[n := 0];
      if e.from == n {
        mNodes := mNodes[n := 1];
      }
      if e.to == n {
        mNodes := mNodes[n := 1];
      }
      rest := rest - {n};
    }
  }

  method IncidenceMatrix(graph: Graph) returns (edges: IncidenceTable)
    ensures edges == IncidenceOf(graph.edges)
  {
    var nodes := CollectEndPoints(graph.edges);
    edges := map[];
    for i := 0 to |graph.edges|
      invariant forall e :: e in edges <==> e in graph.edges[..i]
      invariant forall e :: e in edges ==> edges[e] == IncidenceRow(e, nodes)
    {
      var mNodes := IncidenceRowOf(graph.edges[i], nodes);
      edges := edges[graph.edges[i] := mNodes];
    }
    assert graph.edges[..|graph.edges|] == graph.edges;
  }

  /** The adjacency lists the source builds first: every end point starts with
      an empty list, then each edge appends `to` to the list of `from` and
      `from` to the list of `to`, whatever its `isDirected` flag says. */
  method NeighbourLists(edges: seq<Edge>) returns (nodes: map<Node, seq<Node>>)
    ensures nodes.Keys == EndPoints(edges)
    ensures forall a :: a in nodes ==> ListsNeighbours(edges, a, nodes[a])
  {
    nodes := map[];
    for i := 0 to |edges|
      invariant nodes.Keys == EndPoints(edges[..i])
      invariant forall a :: a in nodes ==> nodes[a] == []
    {
      assert edges[..i + 1] == edges[..i] + [edges[i]];
      nodes := nodes[edges[i].from := []];
      nodes := nodes[edges[i].to := []];
    }
    assert edges[..|edges|] == edges;
    for i := 0 to |edges|
      invariant nodes.Keys == EndPoints(edges)
      invariant forall a :: a in nodes ==> ListsNeighbours(edges[..i], a, nodes[a])
    {
      var e := edges[i];
      ghost var before := nodes;
      nodes := nodes[e.from := nodes[e.from] + [e.to]];
      nodes := nodes[e.to := nodes[e.to] + [e.from]];
      assert edges[..i + 1] == edges[..i] + [e];
      forall a | a in nodes ensures ListsNeighbours(edges[..i + 1], a, nodes[a]) {
        var extra := (if a == e.from then [e.to] else []) + (if a == e.to then [e.from] else []);
        assert nodes[a] == before[a] + extra;
        assert ListsNeighbours(edges[..i], a, before[a]);
        ListsSnoc(edges[..i], e, a, before[a], extra);
      }
    }
  }

  /** The row the source builds for a neighbour list `s`: an entry for every
      key, 1 when the key occurs in `s`. */
  function ListRow(s: seq<Node>, keys: set<Node>): map<Node, int> {
    map n2 | n2 in keys :: if n2 in s then 1 else 0
  }

  /** One adjacency row (the scan of `s` stops at the first occurrence). */
  method AdjacencyRowOf(s: seq<Node>, keys: set<Node>) returns (nodeCount: map<Node, int>)
    ensures nodeCount == ListRow(s, keys)
  {
    nodeCount := map[];
    var rest := keys;
    while rest != {}
      invariant rest <= keys
      invariant nodeCount.Keys == keys - rest
      invariant forall n2 :: n2 in nodeCount ==> nodeCount[n2] == if n2 in s then 1 else 0
      decreases |rest|
    {
      var n2 :| n2 in rest;
      nodeCount := nodeCount[n2 := 0];
      var j := 0;
      while j < |s|
        invariant 0 <= j <= |s|
        invariant n2 !in s[..j]
        invariant nodeCount[n2] == 0
      {
        if s[j] == n2 {
          nodeCount := nodeCount[n2 := 1];
          break;
        }
        j := j + 1;
      }
      assert nodeCount[n2] == 0 ==> s[..j] == s;
      rest := rest - {n2};
    }
  }

  method AdjacencyMatrix(graph: Graph) returns (matrix: AdjacencyTable)
    ensures matrix == AdjacencyOf(graph.edges)
  {
    var nodes := NeighbourLists(graph.edges);
    matrix := map[];
    var rest := nodes.Keys;
    while rest != {}
      invariant rest <= nodes.Keys
      invariant matrix.Keys == nodes.Keys - rest
      invariant forall n :: n in matrix ==> matrix[n] == ListRow(nodes[n], nodes.Keys)
      decreases |rest|
    {
      var n :| n in rest;
      var nodeCount := AdjacencyRowOf(nodes[n], nodes.Keys);
      matrix := matrix[n := nodeCount];
      rest := rest - {n};
    }
    AdjacencyFromLists(graph.edges, nodes, matrix);
  }

  /** Appending an edge to the edge list extends each neighbour list by the
      nodes the edge joins to its owner. */
  lemma ListsSnoc(es: seq<Edge>, e: Edge, a: Node, s: seq<Node>, extra: seq<Node>)
    requires ListsNeighbours(es, a, s)
    requires extra == (if a == e.from then [e.to] else []) + (if a == e.to then [e.from] else [])
    ensures ListsNeighbours(es + [e], a, s + extra)
  {
    forall b ensures b in s + extra <==> Adjacent(es + [e], a, b) {
      AdjacentSnoc(es, e, a, b);
      assert b in extra <==> Joins(e, a, b);
    }
  }

  lemma AdjacentSnoc(es: seq<Edge>, e: Edge, a: Node, b: Node)
    ensures Adjacent(es + [e], a, b) <==> Adjacent(es, a, b) || Joins(e, a, b)
  {
    if Adjacent(es + [e], a, b) && !Joins(e, a, b) {
      var d :| d in es + [e] && Joins(d, a, b);
      assert d in es;
    }
    if Joins(e, a, b) {
      assert e in es + [e];
    }
    if Adjacent(es, a, b) {
      var d :| d in es && Joins(d, a, b);
      assert d in es + [e];
    }
  }

  /** The row built from the neighbour list of `a` is a's AdjacencyRow. */
  lemma ListRowIsAdjacencyRow(edges: seq<Edge>, a: Node, s: seq<Node>, keys: set<Node>)
    requires ListsNeighbours(edges, a, s)
    ensures ListRow(s, keys) == AdjacencyRow(edges, a, keys)
  {
    var row, row' := ListRow(s, keys), AdjacencyRow(edges, a, keys);
    forall b | b in keys ensures row[b] == row'[b] {
      assert b in s <==> Adjacent(edges, a, b);
    }
  }

  /** A table with a row for each end point, each of them AdjacencyRow, is AdjacencyOf. */
  lemma AdjacencyByRows(edges: seq<Edge>, matrix: AdjacencyTable)
    requires matrix.Keys == EndPoints(edges)
    requires forall n :: n in matrix ==> matrix[n] == AdjacencyRow(edges, n, EndPoints(edges))
    ensures matrix == AdjacencyOf(edges)
  {
  }

  /** Rows built from the neighbour lists make up AdjacencyOf. */
  lemma AdjacencyFromLists(edges: seq<Edge>, nodes: map<Node, seq<Node>>, matrix: AdjacencyTable)
    requires nodes.Keys == EndPoints(edges)
    requires forall a :: a in nodes ==> ListsNeighbours(edges, a, nodes[a])
    requires matrix.Keys == nodes.Keys
    requires forall n :: n in matrix ==> matrix[n] == ListRow(nodes[n], nodes.Keys)
    ensures matrix == AdjacencyOf(edges)
  {
    var keys := EndPoints(edges);
    forall n | n in matrix ensures matrix[n] == AdjacencyRow(edges, n, keys) {
      ListRowIsAdjacencyRow(edges, n, nodes[n], keys);
    }
    AdjacencyByRows(edges, matrix);
  }

  // ---------------------------------------------------------------------------
  // Properties of the tables
  // ---------------------------------------------------------------------------

  /** The nodes a row marks with 1. */
  function Ones(row: map<Node, int>): set<Node> {
    set n | n in row && row[n] == 1
  }

  /** The incidence table has one row per distinct edge value: equal edges
      share a row, so it has as many rows as edges exactly when no two edges
      are equal (all fields, angles and direction flag included). */
  lemma IncidenceRows(edges: seq<Edge>)
    ensures IncidenceOf(edges).Keys == Elements(edges)
    ensures |IncidenceOf(edges)| <= |edges|
    ensures |IncidenceOf(edges)| == |edges| <==> Distinct(edges)
  {
    ElementsCard(edges);
    assert IncidenceOf(edges).Keys == Elements(edges);
  }

  /** Every row has an entry for each end point and no other node, every entry
      is 0 or 1, and the 1s are exactly the two ends of the edge: two 1s, or a
      single 1 for a self-loop. */
  lemma IncidenceRowEnds(edges: seq<Edge>, e: Edge)
    requires e in edges
    ensures e in IncidenceOf(edges)
    ensures IncidenceOf(edges)[e].Keys == EndPoints(edges)
    ensures forall n :: n in IncidenceOf(edges)[e] ==> IncidenceOf(edges)[e][n] in {0, 1}
    ensures Ones(IncidenceOf(edges)[e]) == {e.from, e.to}
    ensures |Ones(IncidenceOf(edges)[e])| == if e.from == e.to then 1 else 2
  {
    var row := IncidenceOf(edges)[e];
    assert e.from in EndPoints(edges) && e.to in EndPoints(edges);
    assert row[e.from] == 1 && row[e.to] == 1;
    assert Ones(row) == {e.from, e.to};
  }

  /** The `isDirected` flag is never read: the row of an edge is the same
      whichever way the flag is set. */
  lemma IncidenceIgnoresDirection(edges: seq<Edge>, i: nat, d: bool)
    requires i < |edges|
    ensures edges[i].(isDirected := d) in IncidenceOf(edges[i := edges[i].(isDirected := d)])
    ensures IncidenceOf(edges[i := edges[i].(isDirected := d)])[edges[i].(isDirected := d)]
            == IncidenceOf(edges)[edges[i]]
  {
    var f := edges[i].(isDirected := d);
    var edges' := edges[i := f];
    SameEndPoints(edges, edges', i);
    assert f in edges';
  }

  /** Replacing one edge by another with the same two ends leaves the set of
      end points unchanged. */
  lemma SameEndPoints(edges: seq<Edge>, edges': seq<Edge>, i: nat)
    requires i < |edges| == |edges'|
    requires forall k :: 0 <= k < |edges| && k != i ==> edges'[k] == edges[k]
    requires {edges'[i].from, edges'[i].to} == {edges[i].from, edges[i].to}
    ensures EndPoints(edges') == EndPoints(edges)
  {
    forall n | n in EndPoints(edges) ensures n in EndPoints(edges') {
      var e :| e in edges && IsEndPoint(e, n);
      var k :| 0 <= k < |edges| && edges[k] == e;
      if k == i {
        assert IsEndPoint(e, n) && e == edges[i];
        assert n in {edges[i].from, edges[i].to};
        assert IsEndPoint(edges'[i], n);
      } else {
        assert edges'[k] == e;
      }
    }
    forall n | n in EndPoints(edges') ensures n in EndPoints(edges) {
      var e :| e in edges' && IsEndPoint(e, n);
      var k :| 0 <= k < |edges'| && edges'[k] == e;
      if k == i {
        assert IsEndPoint(e, n) && e == edges'[i];
        assert n in {edges'[i].from, edges'[i].to};
        assert IsEndPoint(edges[i], n);
      } else {
        assert edges[k] == e;
      }
    }
  }

  /** The adjacency table is dense and square over the end points, with 0/1
      entries. */
  lemma AdjacencySquare(edges: seq<Edge>)
    ensures AdjacencyOf(edges).Keys == EndPoints(edges)
    ensures forall a :: a in AdjacencyOf(edges) ==> AdjacencyOf(edges)[a].Keys == EndPoints(edges)
    ensures forall a, b :: a in AdjacencyOf(edges) && b in AdjacencyOf(edges)[a] ==>
              AdjacencyOf(edges)[a][b] in {0, 1}
  {
  }

  /** The adjacency table is symmetric, directed edges included. */
  lemma AdjacencySymmetric(edges: seq<Edge>, a: Node, b: Node)
    requires a in EndPoints(edges) && b in EndPoints(edges)
    ensures AdjacencyOf(edges)[a][b] == AdjacencyOf(edges)[b][a]
  {
    if Adjacent(edges, a, b) {
      var e :| e in edges && Joins(e, a, b);
      assert Joins(e, b, a);
    }
    if Adjacent(edges, b, a) {
      var e :| e in edges && Joins(e, b, a);
      assert Joins(e, a, b);
    }
  }

  /** The diagonal is 1 exactly at the nodes that carry a self-loop. */
  lemma AdjacencyDiagonal(edges: seq<Edge>, n: Node)
    requires n in EndPoints(edges)
    ensures AdjacencyOf(edges)[n][n] == 1 <==> exists e :: e in edges && e.from == n && e.to == n
  {
    if Adjacent(edges, n, n) {
      var e :| e in edges && Joins(e, n, n);
      assert e.from == n && e.to == n;
    }
    if exists e :: e in edges && e.from == n && e.to == n {
      var e :| e in edges && e.from == n && e.to == n;
      assert Joins(e, n, n);
    }
  }

  /** Off the diagonal the two builders agree: two different nodes are adjacent
      exactly when some incidence row has a 1 in both their columns. */
  lemma AdjacencyAgreesWithIncidence(edges: seq<Edge>, a: Node, b: Node)
    requires a in EndPoints(edges) && b in EndPoints(edges) && a != b
    ensures AdjacencyOf(edges)[a][b] == 1 <==>
              exists e :: e in IncidenceOf(edges) && IncidenceOf(edges)[e][a] == 1 && IncidenceOf(edges)[e][b] == 1
  {
    if Adjacent(edges, a, b) {
      var e :| e in edges && Joins(e, a, b);
      SharedRow(edges, e, a, b);
    }
    if exists e :: e in IncidenceOf(edges) && IncidenceOf(edges)[e][a] == 1 && IncidenceOf(edges)[e][b] == 1 {
      var e :| e in IncidenceOf(edges) && IncidenceOf(edges)[e][a] == 1 && IncidenceOf(edges)[e][b] == 1;
      SharedRow(edges, e, a, b);
    }
  }

  /** An edge's incidence row has 1 in the columns of two different nodes
      exactly when the edge joins them. */
  lemma SharedRow(edges: seq<Edge>, e: Edge, a: Node, b: Node)
    requires e in edges && a in EndPoints(edges) && b in EndPoints(edges) && a != b
    ensures e in IncidenceOf(edges)
    ensures IncidenceOf(edges)[e][a] == 1 && IncidenceOf(edges)[e][b] == 1 <==> Joins(e, a, b)
  {
    assert IncidenceOf(edges)[e] == IncidenceRow(e, EndPoints(edges));
  }

  /** Neither the `isDirected` flag nor the orientation of an edge matters to
      the adjacency table: setting the flag or swapping `from` and `to` of any
      edge gives the same table. */
  lemma AdjacencyIgnoresDirection(edges: seq<Edge>, i: nat, d: bool)
    requires i < |edges|
    ensures AdjacencyOf(edges[i := edges[i].(isDirected := d)]) == AdjacencyOf(edges)
    ensures AdjacencyOf(edges[i := edges[i].(from := edges[i].to, to := edges[i].from)]) == AdjacencyOf(edges)
  {
    SameLinks(edges, edges[i := edges[i].(isDirected := d)], i);
    SameLinks(edges, edges[i := edges[i].(from := edges[i].to, to := edges[i].from)], i);
  }

  /** Replacing one edge by another that joins the same two nodes leaves the
      adjacency table unchanged. */
  lemma SameLinks(edges: seq<Edge>, edges': seq<Edge>, i: nat)
    requires i < |edges| == |edges'|
    requires forall k :: 0 <= k < |edges| && k != i ==> edges'[k] == edges[k]
    requires Joins(edges'[i], edges[i].from, edges[i].to)
    ensures AdjacencyOf(edges') == AdjacencyOf(edges)
  {
    SameEndPoints(edges, edges', i);
    var nodes := EndPoints(edges);
    forall a | a in nodes ensures AdjacencyRow(edges', a, nodes) == AdjacencyRow(edges, a, nodes) {
      forall b ensures Adjacent(edges', a, b) <==> Adjacent(edges, a, b) {
        SameAdjacent(edges, edges', i, a, b);
      }
    }
  }

  lemma SameAdjacent(edges: seq<Edge>, edges': seq<Edge>, i: nat, a: Node, b: Node)
    requires i < |edges| == |edges'|
    requires forall k :: 0 <= k < |edges| && k != i ==> edges'[k] == edges[k]
    requires Joins(edges'[i], edges[i].from, edges[i].to)
    ensures Adjacent(edges', a, b) <==> Adjacent(edges, a, b)
  {
    if Adjacent(edges, a, b) {
      var e :| e in edges && Joins(e, a, b);
      var k :| 0 <= k < |edges| && edges[k] == e;
      assert Joins(edges'[k], a, b);
    }
    if Adjacent(edges', a, b) {
      var e :| e in edges' && Joins(e, a, b);
      var k :| 0 <= k < |edges'| && edges'[k] == e;
      assert Joins(edges[k], a, b);
    }
  }

  // ---------------------------------------------------------------------------
  // Directed edges: what the code computes against what its tests expect
  // ---------------------------------------------------------------------------

  /** The directed edge list of the incidence test, edges named "1" to "6"
      (1->2, 2->3, 3->4, 4->1, 4->5, 5->3). The adjacency test uses the same
      end points with unnamed edges; since AdjacencyOf reads only the end
      points, the adjacency half of the lemma below holds for that list too. */
  function DirectedTestEdges(): seq<Edge> {
    [ Edge(0, "1", "", BareNode(1), BareNode(2), ZeroAngle, ZeroAngle, true),
      Edge(0, "2", "", BareNode(2), BareNode(3), ZeroAngle, ZeroAngle, true),
      Edge(0, "3", "", BareNode(3), BareNode(4), ZeroAngle, ZeroAngle, true),
      Edge(0, "4", "", BareNode(4), BareNode(1), ZeroAngle, ZeroAngle, true),
      Edge(0, "5", "", BareNode(4), BareNode(5), ZeroAngle, ZeroAngle, true),
      Edge(0, "6", "", BareNode(5), BareNode(3), ZeroAngle, ZeroAngle, true) ]
  }

  /** On those edges the code puts +1 at the `to` end of 1->2 where the tests
      expect -1, and 1 at row 2, column 1 of the adjacency table where the
      tests expect 0. */
  lemma DirectedTestDisagreement()
    ensures var inc := IncidenceOf(DirectedTestEdges()); var e := DirectedTestEdges()[0];
            e in inc && BareNode(2) in inc[e] && inc[e][BareNode(2)] == 1
    ensures var adj := AdjacencyOf(DirectedTestEdges());
            BareNode(2) in adj && BareNode(1) in adj[BareNode(2)] && adj[BareNode(2)][BareNode(1)] == 1
  {
    var edges := DirectedTestEdges();
    assert edges[0] in edges;
    assert BareNode(1) in EndPoints(edges) && BareNode(2) in EndPoints(edges);
    assert Joins(edges[0], BareNode(2), BareNode(1));
  }

  /** The node with ID 1 named "First" in colour "BLue" of the path tests. */
  const First := Node(1, 0, 0, "First", "", "BLue")

  /** 5 -> First and 1 -> 2: two end points share ID 1. */
  function SameIdEdges(): seq<Edge> {
    [ Edge(0, "", "", BareNode(5), First, ZeroAngle, ZeroAngle, false),
      Edge(0, "", "", BareNode(1), BareNode(2), ZeroAngle, ZeroAngle, false) ]
  }

  /** Nodes are compared as whole values: `First` and the bare node with ID 1
      are two different rows, each with its own neighbour. */
  lemma SameIdDistinctRows()
    ensures First.id == BareNode(1).id && First != BareNode(1)
    ensures var adj := AdjacencyOf(SameIdEdges());
            First in adj && BareNode(5) in adj[First] && adj[First][BareNode(5)] == 1
    ensures var adj := AdjacencyOf(SameIdEdges());
            BareNode(1) in adj && BareNode(2) in adj[BareNode(1)] && adj[BareNode(1)][BareNode(2)] == 1
    ensures var adj := AdjacencyOf(SameIdEdges());
            First in adj && BareNode(2) in adj[First] && adj[First][BareNode(2)] == 0
  {
    var edges := SameIdEdges();
    var nodes := EndPoints(edges);
    assert edges[0] in edges && edges[1] in edges;
    assert First in nodes && BareNode(1) in nodes && BareNode(5) in nodes && BareNode(2) in nodes;
    assert Joins(edges[0], First, BareNode(5)) && Joins(edges[1], BareNode(1), BareNode(2));
    assert First.name != BareNode(1).name;
    assert !Joins(edges[0], First, BareNode(2)) && !Joins(edges[1], First, BareNode(2));
    assert forall e :: e in edges ==> e == edges[0] || e == edges[1];
    assert !Adjacent(edges, First, BareNode(2));
  }
}
