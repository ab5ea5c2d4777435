/**
 * The all-shortest-paths search of package paths: an exhaustive depth-first
 * search that remembers, for every node, the lowest cost at which it has been
 * entered so far (`visitedEdges`), only enters a neighbour when that does not
 * make its record worse, and collects every completed path whose cost does not
 * exceed the best cost seen so far. At the end the candidates are filtered down
 * to those as long as the last one.
 *
 * The main result, AllShortestPathsFind's postcondition, is that whatever
 * order the neighbours are visited in, the paths returned are exactly the
 * shortest routes from the start node to a node carrying the target ID.
 */
module Paths {
  import opened Model
  import opened SeqFacts

  type Matrix = map<Node, map<Node, int>>

  /** Go's `matrix[u][v]`: a missing row or column reads as 0. */
  function MatrixAt(matrix: Matrix, u: Node, v: Node): (r: int)
    ensures u in matrix && v in matrix[u] ==> r == matrix[u][v]
    ensures r != 0 ==> u in matrix && v in matrix[u]
  {
    if u in matrix && v in matrix[u] then matrix[u][v] else 0
  }

  /** Go's `visitedEdges[n]`: a node that has no record reads as 0. */
  function RecordOf(visited: map<Node, nat>, n: Node): (r: nat)
    ensures n in visited ==> r == visited[n]
    ensures r != 0 ==> n in visited
  {
    if n in visited then visited[n] else 0
  }

  /** What one search is asked: the node set it ranges over, the matrix, the
      start node and the target ID. */
  datatype Query = Query(nodes: set<Node>, matrix: Matrix, start: Node, toNode: uint64)

  // ---------------------------------------------------------------------------
  // Routes
  // ---------------------------------------------------------------------------

  /** A path the search can walk: it starts at the start node, every later node
      is in the node set and has a non-zero matrix entry from its predecessor,
      and no node but possibly the last carries the target ID (the search stops
      there). */
  ghost predicate IsWalk(g: Query, p: seq<Node>) {
    && |p| >= 1
    && p[0] == g.start
    && (forall i :: 1 <= i < |p| ==> p[i] in g.nodes && MatrixAt(g.matrix, p[i - 1], p[i]) != 0)
    && (forall i :: 0 <= i < |p| - 1 ==> p[i].id != g.toNode)
  }

  /** A walk that ends at a node carrying the target ID. */
  ghost predicate IsRoute(g: Query, p: seq<Node>) {
    IsWalk(g, p) && p[|p| - 1].id == g.toNode
  }

  ghost predicate IsShortestRoute(g: Query, p: seq<Node>) {
    && IsRoute(g, p)
    && forall q :: IsRoute(g, q) ==> |p| <= |q|
  }

  /** A walk that reaches node `p[j]` of a route can replace the route's first
      `j + 1` nodes. */
  lemma SpliceRoute(g: Query, a: seq<Node>, p: seq<Node>, j: nat)
    requires IsWalk(g, a) && IsRoute(g, p)
    requires j < |p| && a[|a| - 1] == p[j]
    ensures IsRoute(g, a + p[j + 1..])
    ensures |a + p[j + 1..]| == |a| + |p| - j - 1
  {
    var r := a + p[j + 1..];
    forall i | 1 <= i < |r| ensures r[i] in g.nodes && MatrixAt(g.matrix, r[i - 1], r[i]) != 0 {
      if i >= |a| {
        assert r[i] == p[i - |a| + j + 1];
        assert r[i - 1] == p[i - |a| + j];
      }
    }
    forall i | 0 <= i < |r| - 1 ensures r[i].id != g.toNode {
      if i >= |a| - 1 {
        assert r[i] == p[i - |a| + j + 1];
      }
    }
  }

  /** Any route can be shortened to a shortest one. */
  lemma {:induction false} ShortestExists(g: Query, r: seq<Node>)
    requires IsRoute(g, r)
    ensures exists p :: IsShortestRoute(g, p)
    decreases |r|
  {
    if !IsShortestRoute(g, r) {
      var q :| IsRoute(g, q) && |q| < |r|;
      ShortestExists(g, q);
    }
  }

  /** When the start node carries the target ID the only route is the start
      node alone. */
  lemma {:induction false} StartIsTarget(g: Query, p: seq<Node>)
    requires g.start.id == g.toNode
    ensures IsShortestRoute(g, p) <==> p == [g.start]
  {
    assert IsRoute(g, [g.start]);
    if IsRoute(g, p) {
      assert p[0].id == g.toNode;
      assert |p| == 1;
      assert p == [p[0]];
    }
  }

  // ---------------------------------------------------------------------------
  // The search state and what stays true of it
  // ---------------------------------------------------------------------------

  /** Records only move towards the root: a record that changes takes a value
      above `cost`, and a record that was already set only goes down. */
  ghost predicate LoweredAt(before: map<Node, nat>, after: map<Node, nat>, cost: nat, n: Node) {
    RecordOf(after, n) != RecordOf(before, n) ==>
      RecordOf(after, n) > cost && (RecordOf(before, n) == 0 || RecordOf(after, n) < RecordOf(before, n))
  }

  ghost predicate RecordsLowered(before: map<Node, nat>, after: map<Node, nat>, cost: nat) {
    forall n :: LoweredAt(before, after, cost, n)
  }

  /** Entering a node at a cost above `cost` lowers its record or sets a new one. */
  lemma EnterLowered(v: map<Node, nat>, next: Node, cost: nat, cost': nat)
    requires cost < cost' && (RecordOf(v, next) == 0 || RecordOf(v, next) >= cost')
    ensures RecordsLowered(v, v[next := cost'], cost)
  {
    var v' := v[next := cost'];
    forall n ensures LoweredAt(v, v', cost, n) {
    }
  }

  lemma LoweredTrans(a: map<Node, nat>, b: map<Node, nat>, c: map<Node, nat>, cost: nat, cost': nat)
    requires RecordsLowered(a, b, cost) && RecordsLowered(b, c, cost')
    requires cost <= cost'
    ensures RecordsLowered(a, c, cost)
  {
    forall n ensures LoweredAt(a, c, cost, n) {
      assert LoweredAt(a, b, cost, n) && LoweredAt(b, c, cost', n);
    }
  }

  /** The nodes on the current path past the start carry their positions as
      records. */
  ghost predicate OnStack(visited: map<Node, nat>, p: seq<Node>) {
    forall i :: 1 <= i < |p| ==> RecordOf(visited, p[i]) == i
  }

  /** ... so none of them repeats and the path is no longer than |nodes| + 1. */
  lemma StackBound(nodes: set<Node>, visited: map<Node, nat>, p: seq<Node>)
    requires forall i :: 1 <= i < |p| ==> p[i] in nodes
    requires OnStack(visited, p)
    ensures forall i, j :: 1 <= i < j < |p| ==> p[i] != p[j]
    ensures |p| <= |nodes| + 1
  {
    forall i, j | 1 <= i < j < |p| ensures p[i] != p[j] {
      assert RecordOf(visited, p[i]) == i && RecordOf(visited, p[j]) == j;
    }
    if |p| > 1 {
      var t := p[1..];
      forall i, j | 0 <= i < j < |t| ensures t[i] != t[j] {
        assert t[i] == p[i + 1] && t[j] == p[j + 1];
      }
      forall i | 0 <= i < |t| ensures t[i] in nodes {
        assert t[i] == p[i + 1];
      }
      DistinctWithin(t, nodes);
    }
  }

  /** A call above the current path leaves the path's records alone. */
  lemma StackKept(v: map<Node, nat>, v': map<Node, nat>, p: seq<Node>, cost: nat)
    requires OnStack(v, p) && RecordsLowered(v, v', cost) && |p| <= cost + 1
    ensures OnStack(v', p)
  {
    forall i | 1 <= i < |p| ensures RecordOf(v', p[i]) == i {
      assert LoweredAt(v, v', cost, p[i]);
    }
  }

  /** `q` starts with `p`: a call with `q` happens below a call with `p`. */
  ghost predicate Extends(q: seq<Node>, p: seq<Node>) {
    |p| <= |q| && q[..|p|] == p
  }

  /** A path that starts with `p + [w]` starts with `p` and goes on with `w`. */
  lemma ExtendsStep(q: seq<Node>, p: seq<Node>, w: Node)
    ensures Extends(q, p + [w]) ==> Extends(q, p) && |p| < |q| && q[|p|] == w
  {
    if Extends(q, p + [w]) {
      assert q[..|p|] == q[..|p| + 1][..|p|];
      assert q[|p|] == q[..|p| + 1][|p|];
    }
  }

  /** No finished call starts with `p`: `rec` has not yet been called with `p`
      or below it. */
  ghost predicate Unvisited(finished: set<seq<Node>>, p: seq<Node>) {
    forall q {:trigger Extends(q, p)} :: q in finished ==> !Extends(q, p)
  }

  /** Every call finished since `before` was below `p`. */
  ghost predicate AddedBelow(before: set<seq<Node>>, after: set<seq<Node>>, p: seq<Node>) {
    forall q :: q in after && q !in before ==> Extends(q, p)
  }

  /** Every finished call strictly below `p` went through a neighbour outside
      `rest`, the neighbours `rec` has yet to try. */
  ghost predicate BelowOutside(finished: set<seq<Node>>, p: seq<Node>, rest: set<Node>) {
    forall q {:trigger Extends(q, p)} :: q in finished && Extends(q, p) && |p| < |q| ==> q[|p|] !in rest
  }

  /** A neighbour not tried yet has no finished call below it. */
  lemma UnvisitedChild(finished: set<seq<Node>>, p: seq<Node>, next: Node)
    requires BelowOutside(finished, p, {next})
    ensures Unvisited(finished, p + [next])
  {
    forall q | q in finished ensures !Extends(q, p + [next]) {
      ExtendsStep(q, p, next);
    }
  }

  /** Trying neighbour `next` of `p`, which added only calls below `p + [next]`,
      takes `next` out of the neighbours still to try and adds only calls
      below `p`. */
  lemma BranchStep(f: set<seq<Node>>, f0: set<seq<Node>>, f1: set<seq<Node>>, p: seq<Node>,
                   rest: set<Node>, next: Node)
    requires BelowOutside(f0, p, rest) && AddedBelow(f, f0, p)
    requires f0 <= f1 && AddedBelow(f0, f1, p + [next])
    ensures BelowOutside(f1, p, rest - {next})
    ensures AddedBelow(f, f1, p)
  {
    forall q | q in f1 ensures (Extends(q, p) && |p| < |q| ==> q[|p|] !in rest - {next})
                           && (q !in f ==> Extends(q, p))
    {
      ExtendsStep(q, p, next);
    }
  }

  /** The candidates are routes of cost at most |nodes|, their lengths never
      increase, and `shortestCost` is the cost of the last one (|nodes| + 2
      while there is none). */
  ghost predicate CandidatesOk(g: Query, allPaths: seq<seq<Node>>, shortestCost: nat) {
    && (forall k :: 0 <= k < |allPaths| ==> IsRoute(g, allPaths[k]) && |allPaths[k]| <= |g.nodes| + 1)
    && (forall j, k :: 0 <= j < k < |allPaths| ==> |allPaths[k]| <= |allPaths[j]|)
    && shortestCost == (if allPaths == [] then |g.nodes| + 2 else |allPaths[|allPaths| - 1]| - 1)
  }

  /** Every candidate is a finished call, and none is listed twice. */
  ghost predicate CandidatesFinished(allPaths: seq<seq<Node>>, finished: set<seq<Node>>) {
    && Distinct(allPaths)
    && forall k :: 0 <= k < |allPaths| ==> allPaths[k] in finished
  }

  /** The record of `n` is the start's initial one, or the cost of the walk
      (`via[n]`) that last set it. */
  ghost predicate RecordWitnessed(g: Query, visited: map<Node, nat>, via: map<Node, seq<Node>>, n: Node) {
    n in visited ==>
      || (n == g.start && visited[n] == |g.nodes| + 2)
      || (n in via && IsWalk(g, via[n]) && |via[n]| == visited[n] + 1 && via[n][|via[n]| - 1] == n)
  }

  ghost predicate RecordsOk(g: Query, visited: map<Node, nat>, via: map<Node, seq<Node>>) {
    forall n :: RecordWitnessed(g, visited, via, n)
  }

  /** A finished call is on a walk that repeats no node past the start. */
  ghost predicate FinishedWalk(g: Query, q: seq<Node>) {
    IsWalk(g, q) && |q| <= |g.nodes| + 1
  }

  ghost predicate FinishedAt(g: Query, finished: set<seq<Node>>, q: seq<Node>) {
    q in finished ==> FinishedWalk(g, q)
  }

  ghost predicate FinishedOk(g: Query, finished: set<seq<Node>>) {
    forall q :: FinishedAt(g, finished, q)
  }

  /** Neighbour `w` of the end of `q` has been dealt with: it was entered from
      `q`, or its record was already below the cost it would have had. */
  ghost predicate Tried(finished: set<seq<Node>>, visited: map<Node, nat>, q: seq<Node>, w: Node) {
    q + [w] in finished || 0 < RecordOf(visited, w) < |q|
  }

  /** A finished call that was not at the target tried every neighbour. */
  ghost predicate ClosedAt(g: Query, finished: set<seq<Node>>, visited: map<Node, nat>, q: seq<Node>, w: Node) {
    (q in finished && |q| > 0 && q[|q| - 1].id != g.toNode && w in g.nodes && MatrixAt(g.matrix, q[|q| - 1], w) != 0)
    ==> Tried(finished, visited, q, w)
  }

  ghost predicate Closed(g: Query, finished: set<seq<Node>>, visited: map<Node, nat>) {
    forall q, w :: ClosedAt(g, finished, visited, q, w)
  }

  /** A finished call at the target was kept, or a cheaper candidate is known. */
  ghost predicate KeptAt(g: Query, finished: set<seq<Node>>, allPaths: seq<seq<Node>>, shortestCost: nat, q: seq<Node>) {
    (q in finished && |q| > 0 && q[|q| - 1].id == g.toNode) ==> (q in allPaths || shortestCost < |q| - 1)
  }

  ghost predicate Kept(g: Query, finished: set<seq<Node>>, allPaths: seq<seq<Node>>, shortestCost: nat) {
    forall q :: KeptAt(g, finished, allPaths, shortestCost, q)
  }

  /** The invariant of the search. Besides the real state (`allPaths`,
      `shortestCost`, `visited`) it speaks of two ghost records: `finished`,
      the paths with which `rec` has been called and has returned, and `via`,
      the path with which each record was last set. */
  ghost predicate SearchInv(g: Query, allPaths: seq<seq<Node>>, shortestCost: nat, visited: map<Node, nat>,
                            finished: set<seq<Node>>, via: map<Node, seq<Node>>)
  {
    && CandidatesOk(g, allPaths, shortestCost)
    && CandidatesFinished(allPaths, finished)
    && RecordsOk(g, visited, via)
    && FinishedOk(g, finished)
    && Closed(g, finished, visited)
    && Kept(g, finished, allPaths, shortestCost)
  }

  // ---------------------------------------------------------------------------
  // One step of the search keeps the invariant
  // ---------------------------------------------------------------------------

  /** `rec` reached the target no dearer than the best so far: the path
      becomes the last candidate. */
  lemma KeepStep(g: Query, allPaths: seq<seq<Node>>, shortestCost: nat, visited: map<Node, nat>,
                 finished: set<seq<Node>>, via: map<Node, seq<Node>>, path: seq<Node>)
    requires SearchInv(g, allPaths, shortestCost, visited, finished, via)
    requires IsRoute(g, path) && |path| <= |g.nodes| + 1
    requires shortestCost >= |path| - 1 && path !in finished
    ensures SearchInv(g, allPaths + [path], |path| - 1, visited, finished + {path}, via)
  {
    var allPaths' := allPaths + [path];
    var finished' := finished + {path};
    forall j, k | 0 <= j < k < |allPaths'| ensures allPaths'[j] != allPaths'[k] {
      assert allPaths'[j] in finished;
    }
    forall j, k | 0 <= j < k < |allPaths'| ensures |allPaths'[k]| <= |allPaths'[j]| {
      if k == |allPaths| {
        assert |allPaths[|allPaths| - 1]| <= |allPaths[j]|;
      }
    }
    forall q ensures FinishedAt(g, finished', q) {
      assert FinishedAt(g, finished, q);
    }
    forall q, w ensures ClosedAt(g, finished', visited, q, w) {
      assert ClosedAt(g, finished, visited, q, w);
    }
    var shortestCost': nat := |path| - 1;
    forall q ensures KeptAt(g, finished', allPaths', shortestCost', q) {
      assert KeptAt(g, finished, allPaths, shortestCost, q);
    }
  }

  /** `rec` reached the target dearer than the best so far: the path is
      dropped. */
  lemma SkipStep(g: Query, allPaths: seq<seq<Node>>, shortestCost: nat, visited: map<Node, nat>,
                 finished: set<seq<Node>>, via: map<Node, seq<Node>>, path: seq<Node>)
    requires SearchInv(g, allPaths, shortestCost, visited, finished, via)
    requires IsRoute(g, path) && |path| <= |g.nodes| + 1
    requires shortestCost < |path| - 1
    ensures SearchInv(g, allPaths, shortestCost, visited, finished + {path}, via)
  {
    var finished' := finished + {path};
    forall q ensures FinishedAt(g, finished', q) {
      assert FinishedAt(g, finished, q);
    }
    forall q, w ensures ClosedAt(g, finished', visited, q, w) {
      assert ClosedAt(g, finished, visited, q, w);
    }
    forall q ensures KeptAt(g, finished', allPaths, shortestCost, q) {
      assert KeptAt(g, finished, allPaths, shortestCost, q);
    }
  }

  /** `rec` enters `next` from `path`: the record of `next` becomes the cost of
      `path + [next]`. */
  lemma EnterStep(g: Query, allPaths: seq<seq<Node>>, shortestCost: nat, visited: map<Node, nat>,
                  finished: set<seq<Node>>, via: map<Node, seq<Node>>, path: seq<Node>, next: Node)
    requires SearchInv(g, allPaths, shortestCost, visited, finished, via)
    requires |path| >= 1 && IsWalk(g, path + [next])
    requires RecordOf(visited, next) == 0 || RecordOf(visited, next) >= |path|
    ensures SearchInv(g, allPaths, shortestCost, visited[next := |path|], finished, via[next := path + [next]])
  {
    var visited' := visited[next := |path|];
    var via' := via[next := path + [next]];
    forall n ensures RecordWitnessed(g, visited', via', n) {
      assert RecordWitnessed(g, visited, via, n);
    }
    forall q, w ensures ClosedAt(g, finished, visited', q, w) {
      assert ClosedAt(g, finished, visited, q, w);
    }
  }

  /** `rec` returns from a call that was not at the target, having tried every
      neighbour. */
  lemma FinishStep(g: Query, allPaths: seq<seq<Node>>, shortestCost: nat, visited: map<Node, nat>,
                   finished: set<seq<Node>>, via: map<Node, seq<Node>>, path: seq<Node>)
    requires SearchInv(g, allPaths, shortestCost, visited, finished, via)
    requires FinishedWalk(g, path) && path[|path| - 1].id != g.toNode
    requires forall w :: w in g.nodes && MatrixAt(g.matrix, path[|path| - 1], w) != 0 ==>
               Tried(finished, visited, path, w)
    ensures SearchInv(g, allPaths, shortestCost, visited, finished + {path}, via)
  {
    var finished' := finished + {path};
    forall q ensures FinishedAt(g, finished', q) {
      assert FinishedAt(g, finished, q);
    }
    forall q, w ensures ClosedAt(g, finished', visited, q, w) {
      assert ClosedAt(g, finished, visited, q, w);
    }
    forall q ensures KeptAt(g, finished', allPaths, shortestCost, q) {
      assert KeptAt(g, finished, allPaths, shortestCost, q);
    }
  }

  /** A neighbour tried before a child call stays tried after it: the child
      only adds finished calls and only sets records above its own cost. */
  lemma TriedKept(f: set<seq<Node>>, f': set<seq<Node>>, v: map<Node, nat>, v': map<Node, nat>,
                  q: seq<Node>, w: Node, cost: nat)
    requires f <= f' && RecordsLowered(v, v', cost) && |q| <= cost
    requires Tried(f, v, q, w)
    ensures Tried(f', v', q, w)
  {
    assert LoweredAt(v, v', cost, w);
  }

  // ---------------------------------------------------------------------------
  // What the finished search has found
  // ---------------------------------------------------------------------------

  /** Every prefix of a shortest route is a finished call. */
  lemma {:induction false} PrefixesFinished(g: Query, visited: map<Node, nat>, finished: set<seq<Node>>,
                                            via: map<Node, seq<Node>>, p: seq<Node>, i: nat)
    requires RecordsOk(g, visited, via) && FinishedOk(g, finished) && Closed(g, finished, visited)
    requires [g.start] in finished
    requires IsShortestRoute(g, p)
    requires 1 <= i <= |p|
    ensures p[..i] in finished
    decreases i
  {
    if i == 1 {
      assert p[..1] == [g.start];
    } else {
      PrefixesFinished(g, visited, finished, via, p, i - 1);
      var q := p[..i - 1];
      var w := p[i - 1];
      assert q[|q| - 1] == p[i - 2];
      assert p[i - 2].id != g.toNode;
      assert w in g.nodes && MatrixAt(g.matrix, q[|q| - 1], w) != 0;
      assert ClosedAt(g, finished, visited, q, w);
      assert FinishedAt(g, finished, q);
      // the record of w is not below |q|: the walk that set it, spliced into
      // p, would give a route shorter than p
      if w in visited {
        assert RecordWitnessed(g, visited, via, w);
        if !(w == g.start && visited[w] == |g.nodes| + 2) {
          SpliceRoute(g, via[w], p, i - 1);
        }
      }
      assert q + [w] == p[..i];
    }
  }

  /** After the search the candidates of the last candidate's length are
      exactly the shortest routes, and there are candidates exactly when some
      route exists. */
  lemma SearchOutcome(g: Query, allPaths: seq<seq<Node>>, shortestCost: nat, visited: map<Node, nat>,
                      finished: set<seq<Node>>, via: map<Node, seq<Node>>)
    requires SearchInv(g, allPaths, shortestCost, visited, finished, via)
    requires [g.start] in finished
    ensures allPaths != [] <==> exists r :: IsRoute(g, r)
    ensures allPaths != [] ==>
              forall p :: (p in allPaths && |p| == |allPaths[|allPaths| - 1]|) <==> IsShortestRoute(g, p)
  {
    forall p | IsShortestRoute(g, p) ensures p in allPaths {
      PrefixesFinished(g, visited, finished, via, p, |p|);
      assert p[..|p|] == p;
      assert FinishedAt(g, finished, p);
      assert KeptAt(g, finished, allPaths, shortestCost, p);
      if allPaths != [] {
        assert IsRoute(g, allPaths[|allPaths| - 1]);
      }
    }
    if exists r :: IsRoute(g, r) {
      var r :| IsRoute(g, r);
      ShortestExists(g, r);
      var s :| IsShortestRoute(g, s);
      assert s in allPaths;
    }
    if allPaths != [] {
      assert IsRoute(g, allPaths[0]);
      var last := allPaths[|allPaths| - 1];
      assert IsRoute(g, last);
      forall p | p in allPaths ensures |last| <= |p| {
        var k :| 0 <= k < |allPaths| && allPaths[k] == p;
      }
      forall p | p in allPaths && |p| == |last| ensures IsShortestRoute(g, p) {
        var k :| 0 <= k < |allPaths| && allPaths[k] == p;
        forall r | IsRoute(g, r) ensures |p| <= |r| {
          ShortestExists(g, r);
          var s :| IsShortestRoute(g, s);
        }
      }
    }
  }

  // ---------------------------------------------------------------------------
  // The final filter
  // ---------------------------------------------------------------------------

  /** The paths of `ps` of length `len`, in their order. */
  function KeepLength(ps: seq<seq<Node>>, len: nat): seq<seq<Node>> {
    if ps == [] then []
    else KeepLength(ps[..|ps| - 1], len) + (if |ps[|ps| - 1]| == len then [ps[|ps| - 1]] else [])
  }

  lemma {:induction false} KeepLengthMembers(ps: seq<seq<Node>>, len: nat, p: seq<Node>)
    ensures p in KeepLength(ps, len) <==> p in ps && |p| == len
  {
    if ps != [] {
      var init := ps[..|ps| - 1];
      KeepLengthMembers(init, len, p);
      assert ps == init + [ps[|ps| - 1]];
    }
  }

  /** The filter lists no path twice when its input does not. */
  lemma {:induction false} KeepLengthDistinct(ps: seq<seq<Node>>, len: nat)
    requires Distinct(ps)
    ensures Distinct(KeepLength(ps, len))
  {
    if ps != [] {
      var init, last := ps[..|ps| - 1], ps[|ps| - 1];
      assert Distinct(init) by {
        forall i, j | 0 <= i < j < |init| ensures init[i] != init[j] {
          assert init[i] == ps[i] && init[j] == ps[j];
        }
      }
      KeepLengthDistinct(init, len);
      KeepLengthMembers(init, len, last);
      assert last !in init by {
        forall i | 0 <= i < |init| ensures init[i] != last {
          assert init[i] == ps[i];
        }
      }
      var kept := KeepLength(init, len);
      var r := KeepLength(ps, len);
      if |last| == len {
        assert r == kept + [last];
        forall i, j | 0 <= i < j < |r| ensures r[i] != r[j] {
          if j == |kept| {
            assert r[i] in kept;
          } else {
            assert r[i] == kept[i] && r[j] == kept[j];
          }
        }
      } else {
        assert r == kept;
      }
    }
  }

  /** The loop that keeps the candidates as long as the last one. */
  method KeepLastLength(allPaths: seq<seq<Node>>) returns (shortestPaths: seq<seq<Node>>)
    ensures allPaths == [] ==> shortestPaths == []
    ensures allPaths != [] ==> shortestPaths == KeepLength(allPaths, |allPaths[|allPaths| - 1]|)
  {
    shortestPaths := [];
    for i := 0 to |allPaths|
      invariant shortestPaths == KeepLength(allPaths[..i], if allPaths == [] then 0 else |allPaths[|allPaths| - 1]|)
    {
      assert allPaths[..i + 1][..i] == allPaths[..i];
      var path := allPaths[i];
      if |path| == |allPaths[|allPaths| - 1]| {
        shortestPaths := shortestPaths + [path];
      }
    }
    assert allPaths[..|allPaths|] == allPaths;
  }

  // ---------------------------------------------------------------------------
  // The search itself
  // ---------------------------------------------------------------------------

  /** The package-level `allPaths` and `shortestCost`, together with the
      `visitedEdges` map that AllShortestPathsFind allocates and `rec` updates
      through its reference. */
  class SearchState {
    var allPaths: seq<seq<Node>>
    var shortestCost: nat
    var visitedEdges: map<Node, nat>
    ghost var finished: set<seq<Node>>
    ghost var via: map<Node, seq<Node>>

    constructor ()
      ensures allPaths == [] && shortestCost == 0 && visitedEdges == map[]
    {
      allPaths := [];
      shortestCost := 0;
      visitedEdges := map[];
      finished := {};
      via := map[];
    }

    ghost predicate Inv(g: Query)
      reads this
    {
      SearchInv(g, allPaths, shortestCost, visitedEdges, finished, via)
    }

    /** `rec`: `path` is the current path, `cost` its number of steps. The
        body of the loop over the neighbours is Neighbour below. */
    method Rec(nodes: set<Node>, matrix: Matrix, currentNode: Node, toNode: uint64, cost: nat, path: seq<Node>)
      requires |path| == cost + 1 && path[cost] == currentNode
      requires IsWalk(Query(nodes, matrix, path[0], toNode), path)
      requires OnStack(visitedEdges, path) && Unvisited(finished, path)
      requires Inv(Query(nodes, matrix, path[0], toNode))
      modifies this
      ensures Inv(Query(nodes, matrix, path[0], toNode))
      ensures path in finished && old(finished) <= finished
      ensures AddedBelow(old(finished), finished, path)
      ensures RecordsLowered(old(visitedEdges), visitedEdges, cost)
      ensures currentNode.id == toNode && old(allPaths) == [] ==> allPaths == [path]
      decreases |nodes| - cost, 1
    {
      ghost var g := Query(nodes, matrix, path[0], toNode);
      StackBound(nodes, visitedEdges, path);
      assert Extends(path, path);
      if currentNode.id == toNode {
        if shortestCost >= cost {
          KeepStep(g, allPaths, shortestCost, visitedEdges, finished, via, path);
          allPaths := allPaths + [path];
          shortestCost := cost;
        } else {
          SkipStep(g, allPaths, shortestCost, visitedEdges, finished, via, path);
        }
        finished := finished + {path};
        return;
      }

      var rest := nodes;
      while rest != {}
        invariant rest <= nodes
        invariant Inv(g)
        invariant old(finished) <= finished
        invariant RecordsLowered(old(visitedEdges), visitedEdges, cost)
        invariant OnStack(visitedEdges, path)
        invariant forall w :: w in nodes - rest && MatrixAt(matrix, currentNode, w) != 0 ==>
                    Tried(finished, visitedEdges, path, w)
        invariant BelowOutside(finished, path, rest) && AddedBelow(old(finished), finished, path)
        decreases |rest|
      {
        var nextNode :| nextNode in rest;
        ghost var rest0 := rest;
        rest := rest - {nextNode};
        ghost var v0, f0 := visitedEdges, finished;
        assert BelowOutside(finished, path, {nextNode});
        Neighbour(nodes, matrix, currentNode, toNode, cost, path, nextNode);
        LoweredTrans(old(visitedEdges), v0, visitedEdges, cost, cost);
        BranchStep(old(finished), f0, finished, path, rest0, nextNode);
      }
      FinishStep(g, allPaths, shortestCost, visitedEdges, finished, via, path);
      finished := finished + {path};
    }

    /** One turn of `rec`'s loop: skip `nextNode` if it is not a neighbour,
        enter it if its record allows. */
    method Neighbour(nodes: set<Node>, matrix: Matrix, currentNode: Node, toNode: uint64, cost: nat,
                     path: seq<Node>, nextNode: Node)
      requires |path| == cost + 1 && path[cost] == currentNode && currentNode.id != toNode
      requires nextNode in nodes
      requires IsWalk(Query(nodes, matrix, path[0], toNode), path)
      requires OnStack(visitedEdges, path) && |path| <= |nodes| + 1
      requires BelowOutside(finished, path, {nextNode})
      requires Inv(Query(nodes, matrix, path[0], toNode))
      modifies this
      ensures Inv(Query(nodes, matrix, path[0], toNode))
      ensures old(finished) <= finished && AddedBelow(old(finished), finished, path + [nextNode])
      ensures RecordsLowered(old(visitedEdges), visitedEdges, cost)
      ensures OnStack(visitedEdges, path)
      ensures MatrixAt(matrix, currentNode, nextNode) != 0 ==> Tried(finished, visitedEdges, path, nextNode)
      ensures forall w :: Tried(old(finished), old(visitedEdges), path, w) ==> Tried(finished, visitedEdges, path, w)
      // not a neighbour, or a record already below the new cost: nothing happens
      ensures MatrixAt(matrix, currentNode, nextNode) == 0 || 0 < RecordOf(old(visitedEdges), nextNode) <= cost ==>
                && allPaths == old(allPaths) && shortestCost == old(shortestCost)
                && visitedEdges == old(visitedEdges) && finished == old(finished)
      // entered: the call with the extended path happened, and the record is the new cost
      ensures MatrixAt(matrix, currentNode, nextNode) != 0 &&
              (RecordOf(old(visitedEdges), nextNode) == 0 || RecordOf(old(visitedEdges), nextNode) > cost) ==>
                path + [nextNode] in finished && RecordOf(visitedEdges, nextNode) == cost + 1
      decreases |nodes| - cost, 0
    {
      ghost var g := Query(nodes, matrix, path[0], toNode);
      var nextCost := cost + 1;
      if MatrixAt(matrix, currentNode, nextNode) == 0 {
        return;
      }
      if RecordOf(visitedEdges, nextNode) >= nextCost || RecordOf(visitedEdges, nextNode) == 0 {
        var nextPath := path + [nextNode];
        EnterStep(g, allPaths, shortestCost, visitedEdges, finished, via, path, nextNode);
        EnterLowered(visitedEdges, nextNode, cost, nextCost);
        visitedEdges := visitedEdges[nextNode := nextCost];
        via := via[nextNode := nextPath];
        assert OnStack(visitedEdges, nextPath);
        StackBound(nodes, visitedEdges, nextPath);
        UnvisitedChild(finished, path, nextNode);
        ghost var f1, v1 := finished, visitedEdges;
        Rec(nodes, matrix, nextNode, toNode, nextCost, nextPath);
        forall w | Tried(old(finished), old(visitedEdges), path, w)
          ensures Tried(finished, visitedEdges, path, w)
        {
          if w != nextNode {
            assert Tried(f1, v1, path, w);
          }
          TriedKept(f1, finished, v1, visitedEdges, path, w, nextCost);
        }
        LoweredTrans(old(visitedEdges), v1, visitedEdges, cost, nextCost);
        StackKept(v1, visitedEdges, path, nextCost);
        assert LoweredAt(v1, visitedEdges, nextCost, nextNode);
      }
    }

    /** Resets the state, searches from `currentNode`, and keeps the
        candidates as long as the last one. */
    method AllShortestPathsFind(nodes: set<Node>, matrix: Matrix, currentNode: Node, toNode: uint64)
      returns (shortestPaths: seq<seq<Node>>)
      modifies this
      ensures forall p :: p in shortestPaths <==> IsShortestRoute(Query(nodes, matrix, currentNode, toNode), p)
      ensures Distinct(shortestPaths)
      ensures shortestPaths == [] <==> !exists r :: IsRoute(Query(nodes, matrix, currentNode, toNode), r)
      ensures currentNode.id == toNode ==> shortestPaths == [[currentNode]]
      ensures allPaths != [] ==> shortestPaths == KeepLength(allPaths, |allPaths[|allPaths| - 1]|)
    {
      ghost var g := Query(nodes, matrix, currentNode, toNode);
      allPaths := [];
      visitedEdges := map[];
      var cost := 0;
      shortestCost := |nodes| + 2;
      var path := [currentNode];
      visitedEdges := visitedEdges[currentNode := |nodes| + 2];
      finished := {};
      via := map[];

      Rec(nodes, matrix, currentNode, toNode, cost, path);
      SearchOutcome(g, allPaths, shortestCost, visitedEdges, finished, via);

      if allPaths == [] {
        return [];
      }
      shortestPaths := KeepLastLength(allPaths);
      KeepLengthDistinct(allPaths, |allPaths[|allPaths| - 1]|);
      forall p ensures p in shortestPaths <==> IsShortestRoute(g, p) {
        KeepLengthMembers(allPaths, |allPaths[|allPaths| - 1]|, p);
      }
      if currentNode.id == toNode {
        assert allPaths == [[currentNode]];
        assert allPaths[..0] == [];
      }
    }
  }
}
