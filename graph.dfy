/**
  Graph.java: an adjacency-set graph whose single field, the map from
  vertex id to neighbour set, is updated in place by its mutators. Every
  mutator is proved against the pure function of GraphSpec that describes
  its effect; the properties of those functions are lemmas there.
*/
module Graphs {
  import opened GraphSpec
  import opened GraphMeasures
  import opened Search
  import FactorialMath

  class Graph {
    /** `adjList`. */
    var adj: Adjacency

    /** `Graph(HashMap)`: adopts the given map as it is. */
    constructor FromMap(input: Adjacency)
      ensures adj == input
    {
      adj := input;
    }

    /** `Graph(ArrayList<ArrayList<Integer>>)`: one vertex per list, whose
        neighbour set holds the positions 0 .. size-1 of that list (not the
        ids stored there: see IndexAdjacency). */
    constructor FromLists(input: seq<seq<nat>>)
      ensures adj == IndexAdjacency(input)
    {
      var m: Adjacency := map[];
      var u := 0;
      while u < |input|
        invariant 0 <= u <= |input|
        invariant m == map w: nat | w < u :: Positions(|input[w]|)
      {
        var adjU: set<nat> := {};
        var v := 0;
        while v < |input[u]|
          invariant 0 <= v <= |input[u]|
          invariant adjU == Positions(v)
        {
          adjU := adjU + {v};
          v := v + 1;
        }
        m := m[u := adjU];
        u := u + 1;
      }
      adj := m;
    }

    /** The list constructor as evidently intended: vertex u for every
        list, with the ids listed there as its neighbours. */
    constructor FromNeighbourLists(input: seq<seq<nat>>)
      ensures adj == NeighbourAdjacency(input)
    {
      var m: Adjacency := map[];
      var u := 0;
      while u < |input|
        invariant 0 <= u <= |input|
        invariant m == map w: nat | w < u :: Elems(input[w])
      {
        var adjU: set<nat> := {};
        var k := 0;
        while k < |input[u]|
          invariant 0 <= k <= |input[u]|
          invariant adjU == Elems(input[u][..k])
        {
          assert input[u][..k + 1] == input[u][..k] + [input[u][k]];
          adjU := adjU + {input[u][k]};
          k := k + 1;
        }
        assert input[u][..k] == input[u];
        m := m[u := adjU];
        u := u + 1;
      }
      adj := m;
    }

    /** `getVertexCount()`. */
    function VertexCount(): (n: nat)
      reads this
      ensures n == |adj.Keys|
    {
      |adj|
    }

    /** `contains(Integer u)`: whether u is a vertex (it may have no edges). */
    function Contains(u: nat): (b: bool)
      reads this
      ensures b <==> u in adj.Keys
    {
      u in adj
    }

    /** `contains(Edge e)`: whether e is one of the graph's arcs; false when
        e.u is not a vertex. */
    function ContainsEdge(e: Edge): (b: bool)
      reads this
      ensures b <==> e in Arcs(adj)
    {
      if e.u !in adj then false
      else
        var b := e.v in adj[e.u];
        assert b ==> Edge(e.u, e.v) in Arcs(adj);
        b
    }

    /** `getVertices()`. */
    function Vertices(): (vs: set<nat>)
      reads this
      ensures forall u :: u in vs <==> Contains(u)
    {
      adj.Keys
    }

    /** `addVertex(v)`. */
    method AddVertex(v: nat)
      modifies this
      ensures adj == WithVertex(old(adj), v)
    {
      if v in adj {
        return;
      }
      adj := adj[v := {}];
    }

    /** `addEdge(u, v, undirected)`: creates u when missing, adds v to its
        set, and for an undirected edge repeats itself as a directed v -> u. */
    method AddEdge(u: nat, v: nat, undirected: bool)
      modifies this
      ensures adj == WithArcs(old(adj), EdgeArcs(u, v, undirected))
      decreases if undirected then 1 else 0
    {
      ghost var m0 := adj;
      if u !in adj {
        adj := adj[u := {}];
      }
      if v !in adj[u] {
        adj := adj[u := adj[u] + {v}];
      } else {
        assert adj[u] + {v} == adj[u];
      }
      assert adj == m0[u := Nbrs(m0, u) + {v}];
      WithOneArc(m0, u, v);
      if undirected {
        ghost var m1 := adj;
        AddEdge(v, u, false);
        assert EdgeArcs(v, u, false) == {Edge(v, u)};
        WithArcsTwice(m0, {Edge(u, v)}, {Edge(v, u)});
        assert EdgeArcs(u, v, true) == {Edge(u, v)} + {Edge(v, u)};
      } else {
        assert EdgeArcs(u, v, false) == {Edge(u, v)};
      }
    }

    /** `addEdge(Edge e, undirected)`. */
    method AddEdgeOf(e: Edge, undirected: bool)
      modifies this
      ensures adj == WithArcs(old(adj), EdgeArcs(e.u, e.v, undirected))
    {
      AddEdge(e.u, e.v, undirected);
    }

    /** `addEdges(edges, undirected)`: every edge of the set, in any order. */
    method AddEdges(edges: set<Edge>, undirected: bool)
      modifies this
      ensures adj == WithArcs(old(adj), EdgesArcs(edges, undirected))
    {
      var rest := edges;
      WithNoArcs(adj);
      assert edges - rest == {};
      assert EdgesArcs({}, undirected) == {};
      while rest != {}
        invariant rest <= edges
        invariant adj == WithArcs(old(adj), EdgesArcs(edges - rest, undirected))
      {
        var e :| e in rest;
        ghost var done := edges - rest;
        AddEdge(e.u, e.v, undirected);
        WithArcsTwice(old(adj), EdgesArcs(done, undirected), EdgeArcs(e.u, e.v, undirected));
        EdgesArcsAddOne(done, e, undirected);
        rest := rest - {e};
        assert done + {e} == edges - rest;
      }
      assert edges - rest == edges;
    }

    /** The private `removeEdge(u, v)`. */
    method RemoveArc(u: nat, v: nat)
      modifies this
      ensures adj == WithoutArc(old(adj), u, v)
    {
      if u !in adj {
        return;
      }
      if v in adj[u] {
        adj := adj[u := adj[u] - {v}];
        if adj[u] == {} {
          adj := adj - {u};
        }
      }
    }

    /** `removeEdge(Edge e, undirected)`. */
    method RemoveEdgeOf(e: Edge, undirected: bool)
      modifies this
      ensures adj == WithoutEdge(old(adj), e, undirected)
    {
      RemoveArc(e.u, e.v);
      if undirected {
        RemoveArc(e.v, e.u);
      }
    }

    /** `removeVertex(u)`: removes u from the set of each of its neighbours,
        then deletes u. */
    method RemoveVertex(u: nat)
      requires CanRemoveVertex(adj, u)
      modifies this
      ensures adj == WithoutVertex(old(adj), u)
    {
      if u !in adj {
        return;
      }
      var adjU := adj[u];
      var rest := adjU;
      while rest != {}
        invariant rest <= adjU
        invariant adj.Keys == old(adj).Keys
        invariant forall w :: w in adj ==>
          adj[w] == if w in adjU - rest then old(adj)[w] - {u} else old(adj)[w]
      {
        var v :| v in rest;
        adj := adj[v := adj[v] - {u}];
        rest := rest - {v};
      }
      adj := adj - {u};
    }

    /** `getAdjEdges(u)`: None (Java's null) exactly when u is not a
        vertex; otherwise one edge u -> v for each neighbour v. */
    method AdjEdges(u: nat) returns (r: Option<set<Edge>>)
      ensures r.None? <==> u !in adj
      ensures r.Some? ==> forall e :: e in r.value <==> e.u == u && ContainsEdge(e)
      ensures r.Some? ==> r.value == Star(u, adj[u])
    {
      if u !in adj {
        return None;
      }
      var edges: set<Edge> := {};
      var rest := adj[u];
      while rest != {}
        invariant rest <= adj[u]
        invariant forall e :: e in edges <==> e.u == u && e.v in adj[u] - rest
      {
        var v :| v in rest;
        edges := edges + {Edge(u, v)};
        rest := rest - {v};
      }
      return Some(edges);
    }

    /** `getEdgeCount()`: walks every arc u -> v and counts it unless it or
        its reverse was seen before, so each unordered pair {u, v} (a
        self-loop included) is counted once. */
    method EdgeCount() returns (edgeCount: nat)
      ensures edgeCount == |EdgePairs(adj)|
    {
      edgeCount := 0;
      var counted: Adjacency := map[];
      ghost var seen: set<Pair> := {};
      var keys := adj.Keys;
      while keys != {}
        invariant keys <= adj.Keys
        invariant seen == PairsFrom(adj, adj.Keys - keys)
        invariant CountedExactly(counted, seen)
        invariant edgeCount == |seen|
      {
        var u :| u in keys;
        counted, edgeCount := CountArcsFrom(u, counted, seen, edgeCount);
        PairsFromAddOne(adj, adj.Keys - keys, u);
        seen := seen + PairsWith(u, adj[u]);
        keys := keys - {u};
        assert adj.Keys - keys == (adj.Keys - (keys + {u})) + {u};
      }
      assert adj.Keys - keys == adj.Keys;
    }

    /** The inner loop of `getEdgeCount()`: counts the arcs u -> v of one
        vertex u whose pair {u, v} is not yet in `seen`. */
    method CountArcsFrom(u: nat, counted: Adjacency, ghost seen: set<Pair>, edgeCount: nat)
      returns (counted': Adjacency, edgeCount': nat)
      requires u in adj
      requires CountedExactly(counted, seen) && edgeCount == |seen|
      ensures CountedExactly(counted', seen + PairsWith(u, adj[u]))
      ensures edgeCount' == |seen + PairsWith(u, adj[u])|
    {
      counted', edgeCount' := counted, edgeCount;
      var nbrs := adj[u];
      var rest := nbrs;
      ghost var done: set<nat> := {};
      assert PairsWith(u, done) == {};
      assert seen + PairsWith(u, done) == seen;
      while rest != {}
        invariant done + rest == nbrs
        invariant CountedExactly(counted', seen + PairsWith(u, done))
        invariant edgeCount' == |seen + PairsWith(u, done)|
      {
        var v :| v in rest;
        counted', edgeCount' := CountNeighbour(counted', seen, done, edgeCount', u, v);
        done := done + {v};
        rest := rest - {v};
      }
      assert done == nbrs;
    }

    /** The integer sum `avgDegree()` accumulates: the degree of every
        vertex, a self-loop counting twice. */
    method DegreeSum() returns (sum: nat)
      ensures sum == DegreeTotal(adj)
    {
      sum := 0;
      var keys := adj.Keys;
      ghost var done: set<nat> := {};
      NothingFromNone(adj);
      while keys != {}
        invariant done + keys == adj.Keys && done !! keys
        invariant sum == |ArcsFrom(adj, done)| + |LoopsIn(adj, done)|
      {
        var u :| u in keys;
        var d := VertexDegree(u);
        DegreeStep(adj, done, u);
        sum := sum + d;
        done := done + {u};
        keys := keys - {u};
      }
      assert done == adj.Keys;
      DegreeAll(adj);
    }

    /** The inner loop of `avgDegree()`: 2 for a self-loop, 1 for any other
        neighbour of u. */
    method VertexDegree(u: nat) returns (d: nat)
      requires u in adj
      ensures d == Degree(adj, u)
    {
      d := 0;
      var rest := adj[u];
      ghost var done: set<nat> := {};
      while rest != {}
        invariant done + rest == adj[u] && done !! rest
        invariant d == |done| + (if u in done then 1 else 0)
      {
        var v :| v in rest;
        if v == u {
          d := d + 2;
        } else {
          d := d + 1;
        }
        done := done + {v};
        rest := rest - {v};
      }
      assert done == adj[u];
    }

    /** The last statement of the outer loop of `bfs(s)`: u, with no white
        neighbour left, turns black. */
    method BfsBlacken(u: nat, nodes: array<NodeInfo>, q: seq<nat>, s: nat)
      requires u < nodes.Length && BfsInvariant(adj, nodes[..], q, s, u) && NoWhiteNeighbour(adj, nodes[..], u)
      modifies nodes
      ensures nodes[..] == old(nodes[..])[u := old(nodes[u]).(color := Black)]
      ensures BfsInvariant(adj, nodes[..], q, s, -1)
      ensures WhiteCount(nodes[..]) <= old(WhiteCount(nodes[..]))
    {
      ghost var scanned := nodes[..];
      BfsFinish(adj, scanned, q, s, u);
      nodes[u] := nodes[u].(color := Black);
      assert nodes[..] == scanned[u := scanned[u].(color := Black)];
    }

    /** `avgDegree()`: the degree sum over the vertex count, None (NaN) for
        the empty graph. */
    method AvgDegree() returns (r: Option<real>)
      ensures r == AverageDegree(DegreeTotal(adj), |adj|)
      ensures r.None? <==> adj == map[]
    {
      var sum := DegreeSum();
      var n := VertexCount();
      if n == 0 {
        return None;
      }
      r := Some((sum as real) / (n as real));
    }

    /** The innermost loop of `clustCoeficient()`: the neighbours t of v
        with t != u that are neighbours of u. */
    method CountClosersAt(u: nat, v: nat) returns (count: nat)
      requires u in adj && v in adj
      ensures count == |Closers(adj, u, v)|
    {
      count := 0;
      var rest := adj[v];
      ghost var done: set<nat> := {};
      assert ClosersIn(adj, u, done) == {};
      while rest != {}
        invariant done + rest == adj[v] && done !! rest
        invariant count == |ClosersIn(adj, u, done)|
      {
        var t :| t in rest;
        ClosersInAddOne(adj, u, done, t);
        if t != u && t in adj[u] {
          count := count + 1;
        }
        done := done + {t};
        rest := rest - {t};
      }
      assert done == adj[v];
    }

    /** The middle loop of `clustCoeficient()`: the number of pairs (v, t)
        of neighbours of u with t a neighbour of v. Every neighbour must be
        a vertex, or `clustCoeficient` dereferences null. */
    method ClosedPairCount(u: nat) returns (count: nat)
      requires u in adj && Closed(adj)
      ensures count == |ClosedPairs(adj, u)|
    {
      count := 0;
      var rest := adj[u];
      ghost var done: set<nat> := {};
      NoClosedPairs(adj, u);
      while rest != {}
        invariant done + rest == adj[u] && done !! rest
        invariant count == |ClosedPairsFrom(adj, u, done)|
      {
        var v :| v in rest;
        var here := CountClosersAt(u, v);
        ClosedPairsStep(adj, u, done, v);
        count := count + here;
        done := done + {v};
        rest := rest - {v};
      }
      assert done == adj[u];
    }

    /** The coefficient `clustCoeficient()` stores for one vertex u with n
        neighbours: c = simplifyFactorialDivision(n, n - 2) / 2 possible
        pairs, and count / 2 / c, or 0 when c is 0. Without self-loops it
        lies in [0, 1]. */
    method LocalClustering(u: nat) returns (coef: real)
      requires u in adj && Closed(adj)
      ensures coef == LocalCoefficient(|ClosedPairs(adj, u)|, |adj[u]| * (|adj[u]| - 1) / 2)
      ensures LoopFree(adj) ==> 0.0 <= coef <= 1.0
    {
      var n := |adj[u]|;
      var pairs := FactorialMath.SimplifyFactorialDivision(n, n - 2);
      FactorialMath.QuotientOfTwoBelow(n);
      FactorialMath.PairCountIsEven(n);
      var c := pairs / 2;
      var count := ClosedPairCount(u);
      if c == 0 {
        coef := 0.0;
      } else {
        coef := (count as real) / 2.0 / (c as real);
      }
      if LoopFree(adj) {
        ClosedPairsBound(adj, u);
        LocalCoefficientBounds(count, c);
      }
    }

    /** `clustCoeficient()`: the mean of the local coefficients, 0 for the
        empty graph; a fraction in [0, 1] when there are no self-loops. */
    method ClustCoefficient() returns (r: real)
      requires Closed(adj)
      ensures |adj| == 0 ==> r == 0.0
      ensures LoopFree(adj) ==> 0.0 <= r <= 1.0
    {
      if VertexCount() == 0 {
        return 0.0;
      }
      var coefByVertex := LocalCoefficients();
      var sum := SumValues(coefByVertex);
      var size := |coefByVertex|;
      assert size == |adj| > 0;
      r := sum / (size as real);
      if LoopFree(adj) {
        FractionBounds(sum, size as real);
      }
    }

    /** The outer loop of `clustCoeficient()`: the map `coefByVertex` from
        each vertex to its local coefficient. */
    method LocalCoefficients() returns (coefByVertex: map<nat, real>)
      requires Closed(adj)
      ensures coefByVertex.Keys == adj.Keys
      ensures forall w :: w in coefByVertex ==>
        coefByVertex[w] == LocalCoefficient(|ClosedPairs(adj, w)|, |adj[w]| * (|adj[w]| - 1) / 2)
      ensures LoopFree(adj) ==> forall w :: w in coefByVertex ==> 0.0 <= coefByVertex[w] <= 1.0
    {
      coefByVertex := map[];
      var keys := adj.Keys;
      while keys != {}
        invariant keys <= adj.Keys
        invariant coefByVertex.Keys == adj.Keys - keys
        invariant forall w :: w in coefByVertex ==>
          coefByVertex[w] == LocalCoefficient(|ClosedPairs(adj, w)|, |adj[w]| * (|adj[w]| - 1) / 2)
        invariant LoopFree(adj) ==> forall w :: w in coefByVertex ==> 0.0 <= coefByVertex[w] <= 1.0
      {
        var u :| u in keys;
        var coef := LocalClustering(u);
        coefByVertex := coefByVertex[u := coef];
        keys := keys - {u};
      }
    }

    /** `initNodes()`: one white record per vertex id 0 .. |V| - 1. */
    method InitNodes() returns (nodes: array<NodeInfo>)
      ensures fresh(nodes) && nodes.Length == |adj|
      ensures forall i :: 0 <= i < nodes.Length ==> nodes[i] == Initial(i)
    {
      nodes := new NodeInfo[|adj|];
      var i := 0;
      while i < nodes.Length
        invariant 0 <= i <= nodes.Length
        invariant forall j :: 0 <= j < i ==> nodes[j] == Initial(j)
      {
        nodes[i] := Initial(i);
        i := i + 1;
      }
    }

    /** `DFS_Visit(u, nodes, time)`. `DFS_Visit` takes `time` by value, so
        u is discovered at time + 1 and finished at time + 2 whatever its
        descendants do, and its children start from time + 1. Every node
        the visit changes was white and ends black with f = d + 1; every
        neighbour of a node it finished is no longer white. */
    method DfsVisit(u: nat, nodes: array<NodeInfo>, time: int)
      requires Numbered(adj, nodes.Length)
      requires u < nodes.Length && nodes[u].color == White
      modifies nodes
      ensures nodes[u] == old(nodes[u]).(color := Black, d := time + 1, f := time + 2)
      ensures AllVisited(old(nodes[..]), nodes[..], time)
      ensures Explored(adj, old(nodes[..]), nodes[..])
      decreases WhiteCount(nodes[..])
    {
      ghost var entry := nodes[..];
      var t := time + 1;
      nodes[u] := nodes[u].(color := Gray, d := t);
      ghost var gray := nodes[..];
      assert gray == entry[u := entry[u].(color := Gray, d := t)];
      assert NoNewWhite(entry, gray);
      var rest := adj[u];
      ghost var done: set<nat> := {};
      while rest != {}
        invariant done + rest == adj[u] && done !! rest
        invariant AllVisited(gray, nodes[..], time)
        invariant Explored(adj, gray, nodes[..])
        invariant forall v :: v in done ==> v < nodes.Length && nodes[v].color != White
      {
        var v :| v in rest;
        NumberedNeighbour(adj, nodes.Length, u, v);
        if nodes[v].color == White {
          ghost var mid := nodes[..];
          AllVisitedNoNewWhite(gray, mid, time);
          NoNewWhiteTrans(entry, gray, mid);
          WhiteCountShrinks(entry, mid, u);
          DfsVisit(v, nodes, t);
          AllVisitedTrans(gray, mid, nodes[..], time, t);
          ExploredTrans(adj, gray, mid, nodes[..], t);
          AllVisitedNoNewWhite(mid, nodes[..], t);
        }
        done := done + {v};
        rest := rest - {v};
      }
      assert done == adj[u];
      assert Visited(gray[u], nodes[u], time);
      ghost var last := nodes[..];
      nodes[u] := nodes[u].(color := Black, f := t + 1);
      assert nodes[..] == last[u := last[u].(color := Black, f := time + 2)];
      FinishVisit(adj, entry, gray, last, nodes[..], u, time);
    }

    /** `dfs()`: a visit from every vertex still white, in id order, each
        starting at time 0. Afterwards every vertex is black, with
        f = d + 1 and d at least 1; ids and (never set) predecessors are
        those of `initNodes()`. */
    method Dfs() returns (nodes: array<NodeInfo>)
      requires Numbered(adj, |adj|)
      ensures fresh(nodes) && nodes.Length == |adj|
      ensures forall i :: 0 <= i < nodes.Length ==>
        nodes[i].color == Black && nodes[i].f == nodes[i].d + 1 && nodes[i].d >= 1
        && nodes[i].id == i && nodes[i].p == -1
    {
      nodes := InitNodes();
      ghost var initial := nodes[..];
      var time := 0;
      var u := 0;
      while u < nodes.Length
        invariant 0 <= u <= nodes.Length
        invariant AllVisited(initial, nodes[..], time)
        invariant forall i :: 0 <= i < u ==> nodes[i].color == Black
      {
        if nodes[u].color == White {
          ghost var before := nodes[..];
          DfsVisit(u, nodes, time);
          AllVisitedTrans(initial, before, nodes[..], time, time);
        } else {
          assert Visited(initial[u], nodes[u], time);
        }
        u := u + 1;
      }
      forall i | 0 <= i < nodes.Length
        ensures nodes[i].color == Black && nodes[i].f == nodes[i].d + 1 && nodes[i].d >= 1
          && nodes[i].id == i && nodes[i].p == -1
      {
        assert Visited(initial[i], nodes[i], time);
      }
    }

    /** `dfs(s)`: one visit from s at time 0. Afterwards s is black with
        d = 1 and f = 2, no node is gray, the untouched nodes are as
        `initNodes()` made them, and every neighbour of a black node is
        black, so every vertex reachable from s is black (ReachableIsBlack). */
    method DfsFrom(s: nat) returns (nodes: array<NodeInfo>)
      requires Numbered(adj, |adj|) && s < |adj|
      ensures fresh(nodes) && nodes.Length == |adj|
      ensures nodes[s].color == Black && nodes[s].d == 1 && nodes[s].f == 2
      ensures forall i :: 0 <= i < nodes.Length ==> nodes[i].color != Gray
      ensures forall i :: 0 <= i < nodes.Length && nodes[i].color == White ==> nodes[i] == Initial(i)
      ensures BlackClosed(adj, nodes[..])
    {
      nodes := InitNodes();
      ghost var initial := nodes[..];
      var time := 0;
      DfsVisit(s, nodes, time);
      forall i | 0 <= i < nodes.Length
        ensures nodes[i].color != Gray
        ensures nodes[i].color == White ==> nodes[i] == Initial(i)
      {
        assert Visited(initial[i], nodes[i], time);
      }
      forall u: nat, v: nat | u < nodes.Length && nodes[u].color == Black && u in adj && v in adj[u]
        ensures v < nodes.Length && nodes[v].color == Black
      {
        assert initial[u].color == White;
        ExploredAt(adj, initial, nodes[..], u, v);
        assert Visited(initial[v], nodes[v], time);
      }
    }

    /** `bfs(s)`. The deque is used through `push` and `pop`, both at its
        head, so it is a stack. Afterwards no node is gray, s is black,
        every neighbour of a black node is black (so every vertex reachable
        from s is black), the untouched nodes are as `initNodes()` made
        them, every other discovered node hangs by an arc from a black
        predecessor and, when s has no self-loop, lies one level below it,
        s staying at level 0. */
    method Bfs(s: nat) returns (nodes: array<NodeInfo>)
      requires Numbered(adj, |adj|) && s < |adj|
      ensures fresh(nodes) && nodes.Length == |adj|
      ensures nodes[s].color == Black
      ensures forall i :: 0 <= i < nodes.Length ==> nodes[i].color != Gray
      ensures Pristine(nodes[..])
      ensures BlackClosed(adj, nodes[..])
      ensures Parented(adj, nodes[..], s, -1)
      ensures Rooted(adj, nodes[..], s)
    {
      nodes := InitNodes();
      var q: seq<nat> := [s];
      BfsStart(adj, nodes[..], s);
      BfsLoop(nodes, q, s);
      BfsDone(adj, nodes[..], s);
    }

    /** The outer loop of `bfs(s)`: pop u, scan it, blacken it, until the
        deque is empty. */
    method BfsLoop(nodes: array<NodeInfo>, q0: seq<nat>, s: nat)
      requires Numbered(adj, nodes.Length) && BfsInvariant(adj, nodes[..], q0, s, -1)
      modifies nodes
      ensures BfsInvariant(adj, nodes[..], [], s, -1)
    {
      var q := q0;
      while q != []
        invariant BfsInvariant(adj, nodes[..], q, s, -1)
        decreases 2 * WhiteCount(nodes[..]) + |q|
      {
        BfsPop(adj, nodes[..], q, s);
        var u := q[0];
        q := q[1..];
        q := BfsScan(u, nodes, q, s);
        BfsBlacken(u, nodes, q, s);
      }
    }

    /** The inner loop of `bfs(s)` for the popped node u: every white
        neighbour v turns gray one level below u, with predecessor u, and
        is pushed. Afterwards u has no white neighbour, and the deque grew
        by exactly the number of nodes that stopped being white. */
    method BfsScan(u: nat, nodes: array<NodeInfo>, q: seq<nat>, s: nat) returns (q': seq<nat>)
      requires Numbered(adj, nodes.Length) && u < nodes.Length
      requires BfsInvariant(adj, nodes[..], q, s, u)
      modifies nodes
      ensures BfsInvariant(adj, nodes[..], q', s, u)
      ensures NoWhiteNeighbour(adj, nodes[..], u)
      ensures WhiteCount(nodes[..]) + |q'| == old(WhiteCount(nodes[..])) + |q| && |q'| >= |q|
    {
      var rest := adj[u];
      ghost var done: set<nat> := {};
      q' := q;
      while rest != {}
        invariant done + rest == adj[u] && done !! rest
        invariant BfsInvariant(adj, nodes[..], q', s, u)
        invariant forall v :: v in done ==> v < nodes.Length && nodes[v].color != White
        invariant WhiteCount(nodes[..]) + |q'| == old(WhiteCount(nodes[..])) + |q| && |q'| >= |q|
      {
        var v :| v in rest;
        q' := BfsDiscover(u, v, nodes, q', s);
        done := done + {v};
        rest := rest - {v};
      }
      assert done == adj[u];
    }

    /** One step of the inner loop of `bfs(s)`: a white neighbour v of u
        turns gray one level below u, with predecessor u, and is pushed;
        any other v is left alone. */
    method BfsDiscover(u: nat, v: nat, nodes: array<NodeInfo>, q: seq<nat>, s: nat) returns (q': seq<nat>)
      requires Numbered(adj, nodes.Length) && u < nodes.Length && u in adj && v in adj[u]
      requires BfsInvariant(adj, nodes[..], q, s, u)
      modifies nodes
      ensures BfsInvariant(adj, nodes[..], q', s, u)
      ensures v < nodes.Length && nodes[v].color != White
      ensures NoNewWhite(old(nodes[..]), nodes[..])
      ensures WhiteCount(nodes[..]) + |q'| == old(WhiteCount(nodes[..])) + |q| && |q'| >= |q|
    {
      NumberedNeighbour(adj, nodes.Length, u, v);
      if nodes[v].color == White {
        ghost var before := nodes[..];
        DiscoverStep(adj, before, q, s, u, v);
        nodes[v] := nodes[v].(color := Gray, d := nodes[u].d + 1, p := u);
        assert nodes[..] == before[v := before[v].(color := Gray, d := before[u].d + 1, p := u)];
        q' := [v] + q;
      } else {
        q' := q;
      }
    }
  }

  /** A graph built from a well-formed adjacency list has the vertices
      0 .. n - 1 and no neighbour outside them, so both searches apply. */
  lemma NeighbourListsNumbered(input: seq<seq<nat>>)
    requires WellFormed(input)
    ensures Numbered(NeighbourAdjacency(input), |input|)
    ensures Symmetric(NeighbourAdjacency(input))
  {
    NeighbourAdjacencyWellFormed(input);
  }

  /** One step of the inner loop of `getEdgeCount()`: with `done` the
      neighbours of u handled so far, counting the arc u -> v extends the
      counted pairs by {u, v} and keeps the count equal to their number. */
  method CountNeighbour(counted: Adjacency, ghost seen: set<Pair>, ghost done: set<nat>,
                        edgeCount: nat, u: nat, v: nat)
    returns (counted': Adjacency, edgeCount': nat)
    requires CountedExactly(counted, seen + PairsWith(u, done))
    requires edgeCount == |seen + PairsWith(u, done)|
    ensures CountedExactly(counted', seen + PairsWith(u, done + {v}))
    ensures edgeCount' == |seen + PairsWith(u, done + {v})|
  {
    ghost var now := seen + PairsWith(u, done);
    SeenStep(seen, now, done, u, v);
    var added;
    counted', added := CountArc(counted, now, u, v);
    edgeCount' := edgeCount + added;
  }

  /** The body of the inner loop of `getEdgeCount()`: marks v in u's set and
      u in v's set of the `counted` map, and adds one to the count when
      either mark is new. With `seen` the pairs counted so far, the pair
      {u, v} is new exactly when neither mark was there. */
  method CountArc(counted: Adjacency, ghost seen: set<Pair>, u: nat, v: nat)
    returns (counted': Adjacency, added: int)
    requires CountedExactly(counted, seen)
    ensures CountedExactly(counted', seen + {Unordered(u, v)})
    ensures added == if Unordered(u, v) in seen then 0 else 1
  {
    ghost var isNew := Unordered(u, v) !in seen;
    if isNew {
      MarkBoth(counted, seen, u, v);
    } else {
      MarkedWhenSeen(counted, seen, u, v);
    }
    ghost var c1 := counted[u := Nbrs(counted, u) + {v}];
    counted' := counted;
    added := 0;
    var countedHere := false;
    if u in counted' {
      if v !in counted'[u] {
        counted' := counted'[u := counted'[u] + {v}];
        added := 1;
        countedHere := true;
      } else {
        assert counted[u] + {v} == counted[u];
      }
    } else {
      counted' := counted'[u := {v}];
      added := 1;
      countedHere := true;
      assert {} + {v} == {v};
    }
    assert counted' == c1;
    ghost var c2 := c1[v := Nbrs(c1, v) + {u}];
    if v in counted' {
      if u !in counted'[v] {
        counted' := counted'[v := counted'[v] + {u}];
        if !countedHere {
          added := 1;
        }
      } else {
        assert c1[v] + {u} == c1[v];
      }
    } else {
      counted' := counted'[v := {u}];
      if !countedHere {
        added := 1;
      }
      assert {} + {u} == {u};
    }
    assert counted' == c2;
    if !isNew {
      assert c1 == counted;
      assert c2 == counted;
    }
  }

  /** The last loop of `clustCoeficient()`: the sum of the values of
      `coefByVertex`; at most one per vertex when each is a fraction. */
  method SumValues(coefs: map<nat, real>) returns (sum: real)
    ensures (forall w :: w in coefs ==> 0.0 <= coefs[w] <= 1.0) ==> 0.0 <= sum <= |coefs| as real
  {
    sum := 0.0;
    var rest := coefs.Keys;
    ghost var done: set<nat> := {};
    ghost var fractions := forall w :: w in coefs ==> 0.0 <= coefs[w] <= 1.0;
    while rest != {}
      invariant done + rest == coefs.Keys && done !! rest
      invariant fractions ==> 0.0 <= sum <= |done| as real
    {
      var w :| w in rest;
      sum := sum + coefs[w];
      done := done + {w};
      rest := rest - {w};
    }
    assert done == coefs.Keys;
  }
}
