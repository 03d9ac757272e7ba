/**
  ADC.java: the partition builder, the cross-edge extractor, the score and
  `processRegions`, the greedy loop that moves the vertices of B into A one
  at a time and keeps a move only when the score strictly improves. A and B
  are Graph objects updated in place; the deferred-edge ledger
  (`remainingEdges`) is a map value threaded through the calls. The seed set
  is a parameter, where `getSeeds` draws it at random.
*/
module Adc {
  import opened GraphSpec
  import opened Graphs
  import opened AdcSpec

  // ---------------------------------------------------------------------
  // createGraphsAB
  // ---------------------------------------------------------------------

  /** The inner loops of `createGraphsAB`: the entries of one list that are
      seeds (keep) or that are not (!keep). */
  method FilterBySeeds(l: seq<nat>, seeds: set<nat>, keep: bool) returns (r: set<nat>)
    ensures forall v :: v in r <==> v in l && (v in seeds <==> keep)
  {
    r := {};
    var j := 0;
    while j < |l|
      invariant 0 <= j <= |l|
      invariant forall v :: v in r <==> v in l[..j] && (v in seeds <==> keep)
    {
      if (l[j] in seeds) == keep {
        r := r + {l[j]};
      }
      assert l[..j + 1] == l[..j] + [l[j]];
      j := j + 1;
    }
    assert l[..j] == l;
  }

  /** `createGraphsAB`: A gets the seed ids below n, B the others, each with
      its listed neighbours on its own side. */
  method CreateGraphsAB(input: seq<seq<nat>>, seeds: set<nat>) returns (a: Graph, b: Graph)
    ensures fresh(a) && fresh(b) && a != b
    ensures a.adj == SeedPart(input, seeds) && b.adj == RestPart(input, seeds)
  {
    var tmpA: Adjacency := map[];
    var tmpB: Adjacency := map[];
    var i := 0;
    while i < |input|
      invariant 0 <= i <= |input|
      invariant tmpA == map u: nat | u < i && u in seeds :: Elems(input[u]) * seeds
      invariant tmpB == map u: nat | u < i && u !in seeds :: Elems(input[u]) - seeds
    {
      if i in seeds {
        var adjUSet := FilterBySeeds(input[i], seeds, true);
        assert adjUSet == Elems(input[i]) * seeds;
        tmpA := tmpA[i := adjUSet];
      } else {
        var adjUSet := FilterBySeeds(input[i], seeds, false);
        assert adjUSet == Elems(input[i]) - seeds;
        tmpB := tmpB[i := adjUSet];
      }
      i := i + 1;
    }
    a := new Graph.FromMap(tmpA);
    b := new Graph.FromMap(tmpB);
  }

  // ---------------------------------------------------------------------
  // getABEdges
  // ---------------------------------------------------------------------

  /** The inner loop of `getABEdges` for u: each listed neighbour v with u
      and v on opposite sides joins u's set, which the first one creates. */
  method AddCrossArcs(tmp: Adjacency, u: nat, l: seq<nat>, a: Graph, b: Graph) returns (r: Adjacency)
    requires u !in tmp
    ensures var c := ListedCrossing(u, l, a.adj.Keys, b.adj.Keys);
      r == if c == {} then tmp else tmp[u := c]
  {
    r := tmp;
    var k := 0;
    while k < |l|
      invariant 0 <= k <= |l|
      invariant var c := ListedCrossing(u, l[..k], a.adj.Keys, b.adj.Keys);
        r == if c == {} then tmp else tmp[u := c]
    {
      var v := l[k];
      ghost var c := ListedCrossing(u, l[..k], a.adj.Keys, b.adj.Keys);
      ListedCrossingStep(u, l, k, a.adj.Keys, b.adj.Keys);
      if (a.Contains(u) && b.Contains(v)) || (a.Contains(v) && b.Contains(u)) {
        if u !in r {
          r := r[u := {}];
        }
        assert r == tmp[u := c];
        r := r[u := r[u] + {v}];
        assert ListedCrossing(u, l[..k + 1], a.adj.Keys, b.adj.Keys) == c + {v};
      } else {
        assert ListedCrossing(u, l[..k + 1], a.adj.Keys, b.adj.Keys) == c;
      }
      k := k + 1;
    }
    assert l[..k] == l;
  }

  /** `getABEdges`: a new graph holding exactly the original arcs between A
      and B (CrossAdjacencyArcs states what that means arc by arc). */
  method GetABEdges(input: seq<seq<nat>>, a: Graph, b: Graph) returns (ab: Graph)
    ensures fresh(ab)
    ensures ab.adj == CrossAdjacency(NeighbourAdjacency(input), a.adj.Keys, b.adj.Keys)
  {
    var tmp: Adjacency := map[];
    var i := 0;
    while i < |input|
      invariant 0 <= i <= |input|
      invariant tmp == CrossUpTo(input, i, a.adj.Keys, b.adj.Keys)
    {
      tmp := AddCrossArcs(tmp, i, input[i], a, b);
      i := i + 1;
    }
    CrossUpToAll(input, a.adj.Keys, b.adj.Keys);
    ab := new Graph.FromMap(tmp);
  }

  // ---------------------------------------------------------------------
  // calculateCN
  // ---------------------------------------------------------------------

  /** `calculateCN`: the score of the partition from the edge counts of A,
      B and the cross graph (ScoreBounds states its range). */
  method CalculateCN(a: Graph, b: Graph, ab: Graph) returns (cn: Option<real>)
    ensures cn == Score(|EdgePairs(a.adj)|, |EdgePairs(b.adj)|, |EdgePairs(ab.adj)|)
  {
    var eAA := a.EdgeCount();
    var eBB := b.EdgeCount();
    var eAB := ab.EdgeCount();
    cn := Score(eAA, eBB, eAB);
  }

  // ---------------------------------------------------------------------
  // The ledger
  // ---------------------------------------------------------------------

  /** `addRemainingEdge(u, v, ...)`: v joins u's set, created if missing. */
  method AddRemainingEdge(u: nat, v: nat, ledger: Adjacency) returns (r: Adjacency)
    ensures r == WithArcs(ledger, {Edge(u, v)})
  {
    if u in ledger {
      r := ledger[u := ledger[u] + {v}];
    } else {
      r := ledger[u := {v}];
      assert Nbrs(ledger, u) + {v} == {v};
    }
    WithOneArc(ledger, u, v);
  }

  /** One step of the loop of `addRemainingEdges`: the deferred entry v of
      u becomes the undirected edge u - v of A when v is a vertex of A. */
  method MaterialiseOne(u: nat, v: nat, a: Graph, ghost a0: Adjacency, ghost done: set<nat>)
    returns (added: bool)
    requires u in a0 && a.adj == WithArcs(a0, EdgesArcs(Star(u, done * a0.Keys), true))
    modifies a
    ensures added <==> v in a0
    ensures a.adj == WithArcs(a0, EdgesArcs(Star(u, (done + {v}) * a0.Keys), true))
  {
    MaterialiseStep(a0, u, done, v);
    added := a.Contains(v);
    if added {
      a.AddEdgeOf(Edge(u, v), true);
    }
  }

  /** The loop of `addRemainingEdges` over u's deferred set s: each member
      that is a vertex of A becomes an undirected edge of A and is removed
      from the set through the iterator; the others stay. */
  method Materialise(u: nat, s: set<nat>, a: Graph) returns (kept: set<nat>)
    requires u in a.adj
    modifies a
    ensures a.adj == WithArcs(old(a.adj), EdgesArcs(Star(u, s * old(a.adj).Keys), true))
    ensures kept == s - old(a.adj).Keys
  {
    ghost var a0 := a.adj;
    NothingMaterialised(a0, u);
    kept := s;
    var rest := s;
    ghost var done: set<nat> := {};
    while rest != {}
      invariant rest + done == s && rest !! done
      invariant forall x :: x in kept <==> x in s && (x in rest || x !in a0.Keys)
      invariant a.adj == WithArcs(a0, EdgesArcs(Star(u, done * a0.Keys), true))
    {
      var v :| v in rest;
      var added := MaterialiseOne(u, v, a, a0, done);
      if added {
        kept := kept - {v};
      }
      rest := rest - {v};
      done := done + {v};
    }
    assert done == s;
    assert kept == s - a0.Keys;
  }

  /** `addRemainingEdges(u, ...)`: the deferred edges from u to vertices
      already in A become undirected edges of A and leave the ledger; the
      other deferred edges of u stay, and an emptied set stays too. */
  method AddRemainingEdges(u: nat, ledger: Adjacency, a: Graph) returns (r: Adjacency)
    requires u in a.adj
    modifies a
    ensures a.adj == WithArcs(old(a.adj), EdgesArcs(Star(u, Nbrs(ledger, u) * old(a.adj).Keys), true))
    ensures r == Taken(ledger, u, old(a.adj).Keys)
  {
    r := ledger;
    if u in ledger {
      assert Nbrs(ledger, u) == ledger[u];
      var kept := Materialise(u, ledger[u], a);
      r := ledger[u := kept];
    } else {
      WithNoArcs(a.adj);
      assert Nbrs(ledger, u) * a.adj.Keys == {};
      assert Star(u, {}) == {};
      assert EdgesArcs({}, true) == {};
    }
  }

  /** The two `addRemainingEdge` calls of `processRegions` for one edge u - v
      of B: the ledger records it both ways. */
  method DeferEdge(e: Edge, ledger: Adjacency) returns (r: Adjacency)
    ensures r == WithArcs(ledger, EdgeArcs(e.u, e.v, true))
  {
    r := AddRemainingEdge(e.u, e.v, ledger);
    r := AddRemainingEdge(e.v, e.u, r);
    RecordBoth(ledger, e.u, e.v);
  }

  /** The loop of `processRegions` over u's edges in B, when no other end is
      in A (MoveFacts shows that this always holds there, so the branch that
      inserts the edge into A is dead): each edge is deferred both ways. */
  method DeferEdges(edges: set<Edge>, a: Graph, ledger: Adjacency) returns (r: Adjacency)
    requires forall e :: e in edges ==> e.v !in a.adj
    ensures r == WithArcs(ledger, EdgesArcs(edges, true))
  {
    r := ledger;
    WithNoArcs(ledger);
    assert EdgesArcs({}, true) == {};
    var rest := edges;
    assert edges - rest == {};
    while rest != {}
      invariant rest <= edges
      invariant r == WithArcs(ledger, EdgesArcs(edges - rest, true))
    {
      var e :| e in rest;
      ghost var done := edges - rest;
      if a.Contains(e.v) {
        assert false;
      } else {
        r := DeferEdge(e, r);
        UndirectedStep(ledger, done, e);
      }
      rest := rest - {e};
      assert edges - rest == done + {e};
    }
    assert edges - rest == edges;
  }

  // ---------------------------------------------------------------------
  // processRegions
  // ---------------------------------------------------------------------

  /** The first half of an iteration of `processRegions`: u joins A with
      the deferred edges to A's vertices, u's edges in B are deferred, and u
      leaves B. adjU is u's edge set in B, kept for a rollback. */
  method MoveIn(u: nat, a: Graph, b: Graph, ledger: Adjacency)
    returns (r: Adjacency, adjU: Option<set<Edge>>)
    requires a != b && MoveReady(a.adj, b.adj, ledger, u)
    modifies a, b
    ensures adjU == Some(Star(u, old(b.adj)[u]))
    ensures a.adj == Joined(old(a.adj), u, Nbrs(ledger, u) * old(a.adj).Keys)
    ensures b.adj == WithoutVertex(old(b.adj), u)
    ensures r == MovedLedger(ledger, u, old(a.adj).Keys, old(b.adj)[u])
  {
    ghost var a0, b0 := a.adj, b.adj;
    a.AddVertex(u);
    r := AddRemainingEdges(u, ledger, a);
    assert Nbrs(ledger, u) * (a0.Keys + {u}) == Nbrs(ledger, u) * a0.Keys;
    adjU := b.AdjEdges(u);
    if adjU.Some? {
      r := DeferEdges(adjU.value, a, r);
      b.RemoveVertex(u);
    }
  }

  /** The rollback of a rejected move: u leaves A, rejoins B and gets its
      old edges in B back, which restores both graphs exactly. */
  method Rollback(u: nat, a: Graph, b: Graph, adjU: Option<set<Edge>>,
                  ghost a0: Adjacency, ghost b0: Adjacency, ghost nbrs: set<nat>)
    requires a != b
    requires u !in a0 && nbrs <= a0.Keys && u !in nbrs && forall w :: w in a0 ==> u !in a0[w]
    requires Symmetric(b0) && u in b0 && u !in b0[u] && adjU == Some(Star(u, b0[u]))
    requires a.adj == Joined(a0, u, nbrs) && b.adj == WithoutVertex(b0, u)
    modifies a, b
    ensures a.adj == a0 && b.adj == b0
  {
    RollbackA(a0, u, nbrs);
    a.RemoveVertex(u);
    b.AddVertex(u);
    if adjU.Some? {
      b.AddEdges(adjU.value, true);
    }
    RollbackB(b0, u);
  }

  /** One iteration of `processRegions` up to the recomputation of the
      cross graph: move u into A, score the result against the cross graph
      of the partition before the move, and keep the move only on a strict
      improvement; otherwise roll back. */
  method TryMove(u: nat, a: Graph, b: Graph, ab: Graph, ledger: Adjacency, cn: Option<real>,
                 ghost orig: Adjacency)
    returns (r: Adjacency, newCN: Option<real>, accepted: bool)
    requires a != b && ab != a && ab != b
    requires Undirected(orig) && Regions(orig, a.adj, b.adj, ledger) && u in b.adj
    modifies a, b
    ensures Regions(orig, a.adj, b.adj, r)
    ensures var moved := Score(|EdgePairs(Joined(old(a.adj), u, Nbrs(ledger, u) * old(a.adj).Keys))|,
                               |EdgePairs(WithoutVertex(old(b.adj), u))|, |EdgePairs(ab.adj)|);
      (accepted <==> Improves(moved, cn)) && (accepted ==> newCN == moved)
    ensures accepted ==> a.adj == Joined(old(a.adj), u, Nbrs(ledger, u) * old(a.adj).Keys)
    ensures accepted ==> b.adj == WithoutVertex(old(b.adj), u)
    ensures !accepted ==> newCN == cn && a.adj == old(a.adj) && b.adj == old(b.adj)
    ensures r == MovedLedger(ledger, u, old(a.adj).Keys, old(b.adj)[u])
  {
    ghost var a0, b0 := a.adj, b.adj;
    ghost var nbrs := Nbrs(ledger, u) * a0.Keys;
    MoveFacts(orig, a0, b0, ledger, u);
    var adjU;
    r, adjU := MoveIn(u, a, b, ledger);
    var moved := CalculateCN(a, b, ab);
    if Improves(moved, cn) {
      newCN, accepted := moved, true;
      AcceptedRegions(orig, a0, b0, ledger, u);
    } else {
      newCN, accepted := cn, false;
      Rollback(u, a, b, adjU, a0, b0, nbrs);
      RejectedRegions(orig, a0, b0, ledger, u);
    }
  }

  /** One iteration of the loop of `processRegions` for u, with the score
      trail carried along: the new state is `Step` of the old one. */
  method ProcessVertex(u: nat, a: Graph, b: Graph, ab: Graph, ledger: Adjacency, cn: Option<real>,
                       ghost accepted: seq<real>, ghost orig: Adjacency, ghost cn0: Option<real>)
    returns (ledger': Adjacency, cn': Option<real>, ghost accepted': seq<real>)
    requires a != b && ab != a && ab != b
    requires Undirected(orig) && Regions(orig, a.adj, b.adj, ledger) && u in b.adj
    requires ab.adj == CrossAdjacency(orig, a.adj.Keys, b.adj.Keys)
    requires ScoreTrail(cn0, accepted, cn)
    modifies a, b
    ensures RunState(a.adj, b.adj, ledger', cn', accepted')
         == Step(orig, RunState(old(a.adj), old(b.adj), ledger, cn, accepted), u)
    ensures Regions(orig, a.adj, b.adj, ledger') && ScoreTrail(cn0, accepted', cn')
    ensures old(a.adj).Keys <= a.adj.Keys && old(b.adj).Keys - {u} <= b.adj.Keys
    ensures cn0.None? ==> accepted' == accepted && a.adj == old(a.adj) && b.adj == old(b.adj)
  {
    var kept;
    ledger', cn', kept := TryMove(u, a, b, ab, ledger, cn, orig);
    accepted' := accepted;
    if kept {
      TrailAccept(cn0, accepted, cn, cn');
      accepted' := accepted + [cn'.value];
      JoinedKeys(old(a.adj), u, Nbrs(ledger, u) * old(a.adj).Keys);
    }
  }

  /** `processRegions`: every vertex of B, in the arbitrary order of a hash
      set, is tried in A. The run is returned as the ghost `order` in which
      the vertices were tried (each vertex of the old B once) and the ghost
      trail of accepted scores. The final A, B, score and trail are those of
      `Run` over that order from the old regions, an empty ledger and the
      initial score; so A and B stay a partition of the same vertices, A
      only grows, A keeps only original edges, B keeps exactly the original
      edges among its vertices, the accepted scores strictly increase from
      the initial one, and the result is the last accepted score. When the
      initial score is NaN (A has no edges at all), no move is accepted and
      both graphs end as they started. */
  method ProcessRegions(input: seq<seq<nat>>, a: Graph, b: Graph)
    returns (cn: Option<real>, ghost accepted: seq<real>, ghost order: seq<nat>)
    requires a != b && WellFormed(input)
    requires Regions(NeighbourAdjacency(input), a.adj, b.adj, map[])
    modifies a, b
    ensures Once(order) && forall x :: x in order <==> x in old(b.adj)
    ensures var cn0 := Score(|EdgePairs(old(a.adj))|, |EdgePairs(old(b.adj))|,
                             |EdgePairs(CrossAdjacency(NeighbourAdjacency(input), old(a.adj).Keys, old(b.adj).Keys))|);
      var run := Run(NeighbourAdjacency(input), RunState(old(a.adj), old(b.adj), map[], cn0, []), order);
      a.adj == run.a && b.adj == run.b && cn == run.cn && accepted == run.accepted
    ensures Regions(NeighbourAdjacency(input), a.adj, b.adj, map[])
    ensures Symmetric(b.adj) && old(a.adj).Keys <= a.adj.Keys
    ensures var cn0 := Score(|EdgePairs(old(a.adj))|, |EdgePairs(old(b.adj))|,
                             |EdgePairs(CrossAdjacency(NeighbourAdjacency(input), old(a.adj).Keys, old(b.adj).Keys))|);
      ScoreTrail(cn0, accepted, cn)
      && (cn0.None? ==> accepted == [] && a.adj == old(a.adj) && b.adj == old(b.adj))
  {
    ghost var orig := NeighbourAdjacency(input);
    NeighbourAdjacencyWellFormed(input);
    var ab := GetABEdges(input, a, b);
    cn := CalculateCN(a, b, ab);
    ghost var cn0 := cn;
    var rest := b.Vertices();
    var ledger: Adjacency := map[];
    accepted, order := [], [];
    ghost var s0 := RunState(a.adj, b.adj, ledger, cn, accepted);
    while rest != {}
      invariant fresh(ab)
      invariant ab.adj == CrossAdjacency(orig, a.adj.Keys, b.adj.Keys)
      invariant Regions(orig, a.adj, b.adj, ledger)
      invariant rest <= b.adj.Keys && old(a.adj).Keys <= a.adj.Keys
      invariant Once(order) && forall x :: x in order <==> x in old(b.adj) && x !in rest
      invariant RunState(a.adj, b.adj, ledger, cn, accepted) == Run(orig, s0, order)
      invariant ScoreTrail(cn0, accepted, cn)
      invariant cn0.None? ==> accepted == [] && a.adj == old(a.adj) && b.adj == old(b.adj)
    {
      var u :| u in rest;
      ledger, cn, accepted := ProcessVertex(u, a, b, ab, ledger, cn, accepted, orig, cn0);
      OnceSnoc(order, u);
      RunSnoc(orig, s0, order, u);
      order := order + [u];
      rest := rest - {u};
      ab := GetABEdges(input, a, b);
    }
    ExactSymmetric(orig, b.adj);
  }

  /** The part of `execute` that separates the regions: build A and B from
      the seeds and run `processRegions` on them. */
  method SeparateRegions(input: seq<seq<nat>>, seeds: set<nat>)
    returns (a: Graph, b: Graph, cn: Option<real>)
    requires WellFormed(input)
    ensures fresh(a) && fresh(b) && a != b
    ensures a.adj.Keys !! b.adj.Keys
    ensures forall u: nat :: u in a.adj || u in b.adj <==> u < |input|
    ensures forall u: nat :: u < |input| && u in seeds ==> u in a.adj
    ensures Sound(NeighbourAdjacency(input), a.adj) && Symmetric(a.adj)
    ensures Exact(NeighbourAdjacency(input), b.adj) && Symmetric(b.adj)
  {
    a, b := CreateGraphsAB(input, seeds);
    SplitRegions(input, seeds);
    ghost var accepted, order;
    cn, accepted, order := ProcessRegions(input, a, b);
    NeighbourAdjacencyWellFormed(input);
  }

  // ---------------------------------------------------------------------
  // sybilCorrectness and honestCorrectness
  // ---------------------------------------------------------------------

  /** `sybilCorrectness`: the share of the listed sybil ids found in B. */
  method SybilCorrectness(b: Graph, sybil: seq<int>) returns (r: Option<real>)
    ensures r == Ratio(Hits(sybil, b.adj.Keys), |sybil|)
  {
    var correctCount := 0;
    var i := 0;
    while i < |sybil|
      invariant 0 <= i <= |sybil|
      invariant correctCount == Hits(sybil[..i], b.adj.Keys)
    {
      assert sybil[..i + 1][..i] == sybil[..i];
      if sybil[i] >= 0 && b.Contains(sybil[i] as nat) {
        correctCount := correctCount + 1;
      }
      i := i + 1;
    }
    assert sybil[..i] == sybil;
    r := Ratio(correctCount, |sybil|);
  }

  /** `honestCorrectness`: the vertices of A not listed as sybil, per
      honest vertex of the original graph. */
  method HonestCorrectness(a: Graph, sybil: seq<int>, vertexCount: int) returns (r: Option<real>)
    ensures r == Ratio(|a.adj.Keys| - Hits(sybil, a.adj.Keys), vertexCount - |sybil|)
  {
    var correctCount: int := a.VertexCount();
    var i := 0;
    while i < |sybil|
      invariant 0 <= i <= |sybil|
      invariant correctCount == |a.adj.Keys| - Hits(sybil[..i], a.adj.Keys)
    {
      assert sybil[..i + 1][..i] == sybil[..i];
      if sybil[i] >= 0 && a.Contains(sybil[i] as nat) {
        correctCount := correctCount - 1;
      }
      i := i + 1;
    }
    assert sybil[..i] == sybil;
    r := Ratio(correctCount, vertexCount - |sybil|);
  }
}
