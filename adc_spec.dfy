/**
  The value-level model of the region growing in ADC.java: the split of the
  vertex ids 0 .. n - 1 by a seed set into an honest candidate A and the
  rest B, the cross edges between them, the score of a partition, the
  deferred-edge ledger, and the structural invariant every move keeps and
  every rejected move restores. The input adjacency list is described by
  NeighbourAdjacency; "orig" below is that graph.
*/
module AdcSpec {
  import opened GraphSpec
  import opened GraphMeasures

  // ---------------------------------------------------------------------
  // createGraphsAB
  // ---------------------------------------------------------------------

  /** A as `createGraphsAB` builds it: every seed id below n, with the
      listed neighbours that are seeds. */
  function SeedPart(input: seq<seq<nat>>, seeds: set<nat>): (r: Adjacency)
    ensures forall i: nat :: i in r <==> i < |input| && i in seeds
  {
    map i: nat | i < |input| && i in seeds :: Elems(input[i]) * seeds
  }

  /** B as `createGraphsAB` builds it: every other id below n, with the
      listed neighbours that are not seeds. */
  function RestPart(input: seq<seq<nat>>, seeds: set<nat>): (r: Adjacency)
    ensures forall i: nat :: i in r <==> i < |input| && i !in seeds
  {
    map i: nat | i < |input| && i !in seeds :: Elems(input[i]) - seeds
  }

  // ---------------------------------------------------------------------
  // The region invariant
  // ---------------------------------------------------------------------

  /** The input graph is undirected and loop-free. */
  ghost predicate Undirected(orig: Adjacency)
  {
    Symmetric(orig) && LoopFree(orig)
  }

  /** g holds every original edge between its own vertices, and no other. */
  ghost predicate Exact(orig: Adjacency, g: Adjacency)
  {
    forall x :: x in g ==> x in orig && g[x] == orig[x] * g.Keys
  }

  /** Every edge of g is an original edge between vertices of g. */
  ghost predicate Sound(orig: Adjacency, g: Adjacency)
  {
    forall x :: x in g ==> x in orig && g[x] <= orig[x] * g.Keys
  }

  /** Every arc the ledger holds is an original arc. */
  ghost predicate LedgerSound(orig: Adjacency, ledger: Adjacency)
  {
    forall x :: x in ledger ==> ledger[x] <= Nbrs(orig, x)
  }

  /** The invariant of `processRegions`: A and B split the vertices of the
      input graph; A is symmetric and holds only original edges; B holds
      exactly the original edges among its vertices; the ledger holds only
      original arcs. */
  ghost predicate Regions(orig: Adjacency, a: Adjacency, b: Adjacency, ledger: Adjacency)
  {
    a.Keys !! b.Keys && a.Keys + b.Keys == orig.Keys
    && Sound(orig, a) && Symmetric(a) && Exact(orig, b) && LedgerSound(orig, ledger)
  }

  /** An exact region of an undirected graph is undirected itself. */
  lemma ExactSymmetric(orig: Adjacency, g: Adjacency)
    requires Symmetric(orig) && Exact(orig, g)
    ensures Symmetric(g)
  {
    forall x, y | x in g && y in g[x]
      ensures y in g && x in g[y]
    {
      assert y in orig[x] * g.Keys;
      assert x in orig[y];
    }
  }

  /** `createGraphsAB` on a well-formed list: A and B split 0 .. n - 1, both
      hold exactly the original edges among their vertices, and so the
      region invariant holds with an empty ledger. */
  lemma SplitRegions(input: seq<seq<nat>>, seeds: set<nat>)
    requires WellFormed(input)
    ensures Exact(NeighbourAdjacency(input), SeedPart(input, seeds))
    ensures Regions(NeighbourAdjacency(input), SeedPart(input, seeds), RestPart(input, seeds), map[])
  {
    var orig, a, b := NeighbourAdjacency(input), SeedPart(input, seeds), RestPart(input, seeds);
    NeighbourAdjacencyWellFormed(input);
    forall x | x in a
      ensures x in orig && a[x] == orig[x] * a.Keys
    {
      forall y | y in orig[x]
        ensures y in a.Keys <==> y in seeds
      {
        var k :| 0 <= k < |input[x]| && input[x][k] == y;
      }
    }
    forall x | x in b
      ensures x in orig && b[x] == orig[x] * b.Keys
    {
      forall y | y in orig[x]
        ensures y in b.Keys <==> y !in seeds
      {
        var k :| 0 <= k < |input[x]| && input[x][k] == y;
      }
    }
    assert a.Keys + b.Keys == orig.Keys;
    ExactSymmetric(orig, a);
  }

  // ---------------------------------------------------------------------
  // getABEdges
  // ---------------------------------------------------------------------

  /** u - v joins the two regions. */
  predicate Crosses(u: nat, v: nat, inA: set<nat>, inB: set<nat>)
  {
    (u in inA && v in inB) || (v in inA && u in inB)
  }

  /** The original neighbours of u across the partition. */
  function CrossNbrs(orig: Adjacency, u: nat, inA: set<nat>, inB: set<nat>): set<nat>
  {
    set v | v in Nbrs(orig, u) && Crosses(u, v, inA, inB)
  }

  /** What `getABEdges` builds: the original arcs that cross the partition,
      with a vertex only when it has at least one of them. */
  function CrossAdjacency(orig: Adjacency, inA: set<nat>, inB: set<nat>): Adjacency
  {
    map u | u in orig && CrossNbrs(orig, u, inA, inB) != {} :: CrossNbrs(orig, u, inA, inB)
  }

  /** u -> v is a cross arc exactly when it is an original arc between A and
      B; a vertex of the cross graph always has a cross arc; and the cross
      graph of an undirected graph is undirected. */
  lemma CrossAdjacencyArcs(orig: Adjacency, inA: set<nat>, inB: set<nat>, u: nat, v: nat)
    ensures v in Nbrs(CrossAdjacency(orig, inA, inB), u) <==> v in Nbrs(orig, u) && Crosses(u, v, inA, inB)
    ensures u in CrossAdjacency(orig, inA, inB) ==> CrossAdjacency(orig, inA, inB)[u] != {}
    ensures Symmetric(orig) && v in Nbrs(CrossAdjacency(orig, inA, inB), u) ==>
      u in Nbrs(CrossAdjacency(orig, inA, inB), v)
  {
    var c := CrossAdjacency(orig, inA, inB);
    if v in Nbrs(orig, u) && Crosses(u, v, inA, inB) {
      assert v in CrossNbrs(orig, u, inA, inB);
      if Symmetric(orig) {
        assert u in CrossNbrs(orig, v, inA, inB);
      }
    }
  }

  /** The listed neighbours v of u that cross the partition: what the inner
      loop of `getABEdges` collects for u. */
  function ListedCrossing(u: nat, l: seq<nat>, inA: set<nat>, inB: set<nat>): set<nat>
  {
    set v | v in l && Crosses(u, v, inA, inB)
  }

  /** One more listed neighbour. */
  lemma ListedCrossingStep(u: nat, l: seq<nat>, k: nat, inA: set<nat>, inB: set<nat>)
    requires k < |l|
    ensures ListedCrossing(u, l[..k + 1], inA, inB)
         == ListedCrossing(u, l[..k], inA, inB) + (if Crosses(u, l[k], inA, inB) then {l[k]} else {})
  {
    assert l[..k + 1] == l[..k] + [l[k]];
  }

  /** The cross graph `getABEdges` has built after the lists of 0 .. i - 1. */
  function CrossUpTo(input: seq<seq<nat>>, i: nat, inA: set<nat>, inB: set<nat>): Adjacency
    requires i <= |input|
  {
    map u: nat | u < i && ListedCrossing(u, input[u], inA, inB) != {} :: ListedCrossing(u, input[u], inA, inB)
  }

  /** Scanning every list gives the cross graph of the input graph. */
  lemma CrossUpToAll(input: seq<seq<nat>>, inA: set<nat>, inB: set<nat>)
    ensures CrossUpTo(input, |input|, inA, inB) == CrossAdjacency(NeighbourAdjacency(input), inA, inB)
  {
    var orig := NeighbourAdjacency(input);
    var l, r := CrossUpTo(input, |input|, inA, inB), CrossAdjacency(orig, inA, inB);
    forall u: nat | u < |input|
      ensures ListedCrossing(u, input[u], inA, inB) == CrossNbrs(orig, u, inA, inB)
    {
      assert Nbrs(orig, u) == Elems(input[u]);
    }
    assert l.Keys == r.Keys;
  }

  // ---------------------------------------------------------------------
  // calculateCN
  // ---------------------------------------------------------------------

  /** `calculateCN` over the edge counts of A, B and the cross graph, as a
      real: with eA = eAA + eAB and eB = eBB + eAB it is
      eAA / eA - eA * eB / (eA * eA + eA * eB). None stands for the NaN the
      double expression yields when eA is 0. */
  function Score(eAA: nat, eBB: nat, eAB: nat): (r: Option<real>)
    ensures r.None? <==> eAA + eAB == 0
  {
    if eAA + eAB == 0 then None
    else
      var eA, eB := (eAA + eAB) as real, (eBB + eAB) as real;
      Some(eAA as real / eA - (eA * eB) / (eA * eA + eA * eB))
  }

  /** The score is the share of A's edges that stay inside A minus the share
      of all edges touching B, so it lies in (-1, 1]. */
  lemma ScoreBounds(eAA: nat, eBB: nat, eAB: nat)
    requires eAA + eAB > 0
    ensures Score(eAA, eBB, eAB).value
         == eAA as real / (eAA + eAB) as real - (eBB + eAB) as real / (eAA + eBB + 2 * eAB) as real
    ensures -1.0 < Score(eAA, eBB, eAB).value <= 1.0
  {
    var eA, eB := (eAA + eAB) as real, (eBB + eAB) as real;
    ScoreForm(eAA as real, eA, eB);
    ScoreRange(eAA as real, eA, eB);
    assert (eAA + eBB + 2 * eAB) as real == eA + eB;
  }

  /** A common positive factor cancels. */
  lemma CancelCommon(a: real, b: real, c: real)
    requires a > 0.0 && c > 0.0
    ensures a * c > 0.0
    ensures (a * b) / (a * c) == b / c
  {
    var q := b / c;
    assert q * c == b;
    assert (a * c) * q == a * b;
  }

  /** The second term of the score is the share of the edges touching B. */
  lemma ScoreForm(x: real, eA: real, eB: real)
    requires eA > 0.0 && eB >= 0.0
    ensures x / eA - (eA * eB) / (eA * eA + eA * eB) == x / eA - eB / (eA + eB)
  {
    var s := eA + eB;
    var den := eA * eA + eA * eB;
    assert den == eA * s;
    CancelCommon(eA, eB, s);
    var q := eB / s;
    assert den * q == eA * eB;
  }

  /** A share minus a share below 1 lies in (-1, 1]. */
  lemma ScoreRange(x: real, eA: real, eB: real)
    requires 0.0 <= x <= eA && eA > 0.0 && eB >= 0.0
    ensures -1.0 < x / eA - eB / (eA + eB) <= 1.0
  {
    FractionBounds(x, eA);
    FractionBounds(eB, eA + eB);
  }

  /** The test `newCN > CN` of `processRegions`: false whenever either side
      is NaN. */
  predicate Improves(newCN: Option<real>, cn: Option<real>)
  {
    newCN.Some? && cn.Some? && newCN.value > cn.value
  }

  /** Strictly increasing scores. */
  ghost predicate Increasing(s: seq<real>)
  {
    forall i, j :: 0 <= i < j < |s| ==> s[i] < s[j]
  }

  // ---------------------------------------------------------------------
  // One move: u from B into A
  // ---------------------------------------------------------------------

  /** `addVertex(u)` followed by the undirected edges u - v for v in L: what
      A becomes when u joins it with the materialised neighbours L, and what
      B becomes when u is put back with its old neighbours. */
  function Joined(g: Adjacency, u: nat, nbrs: set<nat>): Adjacency
  {
    WithArcs(WithVertex(g, u), EdgesArcs(Star(u, nbrs), true))
  }

  /** The arcs of the undirected star u - L from w. */
  lemma StarTargets(u: nat, nbrs: set<nat>, w: nat)
    requires u !in nbrs
    ensures Targets(EdgesArcs(Star(u, nbrs), true), w)
         == (if w == u then nbrs else {}) + (if w in nbrs then {u} else {})
  {
    var arcs := EdgesArcs(Star(u, nbrs), true);
    if w == u {
      forall x | x in nbrs
        ensures x in Targets(arcs, w)
      {
        assert Edge(u, x) in arcs;
      }
    }
    if w in nbrs {
      assert Edge(w, u) in arcs;
    }
  }

  /** The shape of Joined: u gets exactly L, every member of L gains u, and
      nothing else changes. */
  lemma JoinedShape(g: Adjacency, u: nat, nbrs: set<nat>)
    requires u !in g && nbrs <= g.Keys && u !in nbrs
    ensures Joined(g, u, nbrs).Keys == g.Keys + {u}
    ensures Joined(g, u, nbrs)[u] == nbrs
    ensures forall w :: w in g ==> Joined(g, u, nbrs)[w] == if w in nbrs then g[w] + {u} else g[w]
  {
    var g1, arcs := WithVertex(g, u), EdgesArcs(Star(u, nbrs), true);
    var r := WithArcs(g1, arcs);
    assert Sources(arcs) <= g.Keys + {u};
    assert r.Keys == g.Keys + {u};
    NbrsWithArcs(g1, arcs, u);
    StarTargets(u, nbrs, u);
    assert r[u] == Nbrs(r, u);
    forall w | w in g
      ensures r[w] == if w in nbrs then g[w] + {u} else g[w]
    {
      NbrsWithArcs(g1, arcs, w);
      StarTargets(u, nbrs, w);
      assert r[w] == Nbrs(r, w);
    }
  }

  /** Removing a vertex u that was just added with the neighbours L gives
      back the graph it was added to. */
  lemma WithoutAddedVertex(g: Adjacency, r: Adjacency, u: nat, nbrs: set<nat>)
    requires u !in g && forall w :: w in g ==> u !in g[w]
    requires r.Keys == g.Keys + {u} && r[u] == nbrs
    requires forall w :: w in g ==> r[w] == if w in nbrs then g[w] + {u} else g[w]
    ensures WithoutVertex(r, u) == g
  {
    var back := WithoutVertex(r, u);
    assert back.Keys == g.Keys;
    forall w | w in g
      ensures back[w] == g[w]
    {
      if w in nbrs {
        assert (g[w] + {u}) - {u} == g[w];
      }
    }
  }

  /** A rejected move, on A's side: removing u again restores A exactly,
      and `removeVertex(u)` may run. */
  lemma RollbackA(g: Adjacency, u: nat, nbrs: set<nat>)
    requires u !in g && nbrs <= g.Keys && u !in nbrs
    requires forall w :: w in g ==> u !in g[w]
    ensures CanRemoveVertex(Joined(g, u, nbrs), u)
    ensures WithoutVertex(Joined(g, u, nbrs), u) == g
  {
    JoinedShape(g, u, nbrs);
    WithoutAddedVertex(g, Joined(g, u, nbrs), u, nbrs);
  }

  /** A rejected move, on B's side: u, removed, is put back with the edges
      to its old neighbours, which restores B exactly. */
  lemma RollbackB(b: Adjacency, u: nat)
    requires Symmetric(b) && u in b && u !in b[u]
    ensures Joined(WithoutVertex(b, u), u, b[u]) == b
  {
    var w0 := WithoutVertex(b, u);
    assert b[u] <= w0.Keys;
    JoinedShape(w0, u, b[u]);
    var r := Joined(w0, u, b[u]);
    assert r.Keys == b.Keys;
    forall w | w in b
      ensures r[w] == b[w]
    {
      if w != u {
        RestoredNeighbours(b, u, w);
      }
    }
  }

  /** Putting u back into the set of a vertex w other than u that lost it
      restores w's set. */
  lemma RestoredNeighbours(b: Adjacency, u: nat, w: nat)
    requires Symmetric(b) && u in b && w in b && w != u
    ensures (if w in b[u] then (b[w] - {u}) + {u} else b[w]) == b[w]
  {
    if w in b[u] {
      assert u in b[w];
      assert (b[w] - {u}) + {u} == b[w];
    }
  }

  /** An accepted move keeps A sound and symmetric when the neighbours L
      that u brings along are original neighbours of u already in A. */
  lemma JoinedSound(orig: Adjacency, g: Adjacency, u: nat, nbrs: set<nat>)
    requires Undirected(orig) && Sound(orig, g) && Symmetric(g)
    requires u in orig && u !in g && nbrs <= orig[u] * g.Keys
    ensures Sound(orig, Joined(g, u, nbrs)) && Symmetric(Joined(g, u, nbrs))
  {
    JoinedShape(g, u, nbrs);
    JoinedKeepsSound(orig, g, u, nbrs);
    JoinedKeepsSymmetric(g, u, nbrs);
  }

  lemma JoinedKeepsSound(orig: Adjacency, g: Adjacency, u: nat, nbrs: set<nat>)
    requires Undirected(orig) && Sound(orig, g)
    requires u in orig && u !in g && nbrs <= orig[u] * g.Keys
    requires Joined(g, u, nbrs).Keys == g.Keys + {u} && Joined(g, u, nbrs)[u] == nbrs
    requires forall w :: w in g ==> Joined(g, u, nbrs)[w] == if w in nbrs then g[w] + {u} else g[w]
    ensures Sound(orig, Joined(g, u, nbrs))
  {
    var r := Joined(g, u, nbrs);
    forall x | x in r
      ensures x in orig && r[x] <= orig[x] * r.Keys
    {
      if x != u && x in nbrs {
        assert u in orig[x];
      }
    }
  }

  lemma JoinedKeepsSymmetric(g: Adjacency, u: nat, nbrs: set<nat>)
    requires Symmetric(g) && u !in g && nbrs <= g.Keys
    requires Joined(g, u, nbrs).Keys == g.Keys + {u} && Joined(g, u, nbrs)[u] == nbrs
    requires forall w :: w in g ==> Joined(g, u, nbrs)[w] == if w in nbrs then g[w] + {u} else g[w]
    ensures Symmetric(Joined(g, u, nbrs))
  {
    var r := Joined(g, u, nbrs);
    forall x, y | x in r && y in r[x]
      ensures y in r && x in r[y]
    {
      if x != u && y != u {
        assert y in g[x];
      }
    }
  }

  /** Removing u from an exact region leaves it exact. */
  lemma ExactWithoutVertex(orig: Adjacency, b: Adjacency, u: nat)
    requires Symmetric(orig) && Exact(orig, b)
    ensures Exact(orig, WithoutVertex(b, u))
  {
    var r := WithoutVertex(b, u);
    if u in b {
      forall w | w in r
        ensures w in orig && r[w] == orig[w] * r.Keys
      {
        if w !in b[u] {
          assert w !in orig[u];
          assert u in orig[w] ==> w in Nbrs(orig, u);
        }
      }
    }
  }

  /** What moving u from B to A relies on: u is a vertex of B, its
      B-neighbours lie outside A and are other than u, B is symmetric, no
      set of A holds u, and no deferred edge of u is a self-loop. */
  ghost predicate MoveReady(a: Adjacency, b: Adjacency, ledger: Adjacency, u: nat)
  {
    u in b
    && (forall v :: v in b[u] ==> v !in a.Keys + {u})
    && CanRemoveVertex(b, u) && Symmetric(b)
    && (forall w :: w in a ==> u !in a[w])
    && u !in Nbrs(ledger, u)
  }

  /** The dead branch: every B-neighbour of u lies outside A + {u}, and u may
      be removed from B. */
  lemma MoveFacts(orig: Adjacency, a: Adjacency, b: Adjacency, ledger: Adjacency, u: nat)
    requires Undirected(orig) && Regions(orig, a, b, ledger) && u in b
    ensures MoveReady(a, b, ledger, u)
  {
    ExactSymmetric(orig, b);
    assert b[u] == orig[u] * b.Keys;
  }

  /** Inserting one more undirected edge after a set of them. */
  lemma UndirectedStep(g: Adjacency, done: set<Edge>, e: Edge)
    ensures WithArcs(WithArcs(g, EdgesArcs(done, true)), EdgeArcs(e.u, e.v, true))
         == WithArcs(g, EdgesArcs(done + {e}, true))
  {
    WithArcsTwice(g, EdgesArcs(done, true), EdgeArcs(e.u, e.v, true));
    EdgesArcsAddOne(done, e, true);
  }

  /** Edges from a vertex u to vertices of g add no vertex to g. */
  lemma StarKeepsKeys(g: Adjacency, u: nat, nbrs: set<nat>)
    requires u in g && nbrs <= g.Keys
    ensures WithArcs(g, EdgesArcs(Star(u, nbrs), true)).Keys == g.Keys
  {
    assert Sources(EdgesArcs(Star(u, nbrs), true)) <= g.Keys;
  }

  /** Before the first deferred entry, nothing has been materialised. */
  lemma NothingMaterialised(g: Adjacency, u: nat)
    ensures WithArcs(g, EdgesArcs(Star(u, {} * g.Keys), true)) == g
  {
    WithNoArcs(g);
    assert {} * g.Keys == {};
    assert Star(u, {}) == {};
    assert EdgesArcs({}, true) == {};
  }

  /** One more deferred entry v of u materialised in A, or skipped when v
      is not a vertex of A. */
  lemma MaterialiseStep(g: Adjacency, u: nat, done: set<nat>, v: nat)
    requires u in g
    ensures v in g ==>
      WithArcs(WithArcs(g, EdgesArcs(Star(u, done * g.Keys), true)), EdgeArcs(u, v, true))
      == WithArcs(g, EdgesArcs(Star(u, (done + {v}) * g.Keys), true))
    ensures v !in g ==> (done + {v}) * g.Keys == done * g.Keys
    ensures WithArcs(g, EdgesArcs(Star(u, (done + {v}) * g.Keys), true)).Keys == g.Keys
  {
    if v in g {
      UndirectedStep(g, Star(u, done * g.Keys), Edge(u, v));
      StarAddOne(u, done * g.Keys, v);
      assert (done + {v}) * g.Keys == done * g.Keys + {v};
    }
    StarKeepsKeys(g, u, (done + {v}) * g.Keys);
  }

  // ---------------------------------------------------------------------
  // The deferred-edge ledger
  // ---------------------------------------------------------------------

  /** `addRemainingEdges(u, ...)` on the ledger: the materialised members
      (those in K, the vertices of A) leave u's set; an emptied set stays. */
  function Taken(ledger: Adjacency, u: nat, inA: set<nat>): Adjacency
  {
    if u in ledger then ledger[u := ledger[u] - inA] else ledger
  }

  /** Taking entries out keeps the ledger sound. */
  lemma TakenSound(orig: Adjacency, ledger: Adjacency, u: nat, inA: set<nat>)
    requires LedgerSound(orig, ledger)
    ensures LedgerSound(orig, Taken(ledger, u, inA))
  {
  }

  /** Deferring the undirected edges from u to original neighbours of u keeps
      the ledger sound. */
  lemma DeferredSound(orig: Adjacency, ledger: Adjacency, u: nat, nbrs: set<nat>)
    requires Symmetric(orig) && LedgerSound(orig, ledger) && nbrs <= Nbrs(orig, u)
    ensures LedgerSound(orig, WithArcs(ledger, EdgesArcs(Star(u, nbrs), true)))
  {
    var arcs := EdgesArcs(Star(u, nbrs), true);
    var r := WithArcs(ledger, arcs);
    forall x | x in r
      ensures r[x] <= Nbrs(orig, x)
    {
      forall y | y in r[x]
        ensures y in Nbrs(orig, x)
      {
        WithArcsHas(ledger, arcs, x, y);
        assert r[x] == Nbrs(r, x);
        if Edge(x, y) in arcs && Edge(x, y) !in Star(u, nbrs) {
          assert x in nbrs;
          assert x in orig[u];
        }
      }
    }
  }

  /** Two `addRemainingEdge` calls with swapped ends record both arcs. */
  lemma RecordBoth(ledger: Adjacency, u: nat, v: nat)
    ensures WithArcs(WithArcs(ledger, {Edge(u, v)}), {Edge(v, u)}) == WithArcs(ledger, EdgeArcs(u, v, true))
  {
    WithArcsTwice(ledger, {Edge(u, v)}, {Edge(v, u)});
    assert EdgeArcs(u, v, true) == {Edge(u, v)} + {Edge(v, u)};
  }

  /** One more edge of u deferred both ways. */
  lemma DeferStep(ledger: Adjacency, done: set<Edge>, e: Edge)
    ensures WithArcs(WithArcs(WithArcs(ledger, EdgesArcs(done, true)), {Edge(e.u, e.v)}), {Edge(e.v, e.u)})
         == WithArcs(ledger, EdgesArcs(done + {e}, true))
  {
    RecordBoth(WithArcs(ledger, EdgesArcs(done, true)), e.u, e.v);
    UndirectedStep(ledger, done, e);
  }

  /** The ledger after a move of u, whether accepted or not: u's entries to
      A + {u} are gone and u's edges in B are recorded both ways. */
  function MovedLedger(ledger: Adjacency, u: nat, inA: set<nat>, bNbrs: set<nat>): Adjacency
  {
    WithArcs(Taken(ledger, u, inA + {u}), EdgesArcs(Star(u, bNbrs), true))
  }

  /** The region invariant across an accepted move. */
  lemma AcceptedRegions(orig: Adjacency, a: Adjacency, b: Adjacency, ledger: Adjacency, u: nat)
    requires Undirected(orig) && Regions(orig, a, b, ledger) && u in b
    ensures Regions(orig, Joined(a, u, Nbrs(ledger, u) * a.Keys), WithoutVertex(b, u),
                    MovedLedger(ledger, u, a.Keys, b[u]))
  {
    var nbrs := Nbrs(ledger, u) * a.Keys;
    var j, w := Joined(a, u, nbrs), WithoutVertex(b, u);
    JoinedSound(orig, a, u, nbrs);
    JoinedKeys(a, u, nbrs);
    ExactWithoutVertex(orig, b, u);
    MovedLedgerSound(orig, a, b, ledger, u);
    assert j.Keys !! w.Keys && j.Keys + w.Keys == orig.Keys;
  }

  lemma JoinedKeys(g: Adjacency, u: nat, nbrs: set<nat>)
    requires nbrs <= g.Keys
    ensures Joined(g, u, nbrs).Keys == g.Keys + {u}
  {
    assert Sources(EdgesArcs(Star(u, nbrs), true)) <= g.Keys + {u};
  }

  /** Either way a move ends, the ledger keeps only original arcs. */
  lemma MovedLedgerSound(orig: Adjacency, a: Adjacency, b: Adjacency, ledger: Adjacency, u: nat)
    requires Undirected(orig) && Regions(orig, a, b, ledger) && u in b
    ensures LedgerSound(orig, MovedLedger(ledger, u, a.Keys, b[u]))
  {
    TakenSound(orig, ledger, u, a.Keys + {u});
    assert b[u] <= Nbrs(orig, u);
    DeferredSound(orig, Taken(ledger, u, a.Keys + {u}), u, b[u]);
  }

  /** The region invariant across a rejected move: the graphs are back, and
      the ledger keeps its changes. */
  lemma RejectedRegions(orig: Adjacency, a: Adjacency, b: Adjacency, ledger: Adjacency, u: nat)
    requires Undirected(orig) && Regions(orig, a, b, ledger) && u in b
    ensures Regions(orig, a, b, MovedLedger(ledger, u, a.Keys, b[u]))
  {
    MovedLedgerSound(orig, a, b, ledger, u);
  }

  /** The scores `processRegions` has accepted so far, from the initial
      score cn0 to the current one cn: strictly increasing, the first above
      cn0, the last equal to cn; none when cn is still cn0. */
  ghost predicate ScoreTrail(cn0: Option<real>, accepted: seq<real>, cn: Option<real>)
  {
    Increasing(accepted)
    && (accepted == [] ==> cn == cn0)
    && (accepted != [] ==> cn0.Some? && cn0.value < accepted[0] && cn == Some(accepted[|accepted| - 1]))
  }

  /** An accepted move appends its score to the trail. */
  lemma TrailAccept(cn0: Option<real>, accepted: seq<real>, cn: Option<real>, newCN: Option<real>)
    requires ScoreTrail(cn0, accepted, cn) && Improves(newCN, cn)
    ensures ScoreTrail(cn0, accepted + [newCN.value], newCN)
  {
    var s := accepted + [newCN.value];
    forall i, j | 0 <= i < j < |s|
      ensures s[i] < s[j]
    {
      if j == |s| - 1 && i < |accepted| {
        assert accepted[i] <= accepted[|accepted| - 1];
      }
    }
  }

  // ---------------------------------------------------------------------
  // The run of processRegions
  // ---------------------------------------------------------------------

  /** What `processRegions` carries from one vertex to the next: the two
      regions, the deferred-edge ledger, the current score and the trail of
      the scores accepted so far. */
  datatype RunState = RunState(a: Adjacency, b: Adjacency, ledger: Adjacency,
                               cn: Option<real>, accepted: seq<real>)

  /** One iteration of `processRegions` for u: u joins A with its deferred
      edges to A's vertices, leaves B, and its edges in B are deferred. The
      result is scored against the cross graph of the partition before the
      move and kept only on a strict improvement; otherwise A and B are
      restored. The ledger keeps its changes either way. */
  ghost function Step(orig: Adjacency, s: RunState, u: nat): RunState
  {
    var joined := Joined(s.a, u, Nbrs(s.ledger, u) * s.a.Keys);
    var left := WithoutVertex(s.b, u);
    var moved := Score(|EdgePairs(joined)|, |EdgePairs(left)|,
                       |EdgePairs(CrossAdjacency(orig, s.a.Keys, s.b.Keys))|);
    var ledger := MovedLedger(s.ledger, u, s.a.Keys, Nbrs(s.b, u));
    if Improves(moved, s.cn) then RunState(joined, left, ledger, moved, s.accepted + [moved.value])
    else RunState(s.a, s.b, ledger, s.cn, s.accepted)
  }

  /** The iterations of `processRegions` over the vertices in `order`. */
  ghost function Run(orig: Adjacency, s: RunState, order: seq<nat>): RunState
    decreases |order|
  {
    if order == [] then s
    else Step(orig, Run(orig, s, order[..|order| - 1]), order[|order| - 1])
  }

  /** A run over one more vertex is one more step. */
  lemma RunSnoc(orig: Adjacency, s: RunState, order: seq<nat>, u: nat)
    ensures Run(orig, s, order + [u]) == Step(orig, Run(orig, s, order), u)
  {
    assert (order + [u])[..|order|] == order;
  }

  /** No id occurs twice. */
  ghost predicate Once(order: seq<nat>)
  {
    forall i, j :: 0 <= i < j < |order| ==> order[i] != order[j]
  }

  /** Appending an id not yet listed keeps the ids distinct. */
  lemma OnceSnoc(order: seq<nat>, u: nat)
    requires Once(order) && u !in order
    ensures Once(order + [u])
  {
  }

  /** One iteration keeps the region invariant, only grows A, takes at
      most u out of B, and extends the score trail. */
  lemma StepKeepsRegions(orig: Adjacency, p: RunState, u: nat, cn0: Option<real>)
    requires Undirected(orig) && Regions(orig, p.a, p.b, p.ledger) && ScoreTrail(cn0, p.accepted, p.cn)
    requires u in p.b
    ensures var r := Step(orig, p, u);
      Regions(orig, r.a, r.b, r.ledger) && ScoreTrail(cn0, r.accepted, r.cn)
      && p.a.Keys <= r.a.Keys && p.b.Keys - {u} <= r.b.Keys
  {
    var joined := Joined(p.a, u, Nbrs(p.ledger, u) * p.a.Keys);
    var left := WithoutVertex(p.b, u);
    var moved := Score(|EdgePairs(joined)|, |EdgePairs(left)|,
                       |EdgePairs(CrossAdjacency(orig, p.a.Keys, p.b.Keys))|);
    var ledger := MovedLedger(p.ledger, u, p.a.Keys, p.b[u]);
    if Improves(moved, p.cn) {
      AcceptedRegions(orig, p.a, p.b, p.ledger, u);
      TrailAccept(cn0, p.accepted, p.cn, moved);
      JoinedKeys(p.a, u, Nbrs(p.ledger, u) * p.a.Keys);
      assert Step(orig, p, u) == RunState(joined, left, ledger, moved, p.accepted + [moved.value]);
    } else {
      RejectedRegions(orig, p.a, p.b, p.ledger, u);
      assert Step(orig, p, u) == RunState(p.a, p.b, ledger, p.cn, p.accepted);
    }
  }

  /** A run takes out of B only vertices it tried. */
  lemma {:induction false} RunTakesOnlyTried(orig: Adjacency, s: RunState, order: seq<nat>, x: nat)
    requires x in s.b && x !in order
    ensures x in Run(orig, s, order).b
    decreases |order|
  {
    if order != [] {
      var init := order[..|order| - 1];
      assert x !in init by {
        forall i | 0 <= i < |init| ensures init[i] != x {
          assert order[i] == init[i];
        }
      }
      RunTakesOnlyTried(orig, s, init, x);
    }
  }

  /** Every run over distinct vertices of B keeps the region invariant, only
      grows A, and extends the trail of strictly increasing accepted
      scores. */
  lemma {:induction false} RunKeepsRegions(orig: Adjacency, s: RunState, order: seq<nat>, cn0: Option<real>)
    requires Undirected(orig) && Regions(orig, s.a, s.b, s.ledger) && ScoreTrail(cn0, s.accepted, s.cn)
    requires Once(order) && forall x :: x in order ==> x in s.b
    ensures var r := Run(orig, s, order);
      Regions(orig, r.a, r.b, r.ledger) && ScoreTrail(cn0, r.accepted, r.cn) && s.a.Keys <= r.a.Keys
    decreases |order|
  {
    if order != [] {
      var init, u := order[..|order| - 1], order[|order| - 1];
      assert u !in init by {
        forall i | 0 <= i < |init| ensures init[i] != u {
          assert order[i] == init[i];
        }
      }
      assert Once(init) && forall x :: x in init ==> x in s.b by {
        forall x | x in init ensures x in order {
          var i :| 0 <= i < |init| && init[i] == x;
          assert order[i] == x;
        }
      }
      RunKeepsRegions(orig, s, init, cn0);
      RunTakesOnlyTried(orig, s, init, u);
      StepKeepsRegions(orig, Run(orig, s, init), u, cn0);
    }
  }

  // ---------------------------------------------------------------------
  // sybilCorrectness and honestCorrectness
  // ---------------------------------------------------------------------

  /** The number of indices i with sybil[i] a vertex of `region`: what the
      loops of `sybilCorrectness` and `honestCorrectness` count. */
  function Hits(sybil: seq<int>, region: set<nat>): (r: nat)
    ensures r <= |sybil|
  {
    if |sybil| == 0 then 0
    else
      var x := sybil[|sybil| - 1];
      Hits(sybil[..|sybil| - 1], region) + (if x >= 0 && x as nat in region then 1 else 0)
  }

  /** The listed sybil ids (the non-negative ones). */
  function Ids(sybil: seq<int>): set<nat>
  {
    set i | 0 <= i < |sybil| && sybil[i] >= 0 :: sybil[i] as nat
  }

  /** No id is listed twice. */
  ghost predicate Distinct(sybil: seq<int>)
  {
    forall i, j :: 0 <= i < j < |sybil| ==> sybil[i] != sybil[j]
  }

  /** A sybil id hits at most one of two disjoint regions, so the hits in
      B and the hits in A add up to at most the list's length. */
  lemma {:induction false} HitsDisjoint(sybil: seq<int>, r1: set<nat>, r2: set<nat>)
    requires r1 !! r2
    ensures Hits(sybil, r1) + Hits(sybil, r2) <= |sybil|
    decreases |sybil|
  {
    if |sybil| > 0 {
      HitsDisjoint(sybil[..|sybil| - 1], r1, r2);
    }
  }

  /** The ids of a list with one more entry. */
  lemma IdsSnoc(sybil: seq<int>)
    requires |sybil| > 0
    ensures var x := sybil[|sybil| - 1];
      Ids(sybil) == Ids(sybil[..|sybil| - 1]) + (if x >= 0 then {x as nat} else {})
  {
    var front, x := sybil[..|sybil| - 1], sybil[|sybil| - 1];
    forall y | y in Ids(sybil)
      ensures y in Ids(front) + (if x >= 0 then {x as nat} else {})
    {
      var i :| 0 <= i < |sybil| && sybil[i] >= 0 && y == sybil[i] as nat;
      if i < |front| {
        assert front[i] == sybil[i];
      }
    }
    forall y | y in Ids(front)
      ensures y in Ids(sybil)
    {
      var i :| 0 <= i < |front| && front[i] >= 0 && y == front[i] as nat;
      assert sybil[i] == front[i];
    }
    if x >= 0 {
      assert sybil[|sybil| - 1] == x;
    }
  }

  /** A distinct list's last id is not among the ids before it. */
  lemma LastIsNew(sybil: seq<int>)
    requires Distinct(sybil) && |sybil| > 0 && sybil[|sybil| - 1] >= 0
    ensures sybil[|sybil| - 1] as nat !in Ids(sybil[..|sybil| - 1])
    ensures Distinct(sybil[..|sybil| - 1])
  {
    var front, x := sybil[..|sybil| - 1], sybil[|sybil| - 1];
    assert forall i :: 0 <= i < |front| ==> front[i] == sybil[i] != x;
  }

  /** With distinct ids, the hits are the listed ids in the region. */
  lemma {:induction false} HitsDistinct(sybil: seq<int>, region: set<nat>)
    requires Distinct(sybil)
    ensures Hits(sybil, region) == |Ids(sybil) * region|
    decreases |sybil|
  {
    if |sybil| == 0 {
      assert Ids(sybil) == {};
    } else {
      var front, x := sybil[..|sybil| - 1], sybil[|sybil| - 1];
      assert Distinct(front);
      HitsDistinct(front, region);
      IdsSnoc(sybil);
      if x >= 0 && x as nat in region {
        LastIsNew(sybil);
        assert Ids(sybil) * region == Ids(front) * region + {x as nat};
      } else {
        assert Ids(sybil) * region == Ids(front) * region;
      }
    }
  }

  lemma {:induction false} PositionsCard(n: nat)
    ensures |Positions(n)| == n
  {
    if n > 0 {
      var below := Positions(n - 1);
      PositionsCard(n - 1);
      assert n - 1 !in below;
      assert Positions(n) == below + {n - 1};
      assert |below + {n - 1}| == |below| + 1;
    }
  }

  /** The numerator of `honestCorrectness`, |A| minus the sybil ids found in
      A, counts the honest vertices of A when the ids are distinct vertex
      ids, so it lies between 0 and n - |sybil|. */
  lemma HonestCountBounds(sybil: seq<int>, inA: set<nat>, n: nat)
    requires Distinct(sybil) && forall i :: 0 <= i < |sybil| ==> 0 <= sybil[i] < n
    requires forall x :: x in inA ==> x < n
    ensures 0 <= |inA| - Hits(sybil, inA) <= n - |sybil|
  {
    HitsDistinct(sybil, inA);
    var ids := Ids(sybil);
    assert inA == (ids * inA) + (inA - ids);
    assert |inA| - Hits(sybil, inA) == |inA - ids|;
    var all := Positions(n);
    PositionsCard(n);
    assert ids <= all;
    assert |all - ids| == n - |ids| by {
      assert all == ids + (all - ids);
    }
    SubsetCard(inA - ids, all - ids);
    IdsCard(sybil);
  }

  /** Distinct non-negative ids: as many ids as entries. */
  lemma {:induction false} IdsCard(sybil: seq<int>)
    requires Distinct(sybil) && forall i :: 0 <= i < |sybil| ==> sybil[i] >= 0
    ensures |Ids(sybil)| == |sybil|
    decreases |sybil|
  {
    if |sybil| == 0 {
      assert Ids(sybil) == {};
    } else {
      var front := sybil[..|sybil| - 1];
      LastIsNew(sybil);
      IdsCard(front);
      IdsSnoc(sybil);
    }
  }

  /** A ratio as `sybilCorrectness` and `honestCorrectness` divide floats: None for a zero denominator,
      where the float is NaN or infinite. */
  function Ratio(num: int, den: int): (r: Option<real>)
    ensures r.None? <==> den == 0
    ensures r.Some? ==> r.value * den as real == num as real
  {
    if den == 0 then None else Some(num as real / den as real)
  }

  /** A count between 0 and its positive denominator gives a fraction. */
  lemma RatioBounds(num: int, den: int)
    requires 0 <= num <= den && den > 0
    ensures 0.0 <= Ratio(num, den).value <= 1.0
  {
    var r := Ratio(num, den).value;
    assert r * den as real == num as real;
  }
}
