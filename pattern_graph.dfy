// The pattern graph: chains of nodes stored as paths through a layered
// digraph, where the vertex for a chain's d-th node lies in layer d and a
// vertex may be shared by many chains.

module PatternGraphs {
  import opened Wrappers
  import opened PatternNodes
  import opened Digraphs

  /** A snapshot of the graph: the node of every vertex and the layered structure. */
  datatype GraphValue<N> = GraphValue(nodes: seq<N>, state: LayeredState)

  /** Vertex `v` lies in layer `d` and holds a node equal to `x`. */
  ghost predicate MatchesAt<N>(equiv: (N, N) -> bool, g: GraphValue<N>, d: nat, x: N, v: nat)
  {
    v < |g.nodes| && v < |g.state.layerOf| && g.state.layerOf[v] == d && equiv(x, g.nodes[v])
  }

  /** No two vertices of one layer hold equal nodes. */
  ghost predicate Distinct<N>(equiv: (N, N) -> bool, g: GraphValue<N>)
  {
    forall a, b ::
      0 <= a < |g.nodes| && 0 <= b < |g.nodes| && a < |g.state.layerOf| && b < |g.state.layerOf| &&
      a != b && g.state.layerOf[a] == g.state.layerOf[b] ==>
      !equiv(g.nodes[a], g.nodes[b])
  }

  /** The shape `update` maintains: one node per vertex, the layer rule, and distinct layers. */
  ghost predicate Shaped<N>(equiv: (N, N) -> bool, g: GraphValue<N>)
  {
    |g.nodes| == |g.state.layerOf| && WellLayered(g.state) && Distinct(equiv, g)
  }

  /** The vertex of layer `d` matching `x`, if there is one. */
  ghost function Lookup<N>(equiv: (N, N) -> bool, g: GraphValue<N>, d: nat, x: N): (r: Option<nat>)
    ensures r.Some? ==> MatchesAt(equiv, g, d, x, r.value)
    ensures r.None? ==> forall v :: !MatchesAt(equiv, g, d, x, v)
  {
    if exists v :: MatchesAt(equiv, g, d, x, v) then
      var v :| MatchesAt(equiv, g, d, x, v);
      Some(v)
    else None
  }

  /** An edge joins the two vertices; a missing vertex joins nothing. */
  ghost predicate Connected<N>(g: GraphValue<N>, a: Option<nat>, b: Option<nat>)
  {
    a.Some? && b.Some? && a.value < |g.state.edges| && b.value in g.state.edges[a.value]
  }

  /** The answers of `chain_to_vertices`: the vertex matching each node at its depth. */
  ghost function Traversal<N>(equiv: (N, N) -> bool, g: GraphValue<N>, chain: seq<N>): (r: seq<Option<nat>>)
    ensures |r| == |chain|
  {
    seq(|chain|, d requires 0 <= d < |chain| => Lookup(equiv, g, d, chain[d]))
  }

  /** The connection flags of `chain_to_vertices`: whether each step of the traversal is an edge. */
  ghost function Connections<N>(g: GraphValue<N>, tr: seq<Option<nat>>): (r: seq<bool>)
    ensures |r| == if |tr| == 0 then 0 else |tr| - 1
  {
    if |tr| == 0 then [] else seq(|tr| - 1, d requires 0 <= d < |tr| - 1 => Connected(g, tr[d], tr[d + 1]))
  }

  lemma TraversalSnoc<N>(equiv: (N, N) -> bool, g: GraphValue<N>, chain: seq<N>, k: nat)
    requires k < |chain|
    ensures Traversal(equiv, g, chain[..k + 1]) == Traversal(equiv, g, chain[..k]) + [Lookup(equiv, g, k, chain[k])]
  {
  }

  lemma ConnectionsSnoc<N>(g: GraphValue<N>, tr: seq<Option<nat>>, x: Option<nat>)
    ensures Connections(g, tr + [x]) == Connections(g, tr) + (if |tr| == 0 then [] else [Connected(g, tr[|tr| - 1], x)])
  {
  }

  /** The graph knows every node of the chain at its depth and every step between them. */
  ghost predicate Recognises<N>(equiv: (N, N) -> bool, g: GraphValue<N>, chain: seq<N>)
  {
    (forall d :: 0 <= d < |chain| ==> Lookup(equiv, g, d, chain[d]).Some?) &&
    (forall d :: 0 <= d < |chain| - 1 ==> Connected(g, Lookup(equiv, g, d, chain[d]), Lookup(equiv, g, d + 1, chain[d + 1])))
  }

  /** `p` is a path whose d-th vertex lies in layer d and matches `chain[d]`. */
  ghost predicate ChainPath<N>(equiv: (N, N) -> bool, g: GraphValue<N>, p: seq<nat>, chain: seq<N>)
  {
    |p| == |chain| &&
    (forall d :: 0 <= d < |p| ==> MatchesAt(equiv, g, d, chain[d], p[d])) &&
    (forall d :: 0 <= d < |p| - 1 ==> p[d] < |g.state.edges| && p[d + 1] in g.state.edges[p[d]])
  }

  /** The depths at which the traversal found nothing, in increasing order:
      the depths `update` creates vertices for. */
  function Misses(tr: seq<Option<nat>>): (r: seq<nat>)
    ensures forall i :: 0 <= i < |r| ==> r[i] < |tr| && tr[r[i]].None?
    decreases |tr|
  {
    if tr == [] then []
    else Misses(tr[..|tr| - 1]) + (if tr[|tr| - 1].None? then [|tr| - 1] else [])
  }

  /** The second graph keeps the vertices, nodes, layers and edges of the first. */
  ghost predicate Grows<N>(g: GraphValue<N>, g': GraphValue<N>)
  {
    |g.nodes| <= |g'.nodes| && g'.nodes[..|g.nodes|] == g.nodes &&
    |g.state.layerOf| <= |g'.state.layerOf| && |g.state.edges| <= |g'.state.edges| &&
    (forall v :: 0 <= v < |g.state.layerOf| ==> g'.state.layerOf[v] == g.state.layerOf[v]) &&
    (forall v :: 0 <= v < |g.state.edges| ==> g.state.edges[v] <= g'.state.edges[v])
  }

  lemma MissesSnoc(tr: seq<Option<nat>>, k: nat)
    requires k < |tr|
    ensures Misses(tr[..k + 1]) == Misses(tr[..k]) + (if tr[k].None? then [k] else [])
  {
    assert tr[..k + 1][..k] == tr[..k];
  }

  /** A chain whose every node is found gives no misses. */
  lemma {:induction false} NoMisses(tr: seq<Option<nat>>)
    requires forall d :: 0 <= d < |tr| ==> tr[d].Some?
    ensures Misses(tr) == []
    decreases |tr|
  {
    if tr != [] {
      NoMisses(tr[..|tr| - 1]);
    }
  }

  /** A traversal missing exactly depth `k` gives exactly that miss. */
  lemma {:induction false} OneMiss(tr: seq<Option<nat>>, k: nat)
    requires k < |tr| && tr[k].None?
    requires forall d :: 0 <= d < |tr| && d != k ==> tr[d].Some?
    ensures Misses(tr) == [k]
    decreases |tr|
  {
    var last := |tr| - 1;
    if k == last {
      NoMisses(tr[..last]);
    } else {
      OneMiss(tr[..last], k);
    }
  }

  /** In a shaped graph the matching vertex of a layer is unique. */
  lemma LookupUnique<N(!new)>(equiv: (N, N) -> bool, g: GraphValue<N>, d: nat, x: N, v: nat)
    requires IsEquivalence(equiv) && Shaped(equiv, g)
    requires MatchesAt(equiv, g, d, x, v)
    ensures Lookup(equiv, g, d, x) == Some(v)
  {
  }

  /** `contains` answers whether the chain is a path of the graph, layer by layer. */
  lemma RecognisesIffPath<N(!new)>(equiv: (N, N) -> bool, g: GraphValue<N>, chain: seq<N>)
    requires IsEquivalence(equiv) && Shaped(equiv, g)
    ensures Recognises(equiv, g, chain) <==> exists p :: ChainPath(equiv, g, p, chain)
  {
    if Recognises(equiv, g, chain) {
      var p := seq(|chain|, d requires 0 <= d < |chain| => Lookup(equiv, g, d, chain[d]).value);
      assert ChainPath(equiv, g, p, chain);
    }
    if p :| ChainPath(equiv, g, p, chain) {
      forall d | 0 <= d < |chain|
        ensures Lookup(equiv, g, d, chain[d]) == Some(p[d])
      {
        LookupUnique(equiv, g, d, chain[d], p[d]);
      }
    }
  }

  /** Growing the graph keeps every match, in a graph that stays shaped. */
  lemma GrowsKeepsMatch<N(!new)>(equiv: (N, N) -> bool, g: GraphValue<N>, g': GraphValue<N>, d: nat, x: N)
    requires IsEquivalence(equiv) && Shaped(equiv, g') && Grows(g, g')
    requires Lookup(equiv, g, d, x).Some?
    ensures Lookup(equiv, g', d, x) == Lookup(equiv, g, d, x)
  {
    var v := Lookup(equiv, g, d, x).value;
    assert g'.nodes[v] == g'.nodes[..|g.nodes|][v] == g.nodes[v];
    LookupUnique(equiv, g', d, x, v);
  }

  /** A recognised chain stays recognised as the graph grows. */
  lemma GrowsKeepsRecognised<N(!new)>(equiv: (N, N) -> bool, g: GraphValue<N>, g': GraphValue<N>, chain: seq<N>)
    requires IsEquivalence(equiv) && Shaped(equiv, g') && Grows(g, g')
    requires Recognises(equiv, g, chain)
    ensures Recognises(equiv, g', chain)
  {
    forall d | 0 <= d < |chain|
      ensures Lookup(equiv, g', d, chain[d]) == Lookup(equiv, g, d, chain[d])
    {
      GrowsKeepsMatch(equiv, g, g', d, chain[d]);
    }
  }

  lemma GrowsTransitive<N>(g: GraphValue<N>, g': GraphValue<N>, g'': GraphValue<N>)
    requires Grows(g, g') && Grows(g', g'')
    ensures Grows(g, g'')
  {
    assert g''.nodes[..|g.nodes|] == g''.nodes[..|g'.nodes|][..|g.nodes|];
  }

  // ---------------------------------------------------------------------
  // The first loop of `update`: a fresh vertex for every unmatched node.

  /** The graph after the first loop of `update` has added `k` vertices:
      the old vertices keep their layers and edges, and the fresh ones sit in
      the root layer without edges. */
  ghost predicate FilledGraph<N>(g0: GraphValue<N>, g: GraphValue<N>, k: nat)
  {
    var n0 := |g0.nodes|;
    |g0.state.layerOf| == n0 && |g0.state.edges| == n0 &&
    |g.nodes| == |g.state.layerOf| && WellLayered(g.state) &&
    |g.nodes| == n0 + k && g.nodes[..n0] == g0.nodes &&
    (forall v :: 0 <= v < n0 ==> g.state.layerOf[v] == g0.state.layerOf[v]) &&
    (forall v :: 0 <= v < n0 ==> g.state.edges[v] == g0.state.edges[v]) &&
    (forall v :: n0 <= v < |g.nodes| ==> g.state.layerOf[v] == 0) &&
    (forall v :: n0 <= v < |g.nodes| ==> g.state.edges[v] == {})
  }

  /** The slots after the first `idx` iterations of the first loop of
      `update`: `slots` is the traversal with its first misses filled, each
      by a fresh vertex whose owner is that depth. */
  ghost predicate SlotsTrack(n0: nat, tr: seq<Option<nat>>, n: nat, slots: seq<Option<nat>>, owner: seq<nat>, idx: nat)
  {
    |slots| == |tr| && idx <= |tr| && n == n0 + |owner| &&
    (forall d :: 0 <= d < |tr| && tr[d].Some? ==> slots[d] == tr[d]) &&
    (forall d :: idx <= d < |tr| ==> slots[d] == tr[d]) &&
    (forall d :: 0 <= d < idx && tr[d].None? ==>
      slots[d].Some? && n0 <= slots[d].value < n && owner[slots[d].value - n0] == d)
  }

  /** The fresh vertices after the first `idx` iterations of the first loop
      of `update`: the i-th one fills the i-th miss and holds its node. */
  ghost predicate OwnersTrack<N>(n0: nat, tr: seq<Option<nat>>, chain: seq<N>,
                                 nodes: seq<N>, slots: seq<Option<nat>>, owner: seq<nat>, idx: nat)
  {
    |slots| == |tr| && idx <= |tr| && |tr| == |chain| && |nodes| == n0 + |owner| &&
    owner == Misses(tr[..idx]) &&
    (forall i :: 0 <= i < |owner| ==> slots[owner[i]] == Some(n0 + i)) &&
    (forall i :: 0 <= i < |owner| ==> nodes[n0 + i] == chain[owner[i]])
  }

  ghost predicate FilledSlots<N>(n0: nat, tr: seq<Option<nat>>, chain: seq<N>,
                                 nodes: seq<N>, slots: seq<Option<nat>>, owner: seq<nat>, idx: nat)
  {
    SlotsTrack(n0, tr, |nodes|, slots, owner, idx) && OwnersTrack(n0, tr, chain, nodes, slots, owner, idx)
  }

  ghost predicate Filling<N>(g0: GraphValue<N>, tr: seq<Option<nat>>, chain: seq<N>,
                             g: GraphValue<N>, slots: seq<Option<nat>>, owner: seq<nat>, idx: nat)
  {
    FilledGraph(g0, g, |owner|) && FilledSlots(|g0.nodes|, tr, chain, g.nodes, slots, owner, idx)
  }

  lemma FillingStarts<N>(g0: GraphValue<N>, tr: seq<Option<nat>>, chain: seq<N>)
    requires |g0.nodes| == |g0.state.layerOf| && WellLayered(g0.state) && |tr| == |chain|
    ensures Filling(g0, tr, chain, g0, tr, [], 0)
  {
    assert tr[..0] == [];
  }

  /** An iteration that finds the node matched leaves everything as it is. */
  lemma FillKeeps<N>(g0: GraphValue<N>, tr: seq<Option<nat>>, chain: seq<N>,
                     g: GraphValue<N>, slots: seq<Option<nat>>, owner: seq<nat>, idx: nat)
    requires Filling(g0, tr, chain, g, slots, owner, idx) && idx < |chain| && slots[idx].Some?
    ensures Filling(g0, tr, chain, g, slots, owner, idx + 1)
  {
    MissesSnoc(tr, idx);
  }

  lemma FillAddsVertex<N>(g0: GraphValue<N>, g: GraphValue<N>, k: nat, x: N, g': GraphValue<N>)
    requires FilledGraph(g0, g, k)
    requires g' == GraphValue(g.nodes + [x], VertexAdded(g.state))
    ensures FilledGraph(g0, g', k + 1)
  {
    AddVertexPreserves(g.state);
    assert g'.nodes[..|g0.nodes|] == g.nodes[..|g0.nodes|];
  }

  lemma FillAddsSlot(n0: nat, tr: seq<Option<nat>>, n: nat, slots: seq<Option<nat>>, owner: seq<nat>, idx: nat)
    requires SlotsTrack(n0, tr, n, slots, owner, idx) && idx < |tr| && slots[idx].None?
    ensures SlotsTrack(n0, tr, n + 1, slots[idx := Some(n)], owner + [idx], idx + 1)
  {
    var slots', owner' := slots[idx := Some(n)], owner + [idx];
    forall d | 0 <= d < idx + 1 && tr[d].None?
      ensures slots'[d].Some? && n0 <= slots'[d].value < n + 1 && owner'[slots'[d].value - n0] == d
    {
      if d < idx {
        assert owner[slots[d].value - n0] == d;
      }
    }
  }

  lemma FillAddsOwner<N>(n0: nat, tr: seq<Option<nat>>, chain: seq<N>,
                         nodes: seq<N>, slots: seq<Option<nat>>, owner: seq<nat>, idx: nat)
    requires OwnersTrack(n0, tr, chain, nodes, slots, owner, idx) && idx < |tr| && tr[idx].None?
    ensures OwnersTrack(n0, tr, chain, nodes + [chain[idx]], slots[idx := Some(|nodes|)], owner + [idx], idx + 1)
  {
    var slots', owner' := slots[idx := Some(|nodes|)], owner + [idx];
    MissesSnoc(tr, idx);
    forall i | 0 <= i < |owner'|
      ensures slots'[owner'[i]] == Some(n0 + i)
    {
      if i < |owner| {
        assert owner[i] < idx;
      }
    }
  }

  /** An iteration that finds a gap adds a vertex holding the chain's node. */
  lemma FillAdds<N>(g0: GraphValue<N>, tr: seq<Option<nat>>, chain: seq<N>,
                    g: GraphValue<N>, slots: seq<Option<nat>>, owner: seq<nat>, idx: nat,
                    g': GraphValue<N>)
    requires Filling(g0, tr, chain, g, slots, owner, idx) && idx < |chain| && slots[idx].None?
    requires g' == GraphValue(g.nodes + [chain[idx]], VertexAdded(g.state))
    ensures Filling(g0, tr, chain, g', slots[idx := Some(|g.nodes|)], owner + [idx], idx + 1)
  {
    FillAddsVertex(g0, g, |owner|, chain[idx], g');
    FillAddsSlot(|g0.nodes|, tr, |g.nodes|, slots, owner, idx);
    FillAddsOwner(|g0.nodes|, tr, chain, g.nodes, slots, owner, idx);
  }

  // ---------------------------------------------------------------------
  // The second loop of `update`: an edge for every missing connection.

  /** What the first loop of `update` leaves behind: the graph `g1`, the ids
      of the chain's vertices, and the facts from the traversal of `g0`. */
  ghost predicate Prepared<N>(equiv: (N, N) -> bool, g0: GraphValue<N>, tr: seq<Option<nat>>, conn: seq<bool>,
                              chain: seq<N>, g1: GraphValue<N>, slots: seq<Option<nat>>, owner: seq<nat>, ids: seq<nat>)
  {
    Shaped(equiv, g0) &&
    Filling(g0, tr, chain, g1, slots, owner, |chain|) &&
    SlotIds(slots, ids) && Traced(equiv, g0, tr, conn, chain)
  }

  /** The filled slots, without their options. */
  ghost predicate SlotIds(slots: seq<Option<nat>>, ids: seq<nat>)
  {
    |ids| == |slots| && forall d :: 0 <= d < |ids| ==> slots[d] == Some(ids[d])
  }

  /** `tr` and `conn` are what `chain_to_vertices` answers on `g0`. */
  ghost predicate Traced<N>(equiv: (N, N) -> bool, g0: GraphValue<N>, tr: seq<Option<nat>>, conn: seq<bool>, chain: seq<N>)
  {
    |tr| == |chain| &&
    (forall d :: 0 <= d < |chain| ==> tr[d] == Lookup(equiv, g0, d, chain[d])) &&
    conn == Connections(g0, tr)
  }

  /** What the second loop needs to know about the chain's vertices: they
      exist, an old one lies in the layer of its depth, a fresh one serves a
      single depth, and a connection found by the traversal is an old edge. */
  ghost predicate IdsFit<N>(g0: GraphValue<N>, n1: nat, ids: seq<nat>, conn: seq<bool>)
  {
    var n0 := |g0.nodes|;
    |g0.state.layerOf| == n0 && |g0.state.edges| == n0 &&
    |conn| == (if |ids| == 0 then 0 else |ids| - 1) &&
    (forall d :: 0 <= d < |ids| ==> ids[d] < n1) &&
    (forall d :: 0 <= d < |ids| && ids[d] < n0 ==> g0.state.layerOf[ids[d]] == d) &&
    (forall d, e :: 0 <= d < |ids| && 0 <= e < |ids| && n0 <= ids[d] && ids[d] == ids[e] ==> d == e) &&
    (forall d :: 0 <= d < |conn| && conn[d] ==> ids[d] < n0 && ids[d + 1] < n0) &&
    (forall d :: 0 <= d < |conn| && conn[d] ==> ids[d + 1] in g0.state.edges[ids[d]])
  }

  /** The layers after the first `i` iterations of the second loop: the
      chain's vertices up to depth `i` sit in the layers of their depths, the
      later fresh ones are still edgeless root-layer vertices. */
  ghost predicate LinkedLayers<N>(g0: GraphValue<N>, ids: seq<nat>, g: GraphValue<N>, i: nat)
  {
    var n0 := |g0.nodes|;
    |g0.state.layerOf| == n0 && n0 <= |g.nodes| &&
    |g.state.layerOf| == |g.nodes| && WellLayered(g.state) &&
    (forall d :: 0 <= d < |ids| ==> ids[d] < |g.nodes|) &&
    (forall v :: 0 <= v < n0 ==> g.state.layerOf[v] == g0.state.layerOf[v]) &&
    (forall d :: 0 <= d <= i && d < |ids| ==> g.state.layerOf[ids[d]] == d) &&
    (forall d :: i < d < |ids| && n0 <= ids[d] ==> g.state.layerOf[ids[d]] == 0) &&
    (forall d :: i < d < |ids| && n0 <= ids[d] ==> g.state.edges[ids[d]] == {})
  }

  /** The edges after the first `i` iterations of the second loop: the old
      edges, and the steps of the chain up to depth `i`, and nothing else. */
  ghost predicate LinkedEdges<N>(g0: GraphValue<N>, ids: seq<nat>, g: GraphValue<N>, i: nat)
  {
    var n0 := |g0.nodes|;
    |g0.state.edges| == n0 && n0 <= |g.state.edges| && i <= |ids| &&
    (forall d :: 0 <= d < |ids| ==> ids[d] < |g.state.edges|) &&
    (forall v :: 0 <= v < n0 ==> g0.state.edges[v] <= g.state.edges[v]) &&
    (forall d :: 0 <= d < i && d + 1 < |ids| ==> ids[d + 1] in g.state.edges[ids[d]]) &&
    (forall v, t :: 0 <= v < |g.state.edges| && t in g.state.edges[v] ==>
      (v < n0 && t in g0.state.edges[v]) || exists d :: 0 <= d < i && d + 1 < |ids| && v == ids[d] && t == ids[d + 1])
  }

  /** What the first loop tells about the vertex of depth `d`. */
  lemma PreparedId<N>(equiv: (N, N) -> bool, g0: GraphValue<N>, tr: seq<Option<nat>>, conn: seq<bool>,
                      chain: seq<N>, n1: nat, slots: seq<Option<nat>>, owner: seq<nat>, ids: seq<nat>, d: nat)
    requires SlotsTrack(|g0.nodes|, tr, n1, slots, owner, |tr|) && SlotIds(slots, ids)
    requires Traced(equiv, g0, tr, conn, chain) && d < |ids|
    ensures ids[d] < n1
    ensures ids[d] < |g0.nodes| <==> tr[d].Some?
    ensures ids[d] < |g0.nodes| ==> g0.state.layerOf[ids[d]] == d
    ensures |g0.nodes| <= ids[d] ==> owner[ids[d] - |g0.nodes|] == d
  {
  }

  lemma PreparedConn<N>(equiv: (N, N) -> bool, g0: GraphValue<N>, tr: seq<Option<nat>>, conn: seq<bool>,
                        chain: seq<N>, n1: nat, slots: seq<Option<nat>>, owner: seq<nat>, ids: seq<nat>, d: nat)
    requires SlotsTrack(|g0.nodes|, tr, n1, slots, owner, |tr|) && SlotIds(slots, ids)
    requires Traced(equiv, g0, tr, conn, chain) && d < |conn| && conn[d]
    ensures ids[d] < |g0.nodes| && ids[d + 1] < |g0.nodes| && ids[d + 1] in g0.state.edges[ids[d]]
  {
    assert Connected(g0, tr[d], tr[d + 1]);
    assert tr[d] == Some(ids[d]) && tr[d + 1] == Some(ids[d + 1]);
  }

  lemma PreparedFitsIds<N>(equiv: (N, N) -> bool, g0: GraphValue<N>, tr: seq<Option<nat>>, conn: seq<bool>,
                           chain: seq<N>, g1: GraphValue<N>, slots: seq<Option<nat>>, owner: seq<nat>, ids: seq<nat>)
    requires Prepared(equiv, g0, tr, conn, chain, g1, slots, owner, ids)
    ensures forall d :: 0 <= d < |ids| ==> ids[d] < |g1.nodes|
    ensures forall d :: 0 <= d < |ids| && ids[d] < |g0.nodes| ==> g0.state.layerOf[ids[d]] == d
  {
    forall d | 0 <= d < |ids|
      ensures ids[d] < |g1.nodes|
      ensures ids[d] < |g0.nodes| ==> g0.state.layerOf[ids[d]] == d
    {
      PreparedId(equiv, g0, tr, conn, chain, |g1.nodes|, slots, owner, ids, d);
    }
  }

  lemma PreparedFitsFresh<N>(equiv: (N, N) -> bool, g0: GraphValue<N>, tr: seq<Option<nat>>, conn: seq<bool>,
                             chain: seq<N>, g1: GraphValue<N>, slots: seq<Option<nat>>, owner: seq<nat>, ids: seq<nat>)
    requires Prepared(equiv, g0, tr, conn, chain, g1, slots, owner, ids)
    ensures forall d, e :: 0 <= d < |ids| && 0 <= e < |ids| && |g0.nodes| <= ids[d] && ids[d] == ids[e] ==> d == e
  {
    forall d, e | 0 <= d < |ids| && 0 <= e < |ids| && |g0.nodes| <= ids[d] && ids[d] == ids[e]
      ensures d == e
    {
      PreparedFreshPair(equiv, g0, tr, conn, chain, g1, slots, owner, ids, d, e);
    }
  }

  /** Two layers that share a new vertex are the same layer: the vertex has one owner. */
  lemma PreparedFreshPair<N>(equiv: (N, N) -> bool, g0: GraphValue<N>, tr: seq<Option<nat>>, conn: seq<bool>,
                             chain: seq<N>, g1: GraphValue<N>, slots: seq<Option<nat>>, owner: seq<nat>, ids: seq<nat>,
                             d: nat, e: nat)
    requires Prepared(equiv, g0, tr, conn, chain, g1, slots, owner, ids)
    requires d < |ids| && e < |ids| && |g0.nodes| <= ids[d] && ids[d] == ids[e]
    ensures d == e
  {
    PreparedId(equiv, g0, tr, conn, chain, |g1.nodes|, slots, owner, ids, d);
    PreparedId(equiv, g0, tr, conn, chain, |g1.nodes|, slots, owner, ids, e);
  }

  lemma PreparedFitsConn<N>(equiv: (N, N) -> bool, g0: GraphValue<N>, tr: seq<Option<nat>>, conn: seq<bool>,
                            chain: seq<N>, g1: GraphValue<N>, slots: seq<Option<nat>>, owner: seq<nat>, ids: seq<nat>)
    requires Prepared(equiv, g0, tr, conn, chain, g1, slots, owner, ids)
    ensures forall d :: 0 <= d < |conn| && conn[d] ==> ids[d] < |g0.nodes| && ids[d + 1] < |g0.nodes|
    ensures forall d :: 0 <= d < |conn| && conn[d] ==> ids[d + 1] in g0.state.edges[ids[d]]
  {
    forall d | 0 <= d < |conn| && conn[d]
      ensures ids[d] < |g0.nodes| && ids[d + 1] < |g0.nodes| && ids[d + 1] in g0.state.edges[ids[d]]
    {
      PreparedConn(equiv, g0, tr, conn, chain, |g1.nodes|, slots, owner, ids, d);
    }
  }

  lemma PreparedFits<N>(equiv: (N, N) -> bool, g0: GraphValue<N>, tr: seq<Option<nat>>, conn: seq<bool>,
                        chain: seq<N>, g1: GraphValue<N>, slots: seq<Option<nat>>, owner: seq<nat>, ids: seq<nat>)
    requires Prepared(equiv, g0, tr, conn, chain, g1, slots, owner, ids)
    ensures IdsFit(g0, |g1.nodes|, ids, conn)
  {
    PreparedFitsIds(equiv, g0, tr, conn, chain, g1, slots, owner, ids);
    PreparedFitsFresh(equiv, g0, tr, conn, chain, g1, slots, owner, ids);
    PreparedFitsConn(equiv, g0, tr, conn, chain, g1, slots, owner, ids);
  }

  /** The second loop starts from the graph the first one leaves. */
  lemma LinkingStarts<N>(g0: GraphValue<N>, g1: GraphValue<N>, k: nat, ids: seq<nat>, conn: seq<bool>)
    requires FilledGraph(g0, g1, k) && IdsFit(g0, |g1.nodes|, ids, conn)
    ensures LinkedLayers(g0, ids, g1, 0) && LinkedEdges(g0, ids, g1, 0)
  {
    var n0 := |g0.nodes|;
    forall v, t | 0 <= v < |g1.state.edges| && t in g1.state.edges[v]
      ensures v < n0 && t in g0.state.edges[v]
    {
    }
  }

  /** A connection already present needs no edge. */
  lemma LinkKeeps<N>(g0: GraphValue<N>, ids: seq<nat>, conn: seq<bool>, g: GraphValue<N>, i: nat)
    requires IdsFit(g0, |g.nodes|, ids, conn) && i < |conn| && conn[i]
    requires LinkedLayers(g0, ids, g, i) && LinkedEdges(g0, ids, g, i)
    ensures LinkedLayers(g0, ids, g, i + 1) && LinkedEdges(g0, ids, g, i + 1)
  {
  }

  /** A missing connection is an edge `add_edge` accepts. */
  lemma LinkAllowed<N>(g0: GraphValue<N>, ids: seq<nat>, conn: seq<bool>, g: GraphValue<N>, i: nat)
    requires IdsFit(g0, |g.nodes|, ids, conn) && i < |conn|
    requires LinkedLayers(g0, ids, g, i)
    ensures EdgeAdded(g.state, ids[i], ids[i + 1]).Success?
  {
    var n0 := |g0.nodes|;
    var from, to := ids[i], ids[i + 1];
    if n0 <= to {
      assert from != to;
      assert g.state.layerOf[to] == 0 && g.state.edges[to] == {};
    } else {
      assert g.state.layerOf[to] == i + 1 && g.state.layerOf[from] == i;
    }
    assert EdgeAllowed(g.state, from, to);
  }

  /** Adding the edge of depth `i` puts the next vertex into the next layer. */
  lemma LinkAddsLayers<N>(g0: GraphValue<N>, ids: seq<nat>, conn: seq<bool>, g: GraphValue<N>, i: nat, s': LayeredState)
    requires IdsFit(g0, |g.nodes|, ids, conn) && i < |conn|
    requires LinkedLayers(g0, ids, g, i)
    requires EdgeAdded(g.state, ids[i], ids[i + 1]).Success? && s' == EdgeAdded(g.state, ids[i], ids[i + 1]).value
    ensures LinkedLayers(g0, ids, GraphValue(g.nodes, s'), i + 1)
  {
    var n0 := |g0.nodes|;
    var from, to := ids[i], ids[i + 1];
    AddEdgePreserves(g.state, from, to);
    forall d | 0 <= d <= i + 1 && d < |ids|
      ensures s'.layerOf[ids[d]] == d
    {
    }
    forall d | i + 1 < d < |ids| && n0 <= ids[d]
      ensures ids[d] != to && ids[d] != from
    {
    }
  }

  /** Adding the edge of depth `i` adds exactly that step of the chain. */
  lemma LinkAddsEdges<N>(g0: GraphValue<N>, ids: seq<nat>, g: GraphValue<N>, i: nat, s': LayeredState)
    requires i + 1 < |ids| && WellLayered(g.state)
    requires LinkedEdges(g0, ids, g, i)
    requires EdgeAdded(g.state, ids[i], ids[i + 1]).Success? && s' == EdgeAdded(g.state, ids[i], ids[i + 1]).value
    ensures LinkedEdges(g0, ids, GraphValue(g.nodes, s'), i + 1)
  {
    var n0 := |g0.nodes|;
    var from, to := ids[i], ids[i + 1];
    forall v, t | 0 <= v < |s'.edges| && t in s'.edges[v]
      ensures (v < n0 && t in g0.state.edges[v]) || exists d :: 0 <= d < i + 1 && d + 1 < |ids| && v == ids[d] && t == ids[d + 1]
    {
      if v == from && t == to {
        assert v == ids[i] && t == ids[i + 1];
      } else {
        assert t in g.state.edges[v];
      }
    }
  }

  /** A fresh vertex holds a node no old vertex of its layer matched. */
  lemma FreshVersusOld<N(!new)>(equiv: (N, N) -> bool, g0: GraphValue<N>, g: GraphValue<N>, a: nat, b: nat, d: nat, x: N)
    requires IsEquivalence(equiv)
    requires a < |g.nodes| && b < |g0.nodes| && b < |g.nodes| && b < |g0.state.layerOf|
    requires g.nodes[a] == x && g.nodes[b] == g0.nodes[b] && g0.state.layerOf[b] == d
    requires Lookup(equiv, g0, d, x).None?
    ensures !equiv(g.nodes[a], g.nodes[b]) && !equiv(g.nodes[b], g.nodes[a])
  {
    assert !MatchesAt(equiv, g0, d, x, b);
  }

  /** Facts about a fresh vertex that follow from the first loop. */
  lemma FreshVertex<N>(equiv: (N, N) -> bool, g0: GraphValue<N>, tr: seq<Option<nat>>, conn: seq<bool>,
                       chain: seq<N>, g1: GraphValue<N>, slots: seq<Option<nat>>, owner: seq<nat>, ids: seq<nat>, a: nat)
    requires Prepared(equiv, g0, tr, conn, chain, g1, slots, owner, ids)
    requires |g0.nodes| <= a < |g1.nodes|
    ensures owner[a - |g0.nodes|] < |ids| && ids[owner[a - |g0.nodes|]] == a
    ensures g1.nodes[a] == chain[owner[a - |g0.nodes|]]
    ensures Lookup(equiv, g0, owner[a - |g0.nodes|], chain[owner[a - |g0.nodes|]]).None?
  {
  }

  /** After the second loop the vertices of the chain lie in the layers of their depths. */
  lemma LinkedDepths<N(!new)>(equiv: (N, N) -> bool, g0: GraphValue<N>, ids: seq<nat>, conn: seq<bool>,
                              chain: seq<N>, g: GraphValue<N>)
    requires IsReflexive(equiv)
    requires IdsFit(g0, |g.nodes|, ids, conn) && LinkedLayers(g0, ids, g, |conn|)
    requires |chain| == |ids| && g.nodes[..|g0.nodes|] == g0.nodes
    requires forall d :: 0 <= d < |ids| && ids[d] < |g0.nodes| ==> equiv(chain[d], g0.nodes[ids[d]])
    requires forall d :: 0 <= d < |ids| && |g0.nodes| <= ids[d] ==> g.nodes[ids[d]] == chain[d]
    ensures forall d :: 0 <= d < |chain| ==> MatchesAt(equiv, g, d, chain[d], ids[d])
  {
    var n0 := |g0.nodes|;
    forall d | 0 <= d < |chain|
      ensures MatchesAt(equiv, g, d, chain[d], ids[d])
    {
      if ids[d] < n0 {
        assert g.nodes[ids[d]] == g.nodes[..n0][ids[d]];
      }
    }
  }

  /** After the second loop no two vertices of one layer hold equal nodes. */
  lemma LinkedDistinct<N(!new)>(equiv: (N, N) -> bool, g0: GraphValue<N>, tr: seq<Option<nat>>, conn: seq<bool>,
                                chain: seq<N>, g1: GraphValue<N>, slots: seq<Option<nat>>, owner: seq<nat>, ids: seq<nat>,
                                g: GraphValue<N>)
    requires IsEquivalence(equiv)
    requires Prepared(equiv, g0, tr, conn, chain, g1, slots, owner, ids)
    requires g.nodes == g1.nodes
    requires LinkedLayers(g0, ids, g, |conn|)
    ensures Distinct(equiv, g)
  {
    var n0 := |g0.nodes|;
    forall a, b | 0 <= a < |g.nodes| && 0 <= b < |g.nodes| && a != b && g.state.layerOf[a] == g.state.layerOf[b]
      ensures !equiv(g.nodes[a], g.nodes[b])
    {
      if n0 <= a && n0 <= b {
        FreshVertex(equiv, g0, tr, conn, chain, g1, slots, owner, ids, a);
        FreshVertex(equiv, g0, tr, conn, chain, g1, slots, owner, ids, b);
      } else if n0 <= a {
        FreshVertex(equiv, g0, tr, conn, chain, g1, slots, owner, ids, a);
        assert g.nodes[b] == g.nodes[..n0][b];
        FreshVersusOld(equiv, g0, g, a, b, owner[a - n0], chain[owner[a - n0]]);
      } else if n0 <= b {
        FreshVertex(equiv, g0, tr, conn, chain, g1, slots, owner, ids, b);
        assert g.nodes[a] == g.nodes[..n0][a];
        FreshVersusOld(equiv, g0, g, b, a, owner[b - n0], chain[owner[b - n0]]);
      } else {
        assert g.nodes[a] == g.nodes[..n0][a] && g.nodes[b] == g.nodes[..n0][b];
      }
    }
  }

  /** Facts about the nodes of the chain's vertices that follow from the first loop. */
  lemma PreparedNodes<N>(equiv: (N, N) -> bool, g0: GraphValue<N>, tr: seq<Option<nat>>, conn: seq<bool>,
                         chain: seq<N>, g1: GraphValue<N>, slots: seq<Option<nat>>, owner: seq<nat>, ids: seq<nat>)
    requires Prepared(equiv, g0, tr, conn, chain, g1, slots, owner, ids)
    ensures g1.nodes[..|g0.nodes|] == g0.nodes
    ensures forall d :: 0 <= d < |ids| && ids[d] < |g0.nodes| ==> equiv(chain[d], g0.nodes[ids[d]])
    ensures forall d :: 0 <= d < |ids| && |g0.nodes| <= ids[d] ==> g1.nodes[ids[d]] == chain[d]
  {
    forall d | 0 <= d < |ids|
      ensures ids[d] < |g0.nodes| ==> equiv(chain[d], g0.nodes[ids[d]])
      ensures |g0.nodes| <= ids[d] ==> g1.nodes[ids[d]] == chain[d]
    {
      PreparedId(equiv, g0, tr, conn, chain, |g1.nodes|, slots, owner, ids, d);
    }
  }

  /** The second loop only adds edges and moves fresh vertices. */
  lemma LinkedGrows<N>(g0: GraphValue<N>, ids: seq<nat>, g: GraphValue<N>, i: nat)
    requires LinkedLayers(g0, ids, g, i) && LinkedEdges(g0, ids, g, i) && g.nodes[..|g0.nodes|] == g0.nodes
    ensures Grows(g0, g)
  {
  }

  /** A shaped graph holding the chain's vertices in their layers, joined by
      edges, recognises the chain through exactly those vertices. */
  lemma PathRecognised<N(!new)>(equiv: (N, N) -> bool, g: GraphValue<N>, chain: seq<N>, ids: seq<nat>)
    requires IsEquivalence(equiv) && Shaped(equiv, g) && |ids| == |chain|
    requires forall d :: 0 <= d < |chain| ==> MatchesAt(equiv, g, d, chain[d], ids[d])
    requires forall d :: 0 <= d < |chain| - 1 ==> ids[d] < |g.state.edges| && ids[d + 1] in g.state.edges[ids[d]]
    ensures forall d :: 0 <= d < |chain| ==> Lookup(equiv, g, d, chain[d]) == Some(ids[d])
    ensures Recognises(equiv, g, chain)
  {
    forall d | 0 <= d < |chain|
      ensures Lookup(equiv, g, d, chain[d]) == Some(ids[d])
    {
      LookupUnique(equiv, g, d, chain[d], ids[d]);
    }
  }

  /** The ids `update` returns and the vertices it appends, as the first loop leaves them. */
  lemma PreparedResult<N>(equiv: (N, N) -> bool, g0: GraphValue<N>, tr: seq<Option<nat>>, conn: seq<bool>,
                          chain: seq<N>, g1: GraphValue<N>, slots: seq<Option<nat>>, owner: seq<nat>, ids: seq<nat>,
                          nodes: seq<N>)
    requires Prepared(equiv, g0, tr, conn, chain, g1, slots, owner, ids) && nodes == g1.nodes
    ensures ReusesAndAppends(tr, chain, |g0.nodes|, ids, nodes)
  {
    assert tr[..|chain|] == tr;
  }

  /** What `update(chain)` does to the graph `g`, leaving `g'` and returning `ids`:
      the traversal's vertices are reused, the i-th miss gets the i-th fresh
      vertex, holding the chain's node; the graph only grows, and only by the
      steps of the chain; and afterwards the vertex of depth d is the one
      matching `chain[d]` in layer d, so the chain is known. */
  ghost predicate Updated<N>(equiv: (N, N) -> bool, g: GraphValue<N>, chain: seq<N>, ids: seq<nat>, g': GraphValue<N>)
  {
    ReusesAndAppends(Traversal(equiv, g, chain), chain, |g.nodes|, ids, g'.nodes) &&
    Grows(g, g') &&
    (forall d :: 0 <= d < |chain| ==> Lookup(equiv, g', d, chain[d]) == Some(ids[d])) &&
    Recognises(equiv, g', chain) &&
    OnlyChainEdges(g, ids, g')
  }

  /** The ids of `update`: the traversal's vertices where it found one, and
      for the i-th miss the i-th of the vertices appended, holding that node. */
  ghost predicate ReusesAndAppends<N>(tr: seq<Option<nat>>, chain: seq<N>, n0: nat, ids: seq<nat>, nodes: seq<N>)
  {
    var ms := Misses(tr);
    |ids| == |chain| == |tr| &&
    (forall d :: 0 <= d < |chain| && tr[d].Some? ==> ids[d] == tr[d].value) &&
    (forall i :: 0 <= i < |ms| ==> ids[ms[i]] == n0 + i) &&
    |nodes| == n0 + |ms| &&
    (forall i :: 0 <= i < |ms| ==> nodes[n0 + i] == chain[ms[i]])
  }

  /** Every edge of `g'` is an edge of `g` or a step of the chain. */
  ghost predicate OnlyChainEdges<N>(g: GraphValue<N>, ids: seq<nat>, g': GraphValue<N>)
  {
    forall v, t :: 0 <= v < |g'.state.edges| && t in g'.state.edges[v] ==>
      (v < |g.state.edges| && t in g.state.edges[v]) ||
      exists d :: 0 <= d < |ids| - 1 && v == ids[d] && t == ids[d + 1]
  }

  lemma LinkedOnlyChainEdges<N>(g0: GraphValue<N>, ids: seq<nat>, g: GraphValue<N>, i: nat)
    requires LinkedEdges(g0, ids, g, i)
    ensures OnlyChainEdges(g0, ids, g)
  {
  }

  lemma Finished<N(!new)>(equiv: (N, N) -> bool, g0: GraphValue<N>, tr: seq<Option<nat>>, conn: seq<bool>,
                          chain: seq<N>, g1: GraphValue<N>, slots: seq<Option<nat>>, owner: seq<nat>, ids: seq<nat>,
                          g: GraphValue<N>)
    requires IsEquivalence(equiv) && tr == Traversal(equiv, g0, chain)
    requires Prepared(equiv, g0, tr, conn, chain, g1, slots, owner, ids)
    requires g.nodes == g1.nodes
    requires LinkedLayers(g0, ids, g, |conn|) && LinkedEdges(g0, ids, g, |conn|)
    ensures Distinct(equiv, g)
    ensures Updated(equiv, g0, chain, ids, g)
  {
    PreparedFits(equiv, g0, tr, conn, chain, g1, slots, owner, ids);
    PreparedNodes(equiv, g0, tr, conn, chain, g1, slots, owner, ids);
    LinkedDepths(equiv, g0, ids, conn, chain, g);
    LinkedDistinct(equiv, g0, tr, conn, chain, g1, slots, owner, ids, g);
    LinkedGrows(g0, ids, g, |conn|);
    LinkedOnlyChainEdges(g0, ids, g, |conn|);
    PathRecognised(equiv, g, chain, ids);
    PreparedResult(equiv, g0, tr, conn, chain, g1, slots, owner, ids, g.nodes);
  }

  lemma ConnectionAt<N>(g: GraphValue<N>, tr: seq<Option<nat>>, d: nat)
    requires d + 1 < |tr|
    ensures d < |Connections(g, tr)| && Connections(g, tr)[d] == Connected(g, tr[d], tr[d + 1])
  {
  }

  /** `contains` answers exactly whether the chain is recognised: no node is
      missing from the traversal and every connection flag is set. */
  lemma RecognisesIffFound<N>(equiv: (N, N) -> bool, g: GraphValue<N>, chain: seq<N>)
    ensures var tr := Traversal(equiv, g, chain);
      Recognises(equiv, g, chain) <==>
        (forall d :: 0 <= d < |tr| ==> tr[d].Some?) && (forall d :: 0 <= d < |Connections(g, tr)| ==> Connections(g, tr)[d])
  {
    var tr := Traversal(equiv, g, chain);
    var conn := Connections(g, tr);
    if (forall d :: 0 <= d < |tr| ==> tr[d].Some?) && (forall d :: 0 <= d < |conn| ==> conn[d]) {
      forall d | 0 <= d < |chain|
        ensures Lookup(equiv, g, d, chain[d]).Some?
      {
        assert tr[d] == Lookup(equiv, g, d, chain[d]);
      }
      forall d | 0 <= d < |chain| - 1
        ensures Connected(g, Lookup(equiv, g, d, chain[d]), Lookup(equiv, g, d + 1, chain[d + 1]))
      {
        ConnectionAt(g, tr, d);
      }
    }
    if Recognises(equiv, g, chain) {
      forall d | 0 <= d < |tr|
        ensures tr[d].Some?
      {
        assert tr[d] == Lookup(equiv, g, d, chain[d]);
      }
      forall d | 0 <= d < |conn|
        ensures conn[d]
      {
        ConnectionAt(g, tr, d);
        assert tr[d] == Lookup(equiv, g, d, chain[d]) && tr[d + 1] == Lookup(equiv, g, d + 1, chain[d + 1]);
      }
    }
  }

  /** A chain every node of which is known adds no vertex when updated again. */
  lemma KnownChainMissesNothing<N>(equiv: (N, N) -> bool, g: GraphValue<N>, chain: seq<N>)
    requires Recognises(equiv, g, chain)
    ensures Misses(Traversal(equiv, g, chain)) == []
  {
    NoMisses(Traversal(equiv, g, chain));
  }

  /** A chain that is new at exactly one depth adds exactly one vertex, for that depth. */
  lemma OneNewDepth<N>(equiv: (N, N) -> bool, g: GraphValue<N>, chain: seq<N>, k: nat)
    requires k < |chain| && Lookup(equiv, g, k, chain[k]).None?
    requires forall d :: 0 <= d < |chain| && d != k ==> Lookup(equiv, g, d, chain[d]).Some?
    ensures Misses(Traversal(equiv, g, chain)) == [k]
  {
    OneMiss(Traversal(equiv, g, chain), k);
  }

  /** One step of `learn`: the chain just updated and all earlier ones are recognised. */
  lemma LearnStep<N(!new)>(equiv: (N, N) -> bool, g0: GraphValue<N>, g: GraphValue<N>, g': GraphValue<N>,
                           chains: seq<seq<N>>, i: nat)
    requires IsEquivalence(equiv) && Shaped(equiv, g') && i < |chains|
    requires Grows(g0, g) && Grows(g, g') && Recognises(equiv, g', chains[i])
    requires forall j :: 0 <= j < i ==> Recognises(equiv, g, chains[j])
    ensures Grows(g0, g')
    ensures forall j :: 0 <= j < i + 1 ==> Recognises(equiv, g', chains[j])
  {
    GrowsTransitive(g0, g, g');
    forall j | 0 <= j < i
      ensures Recognises(equiv, g', chains[j])
    {
      GrowsKeepsRecognised(equiv, g, g', chains[j]);
    }
  }

  /** A path of the graph stays a path, layer by layer, as the graph grows. */
  lemma GrowsKeepsChainPath<N>(equiv: (N, N) -> bool, g: GraphValue<N>, g': GraphValue<N>, p: seq<nat>, chain: seq<N>)
    requires Grows(g, g') && ChainPath(equiv, g, p, chain)
    ensures ChainPath(equiv, g', p, chain)
  {
    forall d | 0 <= d < |p|
      ensures MatchesAt(equiv, g', d, chain[d], p[d])
    {
      assert g'.nodes[p[d]] == g'.nodes[..|g.nodes|][p[d]];
    }
  }

  /** One step of `learn`: the ids `update` returned are a path of the new
      graph along the chain, and the earlier paths stay paths. */
  lemma LearnPathsStep<N>(equiv: (N, N) -> bool, g: GraphValue<N>, g': GraphValue<N>,
                          chains: seq<seq<N>>, paths: seq<seq<nat>>, i: nat)
    requires i < |chains| && |paths| == i + 1 && Updated(equiv, g, chains[i], paths[i], g')
    requires forall j :: 0 <= j < i ==> ChainPath(equiv, g, paths[j], chains[j])
    ensures forall j :: 0 <= j < i + 1 ==> ChainPath(equiv, g', paths[j], chains[j])
  {
    forall j | 0 <= j < i
      ensures ChainPath(equiv, g', paths[j], chains[j])
    {
      GrowsKeepsChainPath(equiv, g, g', paths[j], chains[j]);
    }
    var chain, ids := chains[i], paths[i];
    forall d | 0 <= d < |ids| - 1
      ensures ids[d] < |g'.state.edges| && ids[d + 1] in g'.state.edges[ids[d]]
    {
      assert Connected(g', Lookup(equiv, g', d, chain[d]), Lookup(equiv, g', d + 1, chain[d + 1]));
    }
  }

  class PatternGraph<N(!new)> {
    /** The nodes' `__eq__`. */
    const equiv: (N, N) -> bool
    /** The nodes' `distance`. */
    const dist: (N, N) -> real
    /** The `closest_match` parameter: the best-match strategy instead of the first-match one. */
    const closestMatch: bool
    const graph: LayeredDigraph<N>

    function Value(): GraphValue<N>
      reads graph, graph.digraph
    {
      GraphValue(graph.digraph.vertices, graph.State())
    }

    ghost predicate Valid()
      reads this, graph, graph.digraph
    {
      graph.Valid() && IsEquivalence(equiv) && Distinct(equiv, Value())
    }

    /** A new pattern graph is an empty layered digraph with its root layer. */
    constructor (equiv: (N, N) -> bool, dist: (N, N) -> real, closestMatch: bool)
      requires IsEquivalence(equiv)
      ensures Valid() && fresh(graph) && fresh(graph.digraph)
      ensures this.equiv == equiv && this.dist == dist && this.closestMatch == closestMatch
      ensures graph.digraph.vertices == [] && graph.maxDepth == 1
    {
      this.equiv := equiv;
      this.dist := dist;
      this.closestMatch := closestMatch;
      graph := new LayeredDigraph();
    }

    /** `_first_match`: some candidate holding an equal node, if any. */
    method FirstMatch(node: N, candidates: set<nat>) returns (r: Option<nat>)
      requires forall c :: c in candidates ==> c < |graph.digraph.vertices|
      ensures r.Some? ==> r.value in candidates && equiv(node, graph.digraph.vertices[r.value])
      ensures r.None? ==> forall c :: c in candidates ==> !equiv(node, graph.digraph.vertices[c])
    {
      var rest := candidates;
      while rest != {}
        invariant rest <= candidates
        invariant forall c :: c in candidates - rest ==> !equiv(node, graph.digraph.vertices[c])
        decreases |rest|
      {
        var v :| v in rest;
        if equiv(node, graph.digraph.vertices[v]) {
          return Some(v);
        }
        rest := rest - {v};
      }
      return None;
    }

    /** `_best_match`: a candidate holding an equal node at the least distance, if any. */
    method BestMatch(node: N, candidates: set<nat>) returns (r: Option<nat>)
      requires forall c :: c in candidates ==> c < |graph.digraph.vertices|
      ensures r.Some? ==> r.value in candidates && equiv(node, graph.digraph.vertices[r.value])
      ensures r.Some? ==> forall c :: c in candidates && equiv(node, graph.digraph.vertices[c]) ==>
        dist(node, graph.digraph.vertices[r.value]) <= dist(node, graph.digraph.vertices[c])
      ensures r.None? ==> forall c :: c in candidates ==> !equiv(node, graph.digraph.vertices[c])
    {
      var rest := candidates;
      r := None;
      var best: real := 0.0;
      while rest != {}
        invariant rest <= candidates
        invariant r.None? ==> forall c :: c in candidates - rest ==> !equiv(node, graph.digraph.vertices[c])
        invariant r.Some? ==> r.value in candidates && equiv(node, graph.digraph.vertices[r.value])
        invariant r.Some? ==> best == dist(node, graph.digraph.vertices[r.value])
        invariant r.Some? ==> forall c :: c in candidates - rest && equiv(node, graph.digraph.vertices[c]) ==>
          best <= dist(node, graph.digraph.vertices[c])
        decreases |rest|
      {
        var v :| v in rest;
        var candidate := graph.digraph.vertices[v];
        if equiv(node, candidate) {
          var distance := dist(node, candidate);
          if r.None? || distance < best {
            r := Some(v);
            best := distance;
          }
        }
        rest := rest - {v};
      }
    }

    /** The strategy `closest_match` selects. */
    method Match(node: N, candidates: set<nat>) returns (r: Option<nat>)
      requires forall c :: c in candidates ==> c < |graph.digraph.vertices|
      ensures r.Some? ==> r.value in candidates && equiv(node, graph.digraph.vertices[r.value])
      ensures r.None? ==> forall c :: c in candidates ==> !equiv(node, graph.digraph.vertices[c])
    {
      if closestMatch {
        r := BestMatch(node, candidates);
      } else {
        r := FirstMatch(node, candidates);
      }
    }

    /** `_find_matching_vertex`: the parent's children first, then the whole
        layer; nothing below the deepest layer. Below a parent of the layer
        above, this is the unique matching vertex of the layer. */
    method FindMatchingVertex(node: N, depth: nat, parent: Option<nat>) returns (r: Option<nat>)
      requires Valid()
      requires parent.Some? ==> parent.value < |graph.digraph.vertices|
      ensures depth >= graph.maxDepth ==> r.None?
      ensures r.Some? ==> r.value < |graph.digraph.vertices| && equiv(node, graph.digraph.vertices[r.value])
      ensures r.Some? ==> graph.layerOf[r.value] == depth || (parent.Some? && r.value in graph.digraph.edges[parent.value])
      ensures r.None? ==> Lookup(equiv, Value(), depth, node).None?
      ensures parent.None? || graph.layerOf[parent.value] + 1 == depth ==> r == Lookup(equiv, Value(), depth, node)
    {
      if depth >= graph.maxDepth {
        return None;
      }
      if parent.Some? {
        var children := graph.Outgoing(parent.value).value;
        r := Match(node, children);
        if r.Some? {
          if graph.layerOf[parent.value] + 1 == depth {
            LookupUnique(equiv, Value(), depth, node, r.value);
          }
          return;
        }
      }
      var layer := graph.GetLayer(depth).value;
      r := Match(node, layer);
      if r.Some? {
        LookupUnique(equiv, Value(), depth, node, r.value);
      }
    }

    /** `_check_connection`: an edge joins the two vertices. */
    function CheckConnection(v1: Option<nat>, v2: Option<nat>): (r: bool)
      reads this, graph, graph.digraph
      requires Valid()
      requires v1.Some? ==> v1.value < |graph.digraph.vertices|
      ensures r == Connected(Value(), v1, v2)
    {
      if v1.None? || v2.None? then false
      else v2.value in graph.Outgoing(v1.value).value
    }

    /** `chain_to_vertices`: the vertex matching each node at its depth, and
        whether consecutive ones are joined by an edge. */
    method ChainToVertices(chain: seq<N>) returns (traversal: seq<Option<nat>>, connection: seq<bool>)
      requires Valid()
      ensures traversal == Traversal(equiv, Value(), chain)
      ensures connection == Connections(Value(), traversal)
    {
      traversal := [];
      connection := [];
      for depth := 0 to |chain|
        invariant traversal == Traversal(equiv, Value(), chain[..depth])
        invariant connection == Connections(Value(), traversal)
      {
        TraversalSnoc(equiv, Value(), chain, depth);
        var parent := if |traversal| > 0 then traversal[|traversal| - 1] else None;
        var matched := FindMatchingVertex(chain[depth], depth, parent);
        ConnectionsSnoc(Value(), traversal, matched);
        if matched.Some? {
          if |traversal| > 0 {
            var connected := CheckConnection(traversal[|traversal| - 1], matched);
            connection := connection + [connected];
          }
          traversal := traversal + [matched];
        } else {
          if |traversal| > 0 {
            connection := connection + [false];
          }
          traversal := traversal + [None];
        }
      }
      assert chain[..|chain|] == chain;
    }

    /** The first loop of `update`: a fresh vertex for every gap of the traversal. */
    method FillGaps(tr: seq<Option<nat>>, chain: seq<N>) returns (slots: seq<Option<nat>>, ghost owner: seq<nat>)
      requires graph.Valid() && |tr| == |chain|
      modifies graph, graph.digraph
      ensures graph.Valid()
      ensures Filling(old(Value()), tr, chain, Value(), slots, owner, |chain|)
    {
      ghost var g0 := Value();
      FillingStarts(g0, tr, chain);
      slots := tr;
      owner := [];
      for idx := 0 to |chain|
        invariant graph.Valid()
        invariant Filling(g0, tr, chain, Value(), slots, owner, idx)
      {
        if slots[idx].None? {
          ghost var g := Value();
          var id := graph.AddVertex(chain[idx]);
          FillAdds(g0, tr, chain, g, slots, owner, idx, Value());
          slots := slots[idx := Some(id)];
          owner := owner + [idx];
        } else {
          FillKeeps(g0, tr, chain, Value(), slots, owner, idx);
        }
      }
    }

    /** The second loop of `update`: an edge for every missing connection. */
    method ConnectGaps(ghost g0: GraphValue<N>, ids: seq<nat>, conn: seq<bool>)
      requires graph.Valid() && IdsFit(g0, |graph.digraph.vertices|, ids, conn)
      requires LinkedLayers(g0, ids, Value(), 0) && LinkedEdges(g0, ids, Value(), 0)
      modifies graph, graph.digraph
      ensures graph.Valid() && graph.digraph.vertices == old(graph.digraph.vertices)
      ensures LinkedLayers(g0, ids, Value(), |conn|) && LinkedEdges(g0, ids, Value(), |conn|)
    {
      for i := 0 to |conn|
        invariant graph.Valid() && graph.digraph.vertices == old(graph.digraph.vertices)
        invariant LinkedLayers(g0, ids, Value(), i) && LinkedEdges(g0, ids, Value(), i)
      {
        if !conn[i] {
          ghost var g := Value();
          LinkAllowed(g0, ids, conn, g, i);
          var added := graph.AddEdge(ids[i], ids[i + 1]);
          LinkAddsLayers(g0, ids, conn, g, i, graph.State());
          LinkAddsEdges(g0, ids, g, i, graph.State());
        } else {
          LinkKeeps(g0, ids, conn, Value(), i);
        }
      }
    }

    /** `update`: the matched vertices are reused, every gap gets a fresh
        vertex holding the chain's node, and every missing step gets an edge;
        afterwards the vertex of depth d lies in layer d and the chain is known. */
    method Update(chain: seq<N>) returns (vertices: seq<nat>)
      requires Valid()
      modifies graph, graph.digraph
      ensures Valid()
      ensures Updated(equiv, old(Value()), chain, vertices, Value())
    {
      ghost var g0 := Value();
      var traversal, connection := ChainToVertices(chain);
      ghost var tr := traversal;
      var slots;
      ghost var owner;
      slots, owner := FillGaps(traversal, chain);
      ghost var g1 := Value();
      assert forall d :: 0 <= d < |slots| ==> slots[d].Some?;
      vertices := seq(|slots|, d requires 0 <= d < |slots| => slots[d].value);
      assert Prepared(equiv, g0, tr, connection, chain, g1, slots, owner, vertices);
      PreparedFits(equiv, g0, tr, connection, chain, g1, slots, owner, vertices);
      LinkingStarts(g0, g1, |owner|, vertices, connection);
      ConnectGaps(g0, vertices, connection);
      Finished(equiv, g0, tr, connection, chain, g1, slots, owner, vertices, Value());
    }

    /** `learn`: one `update` per chain, in order; afterwards every chain is
        known and each returned path is its chain's path through the final graph. */
    method Learn(chains: seq<seq<N>>) returns (paths: seq<seq<nat>>)
      requires Valid()
      modifies graph, graph.digraph
      ensures Valid() && |paths| == |chains| && Grows(old(Value()), Value())
      ensures forall i :: 0 <= i < |chains| ==> ChainPath(equiv, Value(), paths[i], chains[i])
      ensures forall i :: 0 <= i < |chains| ==> Recognises(equiv, Value(), chains[i])
    {
      ghost var g0 := Value();
      paths := [];
      for i := 0 to |chains|
        invariant Valid() && |paths| == i && Grows(g0, Value())
        invariant forall j :: 0 <= j < i ==> ChainPath(equiv, Value(), paths[j], chains[j])
        invariant forall j :: 0 <= j < i ==> Recognises(equiv, Value(), chains[j])
      {
        ghost var g := Value();
        var path := Update(chains[i]);
        LearnStep(equiv, g0, g, Value(), chains, i);
        paths := paths + [path];
        LearnPathsStep(equiv, g, Value(), chains, paths, i);
      }
    }

    /** `contains`: every node is matched at its depth and every step is an edge. */
    method Contains(chain: seq<N>) returns (r: bool)
      requires Valid()
      ensures r <==> Recognises(equiv, Value(), chain)
    {
      var traversal, connection := ChainToVertices(chain);
      r := (forall d :: 0 <= d < |traversal| ==> traversal[d].Some?) &&
           (forall d :: 0 <= d < |connection| ==> connection[d]);
      RecognisesIffFound(equiv, Value(), chain);
    }
  }
}
