/** Directed graphs (src/pbsf/utils/digraph.py) and layered directed graphs
    (src/pbsf/utils/layered_digraph.py). */
module Digraphs {
  import opened Wrappers

  /** A directed graph whose vertices carry properties of type P; vertex
      ids are positions in `vertices`, `edges[v]` holds v's targets. */
  class Digraph<P> {
    var vertices: seq<P>
    var edges: seq<set<nat>>

    ghost predicate Valid()
      reads this
    {
      |edges| == |vertices| &&
      forall u, t :: 0 <= u < |edges| && t in edges[u] ==> t < |vertices|
    }

    constructor ()
      ensures Valid() && vertices == [] && edges == []
    {
      vertices := [];
      edges := [];
    }

    /** `add_vertex`: the new vertex gets the next id and no edges. */
    method AddVertex(properties: P) returns (id: nat)
      requires Valid()
      modifies this
      ensures Valid()
      ensures id == old(|vertices|)
      ensures vertices == old(vertices) + [properties] && edges == old(edges) + [{}]
    {
      id := |vertices|;
      vertices := vertices + [properties];
      edges := edges + [{}];
    }

    /** `add_edge`: both ends must exist; adding an edge twice changes nothing. */
    method AddEdge(from: nat, to: nat) returns (r: Outcome)
      requires Valid()
      modifies this
      ensures Valid() && vertices == old(vertices)
      ensures r.Pass? <==> from < |vertices| && to < |vertices|
      ensures r.Fail? ==> r.error.ValueError? && edges == old(edges)
      ensures r.Pass? ==> edges == old(edges)[from := old(edges)[from] + {to}]
    {
      if from >= |vertices| {
        return Fail(ValueError("Vertex does not exist."));
      }
      if to >= |vertices| {
        return Fail(ValueError("Vertex does not exist."));
      }
      edges := edges[from := edges[from] + {to}];
      return Pass;
    }

    /** `outgoing`: the targets of a vertex, which are vertices of the graph. */
    function Outgoing(v: nat): (r: Result<set<nat>>)
      reads this
      requires Valid()
      ensures r.Success? <==> v < |vertices|
      ensures r.Failure? ==> r.error.ValueError?
      ensures r.Success? ==> r.value == edges[v] && forall t :: t in r.value ==> t < |vertices|
    {
      if v >= |vertices| then Failure(ValueError("Vertex does not exist."))
      else Success(edges[v])
    }
  }

  /** The edges and the layer assignment of a layered digraph:
      `layers[l]` is the set of vertices in layer l and `layerOf[v]` is the
      "layer" property of vertex v. */
  datatype LayeredState = LayeredState(edges: seq<set<nat>>, layers: seq<set<nat>>, layerOf: seq<nat>)

  /** Every vertex sits in exactly the layer its property names. */
  ghost predicate LayersNamed(s: LayeredState)
  {
    |s.layers| >= 1 &&
    (forall v :: 0 <= v < |s.layerOf| ==> s.layerOf[v] < |s.layers|) &&
    (forall v :: 0 <= v < |s.layerOf| ==> v in s.layers[s.layerOf[v]]) &&
    (forall l: int, v: nat :: 0 <= l < |s.layers| && v in s.layers[l] ==> v < |s.layerOf|) &&
    (forall l: int, v: nat :: 0 <= l < |s.layers| && v in s.layers[l] ==> s.layerOf[v] == l)
  }

  /** The layered structure the class maintains: every vertex sits in
      exactly the layer its property names, edges go from layer n to layer
      n + 1, and root-layer vertices have no incoming edges. */
  ghost predicate WellLayered(s: LayeredState)
  {
    |s.edges| == |s.layerOf| && LayersNamed(s) &&
    (forall u: int, t: nat :: 0 <= u < |s.edges| && t in s.edges[u] ==> t < |s.layerOf|) &&
    (forall u: int, t: nat :: 0 <= u < |s.edges| && t in s.edges[u] ==>
      s.layerOf[t] == s.layerOf[u] + 1 && s.layerOf[t] != 0)
  }

  /** `_update_layer(v, layer)` on a vertex that already has a layer. */
  function UpdateLayer(s: LayeredState, v: nat, layer: nat): (r: LayeredState)
    requires v < |s.layerOf| && s.layerOf[v] < |s.layers| && layer <= |s.layers|
    ensures r.edges == s.edges && r.layerOf == s.layerOf[v := layer]
    ensures |r.layers| == if layer == |s.layers| then |s.layers| + 1 else |s.layers|
    ensures forall l :: 0 <= l < |r.layers| ==>
      r.layers[l] ==
        (if l < |s.layers| then s.layers[l] else {}) - (if l == s.layerOf[v] then {v} else {})
          + (if l == layer then {v} else {})
  {
    var removed := s.layers[s.layerOf[v] := s.layers[s.layerOf[v]] - {v}];
    var grown := if |removed| <= layer then removed + [{}] else removed;
    LayeredState(s.edges, grown[layer := grown[layer] + {v}], s.layerOf[v := layer])
  }

  /** `add_vertex`: the new vertex starts in the root layer. */
  function VertexAdded(s: LayeredState): (r: LayeredState)
    requires |s.layers| >= 1
    ensures |r.layerOf| == |s.layerOf| + 1 && r.layerOf[|s.layerOf|] == 0
  {
    var v := |s.layerOf|;
    LayeredState(s.edges + [{}], s.layers[0 := s.layers[0] + {v}], s.layerOf + [0])
  }

  /** The condition under which `add_edge` accepts an edge: a root-layer
      target must have no outgoing edges (and, in the corrected version, must
      not be the source itself); any other target must sit one layer below
      the source. */
  predicate EdgeAllowed(s: LayeredState, from: nat, to: nat)
    requires from < |s.layerOf| && to < |s.layerOf| && |s.edges| == |s.layerOf|
  {
    if s.layerOf[to] == 0 then s.edges[to] == {} && from != to
    else s.layerOf[to] == s.layerOf[from] + 1
  }

  /** The corrected `add_edge`: `vertices[from]` and `vertices[to]` raise
      IndexError for a missing vertex, a refused edge raises ValueError, and
      an accepted one is added and moves the target below the source. */
  function EdgeAdded(s: LayeredState, from: nat, to: nat): (r: Result<LayeredState>)
    requires WellLayered(s)
    ensures from >= |s.layerOf| || to >= |s.layerOf| ==> r.Failure? && r.error.IndexError?
    ensures from < |s.layerOf| && to < |s.layerOf| ==>
      (r.Success? <==> EdgeAllowed(s, from, to)) &&
      (r.Failure? ==> r.error.ValueError?)
    ensures r.Success? ==>
      r.value.edges == s.edges[from := s.edges[from] + {to}] &&
      r.value.layerOf == s.layerOf[to := s.layerOf[from] + 1]
  {
    if from >= |s.layerOf| || to >= |s.layerOf| then Failure(IndexError("list index out of range"))
    else if !EdgeAllowed(s, from, to) then Failure(ValueError("Cannot add edge."))
    else
      var added := s.(edges := s.edges[from := s.edges[from] + {to}]);
      Success(UpdateLayer(added, to, s.layerOf[from] + 1))
  }

  lemma AddVertexPreserves(s: LayeredState)
    requires WellLayered(s)
    ensures WellLayered(VertexAdded(s))
  {
    var r := VertexAdded(s);
    var n := |s.layerOf|;
    assert r.edges == s.edges + [{}] && r.layerOf == s.layerOf + [0];
    forall u: int, t: nat | 0 <= u < |r.edges| && t in r.edges[u]
      ensures t < |r.layerOf| && r.layerOf[t] == r.layerOf[u] + 1 && r.layerOf[t] != 0
    {
      assert u < n && r.edges[u] == s.edges[u];
      assert t < n && r.layerOf[t] == s.layerOf[t] && r.layerOf[u] == s.layerOf[u];
    }
    assert |r.layers| == |s.layers|;
    forall w | 0 <= w < |r.layerOf|
      ensures r.layerOf[w] < |r.layers| && w in r.layers[r.layerOf[w]]
    {
      if w < n {
        var l := s.layerOf[w];
        assert r.layerOf[w] == l && w in s.layers[l];
        assert r.layers[l] == if l == 0 then s.layers[0] + {n} else s.layers[l];
      } else {
        assert r.layerOf[w] == 0 && r.layers[0] == s.layers[0] + {n};
      }
    }
    forall l: int, w: nat | 0 <= l < |r.layers| && w in r.layers[l]
      ensures w < |r.layerOf| && r.layerOf[w] == l
    {
      assert r.layers[l] == if l == 0 then s.layers[0] + {n} else s.layers[l];
      if w != n || l != 0 {
        assert w in s.layers[l];
        assert w < n && r.layerOf[w] == s.layerOf[w];
      }
    }
    assert WellLayered(r);
  }

  /** The layers of a well-layered graph, as sets, stay those the layer
      numbers name when one vertex moves. */
  lemma UpdateLayerKeepsLayers(s: LayeredState, v: nat, layer: nat, r: LayeredState)
    requires v < |s.layerOf| && s.layerOf[v] < |s.layers| && layer <= |s.layers| && LayersNamed(s)
    requires r == UpdateLayer(s, v, layer)
    ensures LayersNamed(r)
  {
    assert |r.layerOf| == |s.layerOf|;
    forall w | 0 <= w < |r.layerOf|
      ensures r.layerOf[w] < |r.layers| && w in r.layers[r.layerOf[w]]
    {
      if w != v {
        assert r.layerOf[w] == s.layerOf[w];
        assert w in s.layers[s.layerOf[w]];
      }
    }
    forall l: int, w: nat | 0 <= l < |r.layers| && w in r.layers[l]
      ensures w < |r.layerOf| && r.layerOf[w] == l
    {
      if w != v {
        assert l < |s.layers| && w in s.layers[l];
        assert r.layerOf[w] == s.layerOf[w];
      }
    }
  }

  /** An accepted edge keeps the graph layered. */
  lemma AddEdgePreserves(s: LayeredState, from: nat, to: nat)
    requires WellLayered(s) && EdgeAdded(s, from, to).Success?
    ensures WellLayered(EdgeAdded(s, from, to).value)
  {
    var r := EdgeAdded(s, from, to).value;
    var n := |s.layerOf|;
    var added := s.(edges := s.edges[from := s.edges[from] + {to}]);
    UpdateLayerKeepsLayers(added, to, s.layerOf[from] + 1, r);
    assert from != to;
    assert r.edges == s.edges[from := s.edges[from] + {to}];
    assert r.layerOf == s.layerOf[to := s.layerOf[from] + 1];
    forall u: int, t: nat | 0 <= u < |r.edges| && t in r.edges[u]
      ensures t < |r.layerOf| && r.layerOf[t] == r.layerOf[u] + 1 && r.layerOf[t] != 0
    {
      if u == from && t == to {
        assert r.layerOf[from] == s.layerOf[from];
      } else {
        assert t in s.edges[u];
        assert t < n && s.layerOf[t] == s.layerOf[u] + 1 && s.layerOf[t] != 0;
        if s.layerOf[to] == 0 {
          // the target had neither outgoing nor incoming edges
          assert u != to;
          assert t != to;
          assert r.layerOf[t] == s.layerOf[t] && r.layerOf[u] == s.layerOf[u];
        } else {
          assert r.layerOf == s.layerOf;
        }
      }
    }
    assert WellLayered(r);
  }

  /** A path: consecutive vertices joined by edges. */
  ghost predicate IsPath(s: LayeredState, p: seq<nat>)
  {
    |p| >= 1 &&
    (forall i :: 0 <= i < |p| ==> p[i] < |s.edges|) &&
    (forall i :: 0 <= i < |p| - 1 ==> p[i + 1] in s.edges[p[i]])
  }

  /** Along a path every edge goes one layer deeper. */
  lemma {:induction false} PathDescends(s: LayeredState, p: seq<nat>)
    requires WellLayered(s) && IsPath(s, p)
    ensures s.layerOf[p[|p| - 1]] == s.layerOf[p[0]] + |p| - 1
  {
    if |p| > 1 {
      var q := p[..|p| - 1];
      assert IsPath(s, q);
      PathDescends(s, q);
    }
  }

  /** A layered digraph is acyclic: no path of one or more edges returns
      to its start. */
  lemma Acyclic(s: LayeredState, p: seq<nat>)
    requires WellLayered(s) && IsPath(s, p) && |p| >= 2
    ensures p[|p| - 1] != p[0]
  {
    PathDescends(s, p);
  }

  /** `add_edge` as written: a root-layer target without outgoing edges is
      accepted even when it is the source. */
  function EdgeAddedAsWritten(s: LayeredState, from: nat, to: nat): (r: Result<LayeredState>)
    requires WellLayered(s)
    ensures from < |s.layerOf| && to < |s.layerOf| && from != to ==> r == EdgeAdded(s, from, to)
  {
    if from >= |s.layerOf| || to >= |s.layerOf| then Failure(IndexError("list index out of range"))
    else if s.layerOf[to] == 0 && s.edges[to] != {} then Failure(ValueError("Cannot add edge."))
    else if s.layerOf[to] != 0 && s.layerOf[to] != s.layerOf[from] + 1 then Failure(ValueError("Cannot add edge."))
    else
      var added := s.(edges := s.edges[from := s.edges[from] + {to}]);
      Success(UpdateLayer(added, to, s.layerOf[from] + 1))
  }

  /** A self-loop on a fresh vertex: the source accepts it, the vertex moves
      to layer 1 and now points into its own layer. */
  lemma SelfLoopBreaksLayering()
    ensures var s := VertexAdded(LayeredState([], [{}], []));
      WellLayered(s) &&
      EdgeAddedAsWritten(s, 0, 0).Success? && !WellLayered(EdgeAddedAsWritten(s, 0, 0).value) &&
      EdgeAdded(s, 0, 0).Failure?
  {
    var s := VertexAdded(LayeredState([], [{}], []));
    var r := EdgeAddedAsWritten(s, 0, 0).value;
    assert 0 in r.edges[0] && r.layerOf[0] == 1;
  }

  /** `get_layer`: Python list indexing, so a negative layer counts from
      the deepest one. */
  function LayerAt(s: LayeredState, layer: int): (r: Result<set<nat>>)
    requires WellLayered(s)
    ensures r.Success? <==> -|s.layers| <= layer < |s.layers|
    ensures r.Failure? ==> r.error.IndexError?
    ensures r.Success? ==>
      var l := if layer < 0 then layer + |s.layers| else layer;
      forall v: nat :: v in r.value <==> v < |s.layerOf| && s.layerOf[v] == l
  {
    if layer >= |s.layers| then Failure(IndexError("Layer does not exist."))
    else if layer < -|s.layers| then Failure(IndexError("list index out of range"))
    else if layer < 0 then Success(s.layers[layer + |s.layers|])
    else Success(s.layers[layer])
  }

  /** A digraph whose vertices are arranged in layers; the graph part is a
      `Digraph`, the layer bookkeeping lives here. */
  class LayeredDigraph<P> {
    const digraph: Digraph<P>
    var layers: seq<set<nat>>
    var layerOf: seq<nat>
    var maxDepth: int

    function State(): LayeredState
      reads this, digraph
    {
      LayeredState(digraph.edges, layers, layerOf)
    }

    ghost predicate Valid()
      reads this, digraph
    {
      digraph.Valid() && |layerOf| == |digraph.vertices| &&
      WellLayered(State()) && maxDepth == |layers|
    }

    constructor ()
      ensures Valid() && fresh(digraph)
      ensures digraph.vertices == [] && State() == LayeredState([], [{}], [])
    {
      digraph := new Digraph();
      layers := [{}];
      layerOf := [];
      maxDepth := 1;
    }

    /** `_update_layer`: moves a vertex to a layer, growing the layer list
        (and `max_depth`) by one when the layer is new. */
    method MoveToLayer(v: nat, layer: nat)
      requires v < |layerOf| && layerOf[v] < |layers| && layer <= |layers| && maxDepth == |layers|
      modifies this
      ensures State() == UpdateLayer(old(State()), v, layer)
      ensures maxDepth == |layers|
    {
      layers := layers[layerOf[v] := layers[layerOf[v]] - {v}];
      if |layers| <= layer {
        layers := layers + [{}];
        maxDepth := maxDepth + 1;
      }
      layers := layers[layer := layers[layer] + {v}];
      layerOf := layerOf[v := layer];
    }

    /** `add_vertex`: a new vertex in the root layer. */
    method AddVertex(properties: P) returns (id: nat)
      requires Valid()
      modifies this, digraph
      ensures Valid()
      ensures id == old(|digraph.vertices|) && digraph.vertices == old(digraph.vertices) + [properties]
      ensures State() == VertexAdded(old(State()))
    {
      AddVertexPreserves(State());
      id := digraph.AddVertex(properties);
      layers := layers[0 := layers[0] + {id}];
      layerOf := layerOf + [0];
    }

    /** `add_edge` with the self-loop case refused. */
    method AddEdge(from: nat, to: nat) returns (r: Outcome)
      requires Valid()
      modifies this, digraph
      ensures Valid() && digraph.vertices == old(digraph.vertices)
      ensures var spec := EdgeAdded(old(State()), from, to);
        (r.Pass? <==> spec.Success?) &&
        (r.Fail? ==> r.error == spec.error && State() == old(State())) &&
        (r.Pass? ==> State() == spec.value)
    {
      var n := |layerOf|;
      if from >= n || to >= n {
        return Fail(IndexError("list index out of range"));
      }
      if !EdgeAllowed(State(), from, to) {
        return Fail(ValueError("Cannot add edge."));
      }
      ghost var before := State();
      AddEdgePreserves(before, from, to);
      var added := digraph.AddEdge(from, to);
      MoveToLayer(to, layerOf[from] + 1);
      return Pass;
    }

    function Outgoing(v: nat): (r: Result<set<nat>>)
      reads this, digraph
      requires Valid()
      ensures r.Success? <==> v < |digraph.vertices|
      ensures r.Success? ==> r.value == digraph.edges[v]
      ensures r.Success? ==> forall t :: t in r.value ==> t < |digraph.vertices| && layerOf[t] == layerOf[v] + 1
    {
      digraph.Outgoing(v)
    }

    function GetLayer(layer: int): (r: Result<set<nat>>)
      reads this, digraph
      requires Valid()
      ensures r == LayerAt(State(), layer)
    {
      LayerAt(State(), layer)
    }
  }
}
