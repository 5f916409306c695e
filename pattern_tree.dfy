// The pattern tree: chains of nodes stored as root-to-leaf paths of a digraph.

module PatternTrees {
  import opened Wrappers
  import opened PatternNodes
  import opened Digraphs

  /** The properties of a tree vertex: the root (node "root", depth -1) or a
      node of a chain together with the node's depth. */
  datatype TreeVertex<N> = RootVertex | NodeVertex(node: N, depth: int)

  /** `node == candidate["node"]`; the string "root" equals no node. */
  predicate Matches<N>(equiv: (N, N) -> bool, p: TreeVertex<N>, x: N)
  {
    p.NodeVertex? && equiv(x, p.node)
  }

  /** Two vertices hold equivalent nodes. */
  predicate SameNode<N>(equiv: (N, N) -> bool, p: TreeVertex<N>, q: TreeVertex<N>)
  {
    p.NodeVertex? && q.NodeVertex? && equiv(p.node, q.node)
  }

  /** Every edge leads to a vertex added later. */
  ghost predicate Forward<N>(vs: seq<TreeVertex<N>>, es: seq<set<nat>>)
  {
    |vs| == |es| &&
    forall u, t :: 0 <= u < |es| && t in es[u] ==> u < t < |es|
  }

  /** Some earlier vertex has an edge to `t`. */
  ghost predicate HasParent(es: seq<set<nat>>, t: nat)
  {
    exists u :: 0 <= u < t && u < |es| && t in es[u]
  }

  /** Every vertex but the root has exactly one incoming edge, from an earlier vertex. */
  ghost predicate OneParent(es: seq<set<nat>>)
  {
    (forall t :: 0 < t < |es| ==> HasParent(es, t)) &&
    (forall u1, u2, t :: 0 <= u1 < |es| && 0 <= u2 < |es| && t in es[u1] && t in es[u2] ==> u1 == u2)
  }

  /** The shape `update` maintains: vertex 0 is the root, every other vertex
      holds a node and hangs below exactly one earlier vertex, and no two
      children of a vertex hold equivalent nodes. */
  ghost predicate TreeShaped<N>(equiv: (N, N) -> bool, vs: seq<TreeVertex<N>>, es: seq<set<nat>>)
  {
    Forward(vs, es) && OneParent(es) && |vs| >= 1 && vs[0] == RootVertex &&
    (forall v :: 0 < v < |vs| ==> vs[v].NodeVertex?) &&
    (forall u, a, b :: 0 <= u < |es| && a in es[u] && b in es[u] && a != b && a < |vs| && b < |vs| ==>
      !SameNode(equiv, vs[a], vs[b]))
  }

  /** No child of `v` holds a node equivalent to `x`. */
  ghost predicate Stuck<N>(equiv: (N, N) -> bool, vs: seq<TreeVertex<N>>, es: seq<set<nat>>, v: nat, x: N)
    requires v < |es|
  {
    forall c :: c in es[v] && c < |vs| ==> !Matches(equiv, vs[c], x)
  }

  /** `p` starts anywhere and its i-th edge leads to a vertex matching `chain[i]`. */
  ghost predicate MatchedPath<N>(equiv: (N, N) -> bool, vs: seq<TreeVertex<N>>, es: seq<set<nat>>, p: seq<nat>, chain: seq<N>)
  {
    1 <= |p| <= |chain| + 1 && |vs| == |es| &&
    (forall i :: 0 <= i < |p| ==> p[i] < |es|) &&
    (forall i :: 0 <= i < |p| - 1 ==> p[i + 1] in es[p[i]]) &&
    (forall i :: 0 <= i < |p| - 1 ==> Matches(equiv, vs[p[i + 1]], chain[i]))
  }

  /** The path cannot be extended: it covers the chain or its end is stuck. */
  ghost predicate Maximal<N>(equiv: (N, N) -> bool, vs: seq<TreeVertex<N>>, es: seq<set<nat>>, p: seq<nat>, chain: seq<N>)
    requires MatchedPath(equiv, vs, es, p, chain)
  {
    |p| == |chain| + 1 || Stuck(equiv, vs, es, p[|p| - 1], chain[|p| - 1])
  }

  /** The vertices `chain_to_vertices` follows below `v`, one per matched node. */
  ghost function Walk<N>(equiv: (N, N) -> bool, vs: seq<TreeVertex<N>>, es: seq<set<nat>>, v: nat, chain: seq<N>): (r: seq<nat>)
    requires Forward(vs, es) && v < |es|
    ensures |r| <= |chain|
    ensures forall i :: 0 <= i < |r| ==> r[i] < |es|
    decreases |chain|
  {
    if chain != [] && exists c :: c in es[v] && c < |vs| && Matches(equiv, vs[c], chain[0]) then
      var c :| c in es[v] && c < |vs| && Matches(equiv, vs[c], chain[0]);
      [c] + Walk(equiv, vs, es, c, chain[1..])
    else []
  }

  /** The tree knows the whole chain. */
  ghost predicate Recognises<N>(equiv: (N, N) -> bool, vs: seq<TreeVertex<N>>, es: seq<set<nat>>, chain: seq<N>)
    requires Forward(vs, es) && |es| >= 1
  {
    |Walk(equiv, vs, es, 0, chain)| == |chain|
  }

  /** The graph after `update` hangs fresh vertices for `xs` below `parent`, one under the other. */
  ghost function Attached<N>(vs: seq<TreeVertex<N>>, es: seq<set<nat>>, depthOf: N -> int, parent: nat, xs: seq<N>):
    (r: (seq<TreeVertex<N>>, seq<set<nat>>))
    requires |vs| == |es| && parent < |es|
    ensures |r.0| == |r.1| == |vs| + |xs|
    decreases |xs|
  {
    if xs == [] then (vs, es)
    else
      var v := |vs|;
      Attached(vs + [NodeVertex(xs[0], depthOf(xs[0]))], (es + [{}])[parent := es[parent] + {v}], depthOf, v, xs[1..])
  }

  /** The properties of the vertices `update` adds. */
  function NewVertices<N>(depthOf: N -> int, xs: seq<N>): (r: seq<TreeVertex<N>>)
    ensures |r| == |xs|
    ensures forall i :: 0 <= i < |xs| ==> r[i] == NodeVertex(xs[i], depthOf(xs[i]))
    decreases |xs|
  {
    if xs == [] then [] else [NodeVertex(xs[0], depthOf(xs[0]))] + NewVertices(depthOf, xs[1..])
  }

  /** The ids `from`, `from + 1`, ... of `n` vertices added one after another. */
  function Count(from: nat, n: nat): (r: seq<nat>)
    ensures |r| == n && forall i :: 0 <= i < n ==> r[i] == from + i
    decreases n
  {
    if n == 0 then [] else [from] + Count(from + 1, n - 1)
  }

  /** The second graph has the vertices of the first and at least its edges. */
  ghost predicate Grows<N>(vs: seq<TreeVertex<N>>, es: seq<set<nat>>, vs': seq<TreeVertex<N>>, es': seq<set<nat>>)
  {
    |es| <= |es'| && vs <= vs' && forall u :: 0 <= u < |es| ==> es[u] <= es'[u]
  }

  lemma {:induction false} CountSnoc(from: nat, n: nat)
    ensures Count(from, n + 1) == Count(from, n) + [from + n]
    decreases n
  {
    if n > 0 {
      CountSnoc(from + 1, n - 1);
    }
  }

  /** One step of `Attached`: hanging the first fresh vertex leaves the rest to hang below it. */
  lemma AttachedStep<N>(vs: seq<TreeVertex<N>>, es: seq<set<nat>>, depthOf: N -> int, parent: nat, xs: seq<N>,
                        target: (seq<TreeVertex<N>>, seq<set<nat>>), vs': seq<TreeVertex<N>>, es': seq<set<nat>>)
    requires |vs| == |es| && parent < |es| && xs != [] && Attached(vs, es, depthOf, parent, xs) == target
    requires vs' == vs + [NodeVertex(xs[0], depthOf(xs[0]))] && es' == (es + [{}])[parent := es[parent] + {|vs|}]
    ensures Attached(vs', es', depthOf, |vs|, xs[1..]) == target
  {
  }

  lemma PathPlusCount(p: seq<nat>, v: nat, k: nat)
    requires k >= 1
    ensures (p + [v]) + Count(v + 1, k - 1) == p + Count(v, k)
  {
    assert Count(v, k) == [v] + Count(v + 1, k - 1);
  }

  lemma GrowsTransitive<N>(vs: seq<TreeVertex<N>>, es: seq<set<nat>>, vs': seq<TreeVertex<N>>, es': seq<set<nat>>,
                           vs'': seq<TreeVertex<N>>, es'': seq<set<nat>>)
    requires Grows(vs, es, vs', es') && Grows(vs', es', vs'', es'')
    ensures Grows(vs, es, vs'', es'')
  {
  }

  /** In a tree at most one child of a vertex matches a node. */
  lemma ChildMatchUnique<N(!new)>(equiv: (N, N) -> bool, vs: seq<TreeVertex<N>>, es: seq<set<nat>>, u: nat, a: nat, b: nat, x: N)
    requires IsEquivalence(equiv) && TreeShaped(equiv, vs, es)
    requires u < |es| && a in es[u] && b in es[u]
    requires Matches(equiv, vs[a], x) && Matches(equiv, vs[b], x)
    ensures a == b
  {
    if a != b {
      MatchIsUnique(equiv, x, vs[a].node, vs[b].node);
      assert SameNode(equiv, vs[a], vs[b]);
    }
  }

  /** The walk is a maximal matched path. */
  lemma {:induction false} WalkIsMaximalPath<N>(equiv: (N, N) -> bool, vs: seq<TreeVertex<N>>, es: seq<set<nat>>, v: nat, chain: seq<N>)
    requires Forward(vs, es) && v < |es|
    ensures MatchedPath(equiv, vs, es, [v] + Walk(equiv, vs, es, v, chain), chain)
    ensures Maximal(equiv, vs, es, [v] + Walk(equiv, vs, es, v, chain), chain)
    decreases |chain|
  {
    var w := Walk(equiv, vs, es, v, chain);
    var p := [v] + w;
    if w != [] {
      var c := w[0];
      var rest := Walk(equiv, vs, es, c, chain[1..]);
      assert w == [c] + rest;
      WalkIsMaximalPath(equiv, vs, es, c, chain[1..]);
      var q := [c] + rest;
      assert p == [v] + q;
      forall i | 0 <= i < |p| - 1
        ensures p[i + 1] in es[p[i]] && Matches(equiv, vs[p[i + 1]], chain[i])
      {
        if i > 0 {
          assert p[i] == q[i - 1] && p[i + 1] == q[i] && chain[i] == chain[1..][i - 1];
        }
      }
      if |p| < |chain| + 1 {
        assert p[|p| - 1] == q[|q| - 1] && chain[|p| - 1] == chain[1..][|q| - 1];
      }
    }
  }

  /** In a tree every maximal matched path from `p[0]` is the walk. */
  lemma {:induction false} MaximalPathIsWalk<N(!new)>(equiv: (N, N) -> bool, vs: seq<TreeVertex<N>>, es: seq<set<nat>>, p: seq<nat>, chain: seq<N>)
    requires IsEquivalence(equiv) && TreeShaped(equiv, vs, es)
    requires MatchedPath(equiv, vs, es, p, chain) && Maximal(equiv, vs, es, p, chain)
    ensures Walk(equiv, vs, es, p[0], chain) == p[1..]
    decreases |chain|
  {
    if |p| > 1 {
      var c := p[1];
      assert c in es[p[0]] && c < |vs| && Matches(equiv, vs[c], chain[0]);
      var w := Walk(equiv, vs, es, p[0], chain);
      var c' := w[0];
      assert c' in es[p[0]] && Matches(equiv, vs[c'], chain[0]);
      ChildMatchUnique(equiv, vs, es, p[0], c, c', chain[0]);
      var q := p[1..];
      assert MatchedPath(equiv, vs, es, q, chain[1..]) by {
        forall i | 0 <= i < |q| - 1
          ensures q[i + 1] in es[q[i]] && Matches(equiv, vs[q[i + 1]], chain[1..][i])
        {
          assert q[i] == p[i + 1] && q[i + 1] == p[i + 2];
        }
      }
      assert Maximal(equiv, vs, es, q, chain[1..]) by {
        if |q| < |chain[1..]| + 1 {
          assert q[|q| - 1] == p[|p| - 1] && chain[1..][|q| - 1] == chain[|p| - 1];
        }
      }
      MaximalPathIsWalk(equiv, vs, es, q, chain[1..]);
      assert q[1..] == p[2..];
    } else if chain != [] {
      assert Stuck(equiv, vs, es, p[0], chain[0]);
    }
  }

  /** The tree recognises a chain exactly when some path from the root matches all of it. */
  lemma RecognisedIffFullPath<N(!new)>(equiv: (N, N) -> bool, vs: seq<TreeVertex<N>>, es: seq<set<nat>>, chain: seq<N>)
    requires IsEquivalence(equiv) && TreeShaped(equiv, vs, es)
    ensures Recognises(equiv, vs, es, chain) <==>
      exists p :: MatchedPath(equiv, vs, es, p, chain) && p[0] == 0 && |p| == |chain| + 1
  {
    if Recognises(equiv, vs, es, chain) {
      WalkIsMaximalPath(equiv, vs, es, 0, chain);
      var p := [0] + Walk(equiv, vs, es, 0, chain);
      assert MatchedPath(equiv, vs, es, p, chain) && p[0] == 0;
    }
    if exists p :: MatchedPath(equiv, vs, es, p, chain) && p[0] == 0 && |p| == |chain| + 1 {
      var p :| MatchedPath(equiv, vs, es, p, chain) && p[0] == 0 && |p| == |chain| + 1;
      MaximalPathIsWalk(equiv, vs, es, p, chain);
    }
  }

  /** Adding vertices and edges keeps every matched path. */
  lemma GrowsKeepsPath<N>(equiv: (N, N) -> bool, vs: seq<TreeVertex<N>>, es: seq<set<nat>>,
                          vs': seq<TreeVertex<N>>, es': seq<set<nat>>, p: seq<nat>, chain: seq<N>)
    requires Grows(vs, es, vs', es') && |vs'| == |es'| && MatchedPath(equiv, vs, es, p, chain)
    ensures MatchedPath(equiv, vs', es', p, chain)
  {
    forall i | 0 <= i < |p| - 1
      ensures p[i + 1] in es'[p[i]] && Matches(equiv, vs'[p[i + 1]], chain[i])
    {
      assert vs'[p[i + 1]] == vs[p[i + 1]];
    }
  }

  /** A recognised chain stays recognised when the tree grows. */
  lemma GrowsKeepsRecognised<N(!new)>(equiv: (N, N) -> bool, vs: seq<TreeVertex<N>>, es: seq<set<nat>>,
                                       vs': seq<TreeVertex<N>>, es': seq<set<nat>>, chain: seq<N>)
    requires IsEquivalence(equiv) && TreeShaped(equiv, vs, es) && TreeShaped(equiv, vs', es')
    requires Grows(vs, es, vs', es') && Recognises(equiv, vs, es, chain)
    ensures Recognises(equiv, vs', es', chain)
  {
    WalkIsMaximalPath(equiv, vs, es, 0, chain);
    var p := [0] + Walk(equiv, vs, es, 0, chain);
    GrowsKeepsPath(equiv, vs, es, vs', es', p, chain);
    MaximalPathIsWalk(equiv, vs', es', p, chain);
  }

  /** `p` follows all of `chain` from the root. */
  ghost predicate FullPath<N>(equiv: (N, N) -> bool, vs: seq<TreeVertex<N>>, es: seq<set<nat>>, p: seq<nat>, chain: seq<N>)
  {
    MatchedPath(equiv, vs, es, p, chain) && |p| == |chain| + 1 && p[0] == 0
  }

  /** In a tree a path following all of a chain from the root is the walk, and the chain is recognised. */
  lemma FullPathIsWalk<N(!new)>(equiv: (N, N) -> bool, vs: seq<TreeVertex<N>>, es: seq<set<nat>>, p: seq<nat>, chain: seq<N>)
    requires IsEquivalence(equiv) && TreeShaped(equiv, vs, es) && FullPath(equiv, vs, es, p, chain)
    ensures p == [0] + Walk(equiv, vs, es, 0, chain)
    ensures Recognises(equiv, vs, es, chain)
  {
    MaximalPathIsWalk(equiv, vs, es, p, chain);
    assert p == [p[0]] + p[1..];
  }

  /** After the i-th `update` of `learn`, the paths returned so far still follow their chains from the root. */
  lemma LearnPathsStep<N(!new)>(equiv: (N, N) -> bool, vs: seq<TreeVertex<N>>, es: seq<set<nat>>,
                                vs': seq<TreeVertex<N>>, es': seq<set<nat>>, chains: seq<seq<N>>, paths: seq<seq<nat>>, i: nat)
    requires IsEquivalence(equiv) && TreeShaped(equiv, vs, es) && TreeShaped(equiv, vs', es')
    requires Grows(vs, es, vs', es') && i < |chains| && |paths| == i + 1
    requires forall j :: 0 <= j < i ==> FullPath(equiv, vs, es, paths[j], chains[j])
    requires Recognises(equiv, vs', es', chains[i]) && paths[i] == [0] + Walk(equiv, vs', es', 0, chains[i])
    ensures forall j :: 0 <= j <= i ==> FullPath(equiv, vs', es', paths[j], chains[j])
  {
    forall j | 0 <= j < i
      ensures FullPath(equiv, vs', es', paths[j], chains[j])
    {
      GrowsKeepsPath(equiv, vs, es, vs', es', paths[j], chains[j]);
    }
    WalkIsMaximalPath(equiv, vs', es', 0, chains[i]);
  }

  /** One step of `update`: a fresh vertex for `x` under a stuck `parent` keeps the tree shape. */
  lemma AttachOneKeepsTree<N(!new)>(equiv: (N, N) -> bool, vs: seq<TreeVertex<N>>, es: seq<set<nat>>, parent: nat, x: N, depth: int)
    requires IsEquivalence(equiv) && TreeShaped(equiv, vs, es)
    requires parent < |es| && Stuck(equiv, vs, es, parent, x)
    ensures TreeShaped(equiv, vs + [NodeVertex(x, depth)], (es + [{}])[parent := es[parent] + {|vs|}])
  {
    var n := |vs|;
    var vs' := vs + [NodeVertex(x, depth)];
    var es' := (es + [{}])[parent := es[parent] + {n}];
    forall u, t | 0 <= u < |es'| && t in es'[u]
      ensures u < t < |es'|
    {
      if !(u == parent && t == n) {
        assert u < n && t in es[u];
      }
    }
    assert Forward(vs', es');
    forall t | 0 < t < |es'|
      ensures HasParent(es', t)
    {
      if t == n {
        assert parent < t && t in es'[parent];
      } else {
        assert HasParent(es, t);
        var u :| 0 <= u < t && u < |es| && t in es[u];
        assert t in es'[u];
      }
    }
    forall u1, u2, t | 0 <= u1 < |es'| && 0 <= u2 < |es'| && t in es'[u1] && t in es'[u2]
      ensures u1 == u2
    {
      if t == n {
        assert u1 == parent && u2 == parent;
      } else {
        assert u1 < n && t in es[u1];
        assert u2 < n && t in es[u2];
      }
    }
    assert OneParent(es');
    forall u, a, b | 0 <= u < |es'| && a in es'[u] && b in es'[u] && a != b && a < |vs'| && b < |vs'|
      ensures !SameNode(equiv, vs'[a], vs'[b])
    {
      if u == parent && a == n {
        assert b in es[parent] && vs'[b] == vs[b] && !Matches(equiv, vs[b], x);
      } else if u == parent && b == n {
        assert a in es[parent] && vs'[a] == vs[a] && !Matches(equiv, vs[a], x);
      } else {
        assert u < n && a in es[u] && b in es[u];
        assert vs'[a] == vs[a] && vs'[b] == vs[b];
      }
    }
  }

  /** The vertices `update` attaches keep the tree shape and make the graph grow. */
  lemma {:induction false} AttachedKeepsTree<N(!new)>(equiv: (N, N) -> bool, vs: seq<TreeVertex<N>>, es: seq<set<nat>>,
                                                       depthOf: N -> int, parent: nat, xs: seq<N>)
    requires IsEquivalence(equiv) && TreeShaped(equiv, vs, es) && parent < |es|
    requires xs != [] ==> Stuck(equiv, vs, es, parent, xs[0])
    ensures TreeShaped(equiv, Attached(vs, es, depthOf, parent, xs).0, Attached(vs, es, depthOf, parent, xs).1)
    ensures Grows(vs, es, Attached(vs, es, depthOf, parent, xs).0, Attached(vs, es, depthOf, parent, xs).1)
    decreases |xs|
  {
    if xs != [] {
      var v := |vs|;
      var vs' := vs + [NodeVertex(xs[0], depthOf(xs[0]))];
      var es' := (es + [{}])[parent := es[parent] + {v}];
      AttachOneKeepsTree(equiv, vs, es, parent, xs[0], depthOf(xs[0]));
      assert es'[v] == {};
      AttachedKeepsTree(equiv, vs', es', depthOf, v, xs[1..]);
      assert Grows(vs, es, vs', es');
    }
  }

  /** The attached vertices hold the chain's nodes and depths, in order. */
  lemma {:induction false} AttachedAddsVertices<N>(vs: seq<TreeVertex<N>>, es: seq<set<nat>>, depthOf: N -> int, parent: nat, xs: seq<N>)
    requires |vs| == |es| && parent < |es|
    ensures Attached(vs, es, depthOf, parent, xs).0 == vs + NewVertices(depthOf, xs)
    decreases |xs|
  {
    if xs != [] {
      var v := |vs|;
      AttachedAddsVertices(vs + [NodeVertex(xs[0], depthOf(xs[0]))], (es + [{}])[parent := es[parent] + {v}], depthOf, v, xs[1..]);
      assert NewVertices(depthOf, xs) == [NodeVertex(xs[0], depthOf(xs[0]))] + NewVertices(depthOf, xs[1..]);
    }
  }

  /** One step of `update` extends a matched path by the fresh vertex. */
  lemma AttachOneExtendsPath<N(!new)>(equiv: (N, N) -> bool, vs: seq<TreeVertex<N>>, es: seq<set<nat>>,
                                       d: int, p: seq<nat>, chain: seq<N>)
    requires IsReflexive(equiv) && MatchedPath(equiv, vs, es, p, chain) && |p| <= |chain|
    ensures var parent := p[|p| - 1];
      var vs' := vs + [NodeVertex(chain[|p| - 1], d)];
      var es' := (es + [{}])[parent := es[parent] + {|vs|}];
      MatchedPath(equiv, vs', es', p + [|vs|], chain) && Grows(vs, es, vs', es')
  {
    var parent := p[|p| - 1];
    var vs' := vs + [NodeVertex(chain[|p| - 1], d)];
    var es' := (es + [{}])[parent := es[parent] + {|vs|}];
    var p' := p + [|vs|];
    assert Grows(vs, es, vs', es');
    GrowsKeepsPath(equiv, vs, es, vs', es', p, chain);
    forall i | 0 <= i < |p'| - 1
      ensures p'[i + 1] in es'[p'[i]] && Matches(equiv, vs'[p'[i + 1]], chain[i])
    {
      if i < |p| - 1 {
        assert p'[i] == p[i] && p'[i + 1] == p[i + 1];
      }
    }
  }

  /** Below the end of a matched path, the attached vertices complete it to the whole chain. */
  lemma {:induction false} AttachedCompletesPath<N(!new)>(equiv: (N, N) -> bool, vs: seq<TreeVertex<N>>, es: seq<set<nat>>,
                                                           depthOf: N -> int, p: seq<nat>, chain: seq<N>)
    requires IsReflexive(equiv) && MatchedPath(equiv, vs, es, p, chain)
    ensures var g := Attached(vs, es, depthOf, p[|p| - 1], chain[|p| - 1..]);
      MatchedPath(equiv, g.0, g.1, p + Count(|vs|, |chain| + 1 - |p|), chain) && Grows(vs, es, g.0, g.1)
    decreases |chain| + 1 - |p|
  {
    var xs := chain[|p| - 1..];
    if xs != [] {
      var v := |vs|;
      var parent := p[|p| - 1];
      var vs' := vs + [NodeVertex(xs[0], depthOf(xs[0]))];
      var es' := (es + [{}])[parent := es[parent] + {v}];
      var p' := p + [v];
      AttachOneExtendsPath(equiv, vs, es, depthOf(xs[0]), p, chain);
      assert chain[|p'| - 1..] == xs[1..];
      AttachedCompletesPath(equiv, vs', es', depthOf, p', chain);
      var g := Attached(vs', es', depthOf, v, xs[1..]);
      assert Attached(vs, es, depthOf, parent, xs) == g;
      GrowsTransitive(vs, es, vs', es', g.0, g.1);
      PathPlusCount(p, v, |chain| + 1 - |p|);
    } else {
      assert p + Count(|vs|, 0) == p;
    }
  }

  /** A digraph of chains (the "closest_match" parameter picks the match strategy). */
  class PatternTree<N(!new)> {
    /** The nodes' `__eq__`. */
    const equiv: (N, N) -> bool
    /** The nodes' `distance`. */
    const dist: (N, N) -> real
    /** A node's `depth` attribute. */
    const depthOf: N -> int
    const closestMatch: bool
    const graph: Digraph<TreeVertex<N>>
    const root: nat

    ghost predicate Valid()
      reads this, graph
    {
      graph.Valid() && root == 0 && IsEquivalence(equiv) && TreeShaped(equiv, graph.vertices, graph.edges)
    }

    /** The model's properties are stated for nodes whose equality is an equivalence relation. */
    constructor (equiv: (N, N) -> bool, dist: (N, N) -> real, depthOf: N -> int, closestMatch: bool)
      requires IsEquivalence(equiv)
      ensures Valid() && fresh(graph)
      ensures this.equiv == equiv && this.dist == dist && this.depthOf == depthOf && this.closestMatch == closestMatch
      ensures graph.vertices == [RootVertex] && graph.edges == [{}]
    {
      this.equiv := equiv;
      this.dist := dist;
      this.depthOf := depthOf;
      this.closestMatch := closestMatch;
      var g := new Digraph();
      var id := g.AddVertex(RootVertex);
      graph := g;
      root := id;
    }

    /** `_first_match`: some candidate holding an equivalent node, if any. */
    method FirstMatch(node: N, candidates: set<nat>) returns (r: Option<nat>)
      requires forall c :: c in candidates ==> c < |graph.vertices|
      ensures r.Some? ==> r.value in candidates && Matches(equiv, graph.vertices[r.value], node)
      ensures r.None? ==> forall c :: c in candidates ==> !Matches(equiv, graph.vertices[c], node)
    {
      var rest := candidates;
      while rest != {}
        invariant rest <= candidates
        invariant forall c :: c in candidates - rest ==> !Matches(equiv, graph.vertices[c], node)
        decreases |rest|
      {
        var v :| v in rest;
        if Matches(equiv, graph.vertices[v], node) {
          return Some(v);
        }
        rest := rest - {v};
      }
      return None;
    }

    /** `_best_match`: a candidate holding an equivalent node at the least distance, if any. */
    method BestMatch(node: N, candidates: set<nat>) returns (r: Option<nat>)
      requires forall c :: c in candidates ==> c < |graph.vertices|
      ensures r.Some? ==> r.value in candidates && Matches(equiv, graph.vertices[r.value], node)
      ensures r.Some? ==> forall c :: c in candidates && Matches(equiv, graph.vertices[c], node) ==>
        dist(node, graph.vertices[r.value].node) <= dist(node, graph.vertices[c].node)
      ensures r.None? ==> forall c :: c in candidates ==> !Matches(equiv, graph.vertices[c], node)
    {
      var rest := candidates;
      r := None;
      var best: real := 0.0;
      while rest != {}
        invariant rest <= candidates
        invariant r.None? ==> forall c :: c in candidates - rest ==> !Matches(equiv, graph.vertices[c], node)
        invariant r.Some? ==> r.value in candidates && Matches(equiv, graph.vertices[r.value], node)
        invariant r.Some? ==> best == dist(node, graph.vertices[r.value].node)
        invariant r.Some? ==> forall c :: c in candidates - rest && Matches(equiv, graph.vertices[c], node) ==>
          best <= dist(node, graph.vertices[c].node)
        decreases |rest|
      {
        var v :| v in rest;
        // the root is never a candidate: it has no incoming edge
        var candidate := graph.vertices[v];
        if candidate.NodeVertex? {
          var distance := dist(node, candidate.node);
          if equiv(node, candidate.node) && (r.None? || distance < best) {
            r := Some(v);
            best := distance;
          }
        }
        rest := rest - {v};
      }
    }

    /** `chain_to_vertices`: the root followed by the vertices matching the chain's longest known prefix. */
    method ChainToVertices(chain: seq<N>) returns (traversal: seq<nat>)
      requires Valid()
      ensures traversal == [root] + Walk(equiv, graph.vertices, graph.edges, root, chain)
    {
      traversal := [root];
      var k := 0;
      while k < |chain|
        invariant 0 <= k <= |chain| && |traversal| == k + 1 && traversal[0] == root
        invariant MatchedPath(equiv, graph.vertices, graph.edges, traversal, chain)
      {
        var neighbours := graph.Outgoing(traversal[k]).value;
        var candidate: Option<nat>;
        if closestMatch {
          candidate := BestMatch(chain[k], neighbours);
        } else {
          candidate := FirstMatch(chain[k], neighbours);
        }
        if candidate.None? {
          assert Stuck(equiv, graph.vertices, graph.edges, traversal[k], chain[k]);
          break;
        }
        traversal := traversal + [candidate.value];
        k := k + 1;
      }
      MaximalPathIsWalk(equiv, graph.vertices, graph.edges, traversal, chain);
      assert traversal == [root] + traversal[1..];
    }

    /** `update`: follows the chain as far as the tree knows it and hangs the
        rest below, then returns the whole path. */
    method Update(chain: seq<N>) returns (vertices: seq<nat>)
      requires Valid()
      modifies graph
      ensures Valid()
      ensures var known := old(Walk(equiv, graph.vertices, graph.edges, root, chain));
        var n := old(|graph.vertices|);
        |vertices| == |chain| + 1 &&
        vertices == [root] + known + Count(n, |chain| - |known|) &&
        (graph.vertices, graph.edges) ==
          Attached(old(graph.vertices), old(graph.edges), depthOf, vertices[|known|], chain[|known|..])
      ensures Grows(old(graph.vertices), old(graph.edges), graph.vertices, graph.edges)
      ensures Recognises(equiv, graph.vertices, graph.edges, chain)
      ensures Walk(equiv, graph.vertices, graph.edges, root, chain) == vertices[1..]
    {
      ghost var vs0, es0 := graph.vertices, graph.edges;
      vertices := ChainToVertices(chain);
      ghost var matched := vertices;
      ghost var m := |vertices| - 1;
      vertices := Hang(vertices, chain);
      WalkIsMaximalPath(equiv, vs0, es0, root, chain);
      AttachedKeepsTree(equiv, vs0, es0, depthOf, matched[m], chain[m..]);
      AttachedCompletesPath(equiv, vs0, es0, depthOf, matched, chain);
      MaximalPathIsWalk(equiv, graph.vertices, graph.edges, vertices, chain);
    }

    /** The `while` loop of `update`: hangs a fresh vertex for each node of
        `chain[|start| - 1..]`, each below the previous one, starting below the
        last vertex of `start`. */
    method Hang(start: seq<nat>, chain: seq<N>) returns (vertices: seq<nat>)
      requires graph.Valid() && |graph.vertices| == |graph.edges|
      requires 1 <= |start| <= |chain| + 1 && start[|start| - 1] < |graph.edges|
      modifies graph
      ensures graph.Valid()
      ensures vertices == start + Count(old(|graph.vertices|), |chain| + 1 - |start|)
      ensures (graph.vertices, graph.edges) ==
        Attached(old(graph.vertices), old(graph.edges), depthOf, start[|start| - 1], chain[|start| - 1..])
    {
      ghost var target := Attached(graph.vertices, graph.edges, depthOf, start[|start| - 1], chain[|start| - 1..]);
      ghost var n := |graph.vertices|;
      ghost var added: seq<nat> := [];
      ghost var rest := chain[|start| - 1..];
      vertices := start;
      while |vertices| <= |chain|
        invariant |start| <= |vertices| <= |chain| + 1 && |added| == |vertices| - |start|
        invariant vertices == start + added
        invariant forall i :: 0 <= i < |added| ==> added[i] == n + i
        invariant graph.Valid() && |graph.vertices| == |graph.edges| == n + |added|
        invariant vertices[|vertices| - 1] < |graph.edges| && rest == chain[|vertices| - 1..]
        invariant Attached(graph.vertices, graph.edges, depthOf, vertices[|vertices| - 1], rest) == target
        decreases |chain| + 1 - |vertices|
      {
        var k := |vertices| - 1;
        var current := vertices[k];
        ghost var vs, es := graph.vertices, graph.edges;
        var next := graph.AddVertex(NodeVertex(chain[k], depthOf(chain[k])));
        var _ := graph.AddEdge(current, next);
        AttachedStep(vs, es, depthOf, current, rest, target, graph.vertices, graph.edges);
        added := added + [next];
        vertices := vertices + [next];
        rest := rest[1..];
      }
      assert rest == [];
      assert added == Count(n, |added|);
    }

    /** `contains`: the whole chain can be followed from the root. */
    method Contains(chain: seq<N>) returns (r: bool)
      requires Valid()
      ensures r <==> Recognises(equiv, graph.vertices, graph.edges, chain)
    {
      var vertices := ChainToVertices(chain);
      r := |vertices| == |chain| + 1;
    }

    /** `learn`: one `update` per chain; each returned path is the tree's
        walk along its chain in the final tree, which recognises every chain. */
    method Learn(chains: seq<seq<N>>) returns (paths: seq<seq<nat>>)
      requires Valid()
      modifies graph
      ensures Valid() && |paths| == |chains|
      ensures Grows(old(graph.vertices), old(graph.edges), graph.vertices, graph.edges)
      ensures forall i :: 0 <= i < |chains| ==> |paths[i]| == |chains[i]| + 1
      ensures forall i :: 0 <= i < |chains| ==> paths[i] == [root] + Walk(equiv, graph.vertices, graph.edges, root, chains[i])
      ensures forall i :: 0 <= i < |chains| ==> Recognises(equiv, graph.vertices, graph.edges, chains[i])
    {
      paths := [];
      for i := 0 to |chains|
        invariant Valid() && |paths| == i
        invariant Grows(old(graph.vertices), old(graph.edges), graph.vertices, graph.edges)
        invariant forall j :: 0 <= j < i ==> FullPath(equiv, graph.vertices, graph.edges, paths[j], chains[j])
      {
        ghost var vs, es := graph.vertices, graph.edges;
        var path := Update(chains[i]);
        paths := paths + [path];
        LearnPathsStep(equiv, vs, es, graph.vertices, graph.edges, chains, paths, i);
        GrowsTransitive(old(graph.vertices), old(graph.edges), vs, es, graph.vertices, graph.edges);
      }
      forall i | 0 <= i < |chains|
        ensures paths[i] == [root] + Walk(equiv, graph.vertices, graph.edges, root, chains[i])
        ensures Recognises(equiv, graph.vertices, graph.edges, chains[i])
      {
        FullPathIsWalk(equiv, graph.vertices, graph.edges, paths[i], chains[i]);
      }
    }
  }
}
