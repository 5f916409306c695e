// The set-based pattern model: one set of nodes per depth.

module PatternSets {
  import opened PatternNodes

  /** `node in node_set`: some stored node equals `x`. */
  predicate Member<N(==)>(equiv: (N, N) -> bool, s: set<N>, x: N)
  {
    exists m :: m in s && equiv(m, x)
  }

  /** The depth list after the `while` loop that appends empty sets up to depth `n`. */
  function Grown<N(==)>(nodes: seq<set<N>>, n: nat): (r: seq<set<N>>)
    ensures |r| == if |nodes| < n then n else |nodes|
    ensures r[..|nodes|] == nodes
    ensures forall d :: |nodes| <= d < |r| ==> r[d] == {}
    decreases n - |nodes|
  {
    if |nodes| >= n then nodes else Grown(nodes + [{}], n)
  }

  /** The flags `update` returns: whether each node of the chain was already known at its depth. */
  function Flags<N(==)>(equiv: (N, N) -> bool, nodes: seq<set<N>>, chain: seq<N>): (r: seq<bool>)
    ensures |r| == |chain|
  {
    seq(|chain|, k requires 0 <= k < |chain| => k < |nodes| && Member(equiv, nodes[k], chain[k]))
  }

  /** The depth sets after `update(chain)`. */
  function Updated<N(==)>(equiv: (N, N) -> bool, nodes: seq<set<N>>, chain: seq<N>): (r: seq<set<N>>)
    ensures |r| == if |nodes| < |chain| then |chain| else |nodes|
  {
    var g := Grown(nodes, |chain|);
    seq(|g|, d requires 0 <= d < |g| =>
      if d < |chain| && !Member(equiv, g[d], chain[d]) then g[d] + {chain[d]} else g[d])
  }

  /** What `contains` answers: every node of the chain is known at its depth. */
  predicate Recognised<N(==)>(equiv: (N, N) -> bool, nodes: seq<set<N>>, chain: seq<N>)
  {
    forall k :: 0 <= k < |chain| ==> k < |nodes| && Member(equiv, nodes[k], chain[k])
  }

  /** The depth sets after `learn(chains)`: one `update` per chain, in order. */
  function Learned<N(==)>(equiv: (N, N) -> bool, nodes: seq<set<N>>, chains: seq<seq<N>>): (r: seq<set<N>>)
    ensures |r| >= |nodes|
    decreases |chains|
  {
    if chains == [] then nodes
    else Learned(equiv, Updated(equiv, nodes, chains[0]), chains[1..])
  }

  /** The flags `learn(chains)` returns. */
  function LearnFlags<N(==)>(equiv: (N, N) -> bool, nodes: seq<set<N>>, chains: seq<seq<N>>): (r: seq<seq<bool>>)
    ensures |r| == |chains|
    decreases |chains|
  {
    if chains == [] then []
    else [Flags(equiv, nodes, chains[0])] + LearnFlags(equiv, Updated(equiv, nodes, chains[0]), chains[1..])
  }

  /** A node is added at a depth exactly when it was reported absent there; nothing else changes. */
  lemma UpdateAddsOnlyAbsent<N>(equiv: (N, N) -> bool, nodes: seq<set<N>>, chain: seq<N>, d: nat)
    requires d < |Updated(equiv, nodes, chain)|
    ensures d < |nodes| ==> nodes[d] <= Updated(equiv, nodes, chain)[d]
    ensures d >= |nodes| ==> d < |chain| && Updated(equiv, nodes, chain)[d] == {chain[d]}
    ensures d < |chain| && Flags(equiv, nodes, chain)[d] ==> Updated(equiv, nodes, chain)[d] == nodes[d]
    ensures d < |chain| && !Flags(equiv, nodes, chain)[d] ==>
      Updated(equiv, nodes, chain)[d] == (if d < |nodes| then nodes[d] else {}) + {chain[d]}
    ensures d >= |chain| ==> Updated(equiv, nodes, chain)[d] == nodes[d]
  {
    var g := Grown(nodes, |chain|);
    if d < |nodes| {
      assert g[d] == g[..|nodes|][d] == nodes[d];
    }
  }

  /** Once updated with a chain, the model recognises it, and updating again reports every node present. */
  lemma UpdateRecognises<N(!new)>(equiv: (N, N) -> bool, nodes: seq<set<N>>, chain: seq<N>)
    requires IsReflexive(equiv)
    ensures Recognised(equiv, Updated(equiv, nodes, chain), chain)
    ensures forall k :: 0 <= k < |chain| ==> Flags(equiv, Updated(equiv, nodes, chain), chain)[k]
  {
    var u := Updated(equiv, nodes, chain);
    forall k | 0 <= k < |chain|
      ensures k < |u| && Member(equiv, u[k], chain[k])
    {
      UpdateAddsOnlyAbsent(equiv, nodes, chain, k);
      if Flags(equiv, nodes, chain)[k] {
        assert Member(equiv, nodes[k], chain[k]);
      } else {
        assert chain[k] in u[k] && equiv(chain[k], chain[k]);
      }
    }
  }

  /** Updating never forgets a node. */
  lemma UpdateKeeps<N>(equiv: (N, N) -> bool, nodes: seq<set<N>>, chain: seq<N>, d: nat, x: N)
    requires d < |nodes| && Member(equiv, nodes[d], x)
    ensures d < |Updated(equiv, nodes, chain)| && Member(equiv, Updated(equiv, nodes, chain)[d], x)
  {
    UpdateAddsOnlyAbsent(equiv, nodes, chain, d);
  }

  /** A chain that is recognised stays recognised after any update. */
  lemma UpdateKeepsRecognised<N>(equiv: (N, N) -> bool, nodes: seq<set<N>>, chain: seq<N>, other: seq<N>)
    requires Recognised(equiv, nodes, other)
    ensures Recognised(equiv, Updated(equiv, nodes, chain), other)
  {
    var u := Updated(equiv, nodes, chain);
    // The last position of `other` is known at its depth, so `other` is no longer than `nodes`.
    if 0 < |other| {
      assert other[|other| - 1] in other;
    }
    assert |other| <= |nodes| <= |u|;
    forall k | 0 <= k < |other|
      ensures k < |u| && Member(equiv, u[k], other[k])
    {
      UpdateKeeps(equiv, nodes, chain, k, other[k]);
    }
  }

  lemma {:induction false} LearnKeepsRecognised<N>(equiv: (N, N) -> bool, nodes: seq<set<N>>, chains: seq<seq<N>>, other: seq<N>)
    requires Recognised(equiv, nodes, other)
    ensures Recognised(equiv, Learned(equiv, nodes, chains), other)
    decreases |chains|
  {
    if chains != [] {
      UpdateKeepsRecognised(equiv, nodes, chains[0], other);
      LearnKeepsRecognised(equiv, Updated(equiv, nodes, chains[0]), chains[1..], other);
    }
  }

  /** After `learn(chains)` every learned chain is recognised. */
  lemma {:induction false} LearnRecognisesAll<N(!new)>(equiv: (N, N) -> bool, nodes: seq<set<N>>, chains: seq<seq<N>>)
    requires IsReflexive(equiv)
    ensures forall i :: 0 <= i < |chains| ==> Recognised(equiv, Learned(equiv, nodes, chains), chains[i])
    decreases |chains|
  {
    if chains != [] {
      var u := Updated(equiv, nodes, chains[0]);
      UpdateRecognises(equiv, nodes, chains[0]);
      LearnKeepsRecognised(equiv, u, chains[1..], chains[0]);
      LearnRecognisesAll(equiv, u, chains[1..]);
      forall i | 1 <= i < |chains|
        ensures Recognised(equiv, Learned(equiv, nodes, chains), chains[i])
      {
        assert chains[i] == chains[1..][i - 1];
      }
    }
  }

  class PatternSet<N(==)> {
    /** The nodes' `__eq__`. */
    const equiv: (N, N) -> bool
    /** One set per depth. */
    var nodes: seq<set<N>>

    constructor (equiv: (N, N) -> bool)
      ensures this.equiv == equiv && nodes == []
    {
      this.equiv := equiv;
      nodes := [];
    }

    method Update(chain: seq<N>) returns (present: seq<bool>)
      modifies this
      ensures nodes == Updated(equiv, old(nodes), chain)
      ensures present == Flags(equiv, old(nodes), chain)
    {
      ghost var before := nodes;
      while |nodes| < |chain|
        invariant Grown(nodes, |chain|) == Grown(before, |chain|)
        decreases |chain| - |nodes|
      {
        nodes := nodes + [{}];
      }
      ghost var grown := nodes;
      assert grown == Grown(before, |chain|);
      present := [];
      for k := 0 to |chain|
        invariant |nodes| == |grown|
        invariant present == Flags(equiv, before, chain)[..k]
        invariant forall d :: 0 <= d < |nodes| ==>
          nodes[d] == if d < k then Updated(equiv, before, chain)[d] else grown[d]
      {
        var wasPresent := Member(equiv, nodes[k], chain[k]);
        assert wasPresent == Flags(equiv, before, chain)[k] by {
          if k < |before| {
            assert grown[k] == grown[..|before|][k] == before[k];
          }
        }
        present := present + [wasPresent];
        if !wasPresent {
          nodes := nodes[k := nodes[k] + {chain[k]}];
        }
      }
    }

    method Learn(chains: seq<seq<N>>) returns (present: seq<seq<bool>>)
      modifies this
      ensures nodes == Learned(equiv, old(nodes), chains)
      ensures present == LearnFlags(equiv, old(nodes), chains)
    {
      present := [];
      for i := 0 to |chains|
        invariant Learned(equiv, old(nodes), chains) == Learned(equiv, nodes, chains[i..])
        invariant LearnFlags(equiv, old(nodes), chains) == present + LearnFlags(equiv, nodes, chains[i..])
      {
        assert chains[i..][1..] == chains[i + 1..];
        var flags := Update(chains[i]);
        present := present + [flags];
      }
    }

    method Contains(chain: seq<N>) returns (r: bool)
      ensures r == Recognised(equiv, nodes, chain)
    {
      var sets := nodes;
      var n := if |chain| < |sets| then |chain| else |sets|;
      var present := seq(n, k requires 0 <= k < n => Member(equiv, sets[k], chain[k]));
      while |present| < |chain|
        invariant n <= |present| <= |chain|
        invariant forall k :: 0 <= k < n ==> present[k] == Member(equiv, sets[k], chain[k])
        invariant forall k :: n <= k < |present| ==> !present[k]
        decreases |chain| - |present|
      {
        present := present + [false];
      }
      r := forall k :: 0 <= k < |present| ==> present[k];
      if n < |chain| {
        assert !present[n] && n == |nodes|;
        assert !Recognised(equiv, nodes, chain);
      } else {
        assert |present| == |chain| <= |nodes|;
        assert forall k :: 0 <= k < |chain| ==> present[k] == Member(equiv, nodes[k], chain[k]);
      }
    }
  }
}
