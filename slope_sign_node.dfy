/** Slope-sign nodes (src/pbsf/nodes/slope_sign_node.py): a node compares
    only the signs of the slopes of its linear pieces. */
module SlopeSign {
  import opened Wrappers

  /** The fields the comparison reads: the depth and the slopes. */
  datatype SlopeSignNode = SlopeSignNode(depth: int, slopes: seq<real>)

  /** A Python float as far as the comparison needs it: `0/0` is NaN,
      which is unequal to everything. */
  datatype Float = Finite(value: real) | NaN

  /** `slopes >= 0` element-wise. */
  function SignsOf(slopes: seq<real>): (s: seq<bool>)
    ensures |s| == |slopes|
    ensures forall i :: 0 <= i < |s| ==> s[i] == (slopes[i] >= 0.0)
  {
    seq(|slopes|, i requires 0 <= i < |slopes| => slopes[i] >= 0.0)
  }

  /** numpy broadcasting of two one-dimensional arrays: equal shapes are
      kept; a length-one array is stretched to the other's length; any
      other pair cannot be broadcast. */
  function Broadcast(a: seq<bool>, b: seq<bool>): (r: Option<(seq<bool>, seq<bool>)>)
    ensures r.Some? <==> |a| == |b| || |a| == 1 || |b| == 1
    ensures r.Some? ==> |r.value.0| == |r.value.1|
    ensures r.Some? && |a| == |b| ==> r.value == (a, b)
    ensures r.Some? && |a| == 1 && |b| != 1 ==>
      |r.value.0| == |b| && r.value.1 == b && forall i :: 0 <= i < |b| ==> r.value.0[i] == a[0]
    ensures r.Some? && |b| == 1 && |a| != 1 ==>
      |r.value.1| == |a| && r.value.0 == a && forall i :: 0 <= i < |a| ==> r.value.1[i] == b[0]
  {
    if |a| == |b| then Some((a, b))
    else if |a| == 1 then Some((seq(|b|, _ => a[0]), b))
    else if |b| == 1 then Some((a, seq(|a|, _ => b[0])))
    else None
  }

  /** Number of positions where two equally long sign vectors differ. */
  function Mismatches(a: seq<bool>, b: seq<bool>): (n: nat)
    requires |a| == |b|
    ensures n <= |a|
    ensures n == 0 <==> a == b
    ensures n == |a| <==> forall i :: 0 <= i < |a| ==> a[i] != b[i]
  {
    if |a| == 0 then 0
    else
      var rest := Mismatches(a[1..], b[1..]);
      assert a == [a[0]] + a[1..] && b == [b[0]] + b[1..];
      assert a[0] != b[0] && rest == |a| - 1 ==> forall i :: 0 <= i < |a| ==> a[i] != b[i] by {
        if a[0] != b[0] && rest == |a| - 1 {
          forall i | 0 <= i < |a| ensures a[i] != b[i] {
            if i > 0 { assert a[i] == a[1..][i - 1] && b[i] == b[1..][i - 1]; }
          }
        }
      }
      (if a[0] != b[0] then 1 else 0) + rest
  }

  lemma {:induction false} MismatchesSymmetric(a: seq<bool>, b: seq<bool>)
    requires |a| == |b|
    ensures Mismatches(a, b) == Mismatches(b, a)
  {
    if |a| > 0 { MismatchesSymmetric(a[1..], b[1..]); }
  }

  /** `SlopeSignNode.distance`: raises for a different depth (and when
      numpy cannot broadcast the slopes); otherwise the number of differing
      signs divided by the length of this node's slopes. */
  function Distance(n1: SlopeSignNode, n2: SlopeSignNode): (r: Result<Float>)
    ensures n1.depth != n2.depth ==> r.Failure? && r.error.ValueError?
    ensures n1.depth == n2.depth ==>
      (r.Success? <==> |n1.slopes| == |n2.slopes| || |n1.slopes| == 1 || |n2.slopes| == 1)
    ensures r.Success? && |n1.slopes| == 0 ==> r.value == NaN
    ensures r.Success? && |n1.slopes| > 0 ==> r.value.Finite? && r.value.value >= 0.0
  {
    if n1.depth != n2.depth then Failure(ValueError("Cannot compare nodes of different depths."))
    else
      match Broadcast(SignsOf(n1.slopes), SignsOf(n2.slopes))
      case None => Failure(ValueError("operands could not be broadcast together"))
      case Some((x, y)) =>
        if |n1.slopes| == 0 then Success(NaN)
        else Success(Finite(Mismatches(x, y) as real / |n1.slopes| as real))
  }

  /** `SlopeSignNode.__eq__`: false for a different depth, otherwise
      whether the distance is exactly zero; the broadcast error of the
      distance propagates. */
  function Eq(n1: SlopeSignNode, n2: SlopeSignNode): (r: Result<bool>)
    ensures n1.depth != n2.depth ==> r == Success(false)
    ensures n1.depth == n2.depth && |n1.slopes| == |n2.slopes| ==> r.Success?
  {
    if n1.depth != n2.depth then Success(false)
    else
      var d :- Distance(n1, n2);
      Success(d == Finite(0.0))
  }

  /** Equality as a total relation: `__eq__` answered true. */
  predicate Equivalent(n1: SlopeSignNode, n2: SlopeSignNode)
  {
    Eq(n1, n2) == Success(true)
  }

  /** `SlopeSignNode.__hash__`: the vector of signs as +1 / -1. */
  function Hash(n: SlopeSignNode): (h: seq<int>)
    ensures |h| == |n.slopes|
    ensures forall i :: 0 <= i < |h| ==> h[i] == (if n.slopes[i] >= 0.0 then 1 else -1)
  {
    seq(|n.slopes|, i requires 0 <= i < |n.slopes| => if n.slopes[i] >= 0.0 then 1 else -1)
  }

  /** For nodes with equally many slopes, the distance is symmetric and is
      zero exactly when all signs agree. */
  lemma DistanceOnEqualLengths(n1: SlopeSignNode, n2: SlopeSignNode)
    requires n1.depth == n2.depth && |n1.slopes| == |n2.slopes| > 0
    ensures Distance(n1, n2) == Distance(n2, n1)
    ensures Distance(n1, n2).Success? && Distance(n1, n2).value.Finite?
    ensures 0.0 <= Distance(n1, n2).value.value <= 1.0
    ensures Distance(n1, n2) == Success(Finite(0.0)) <==> SignsOf(n1.slopes) == SignsOf(n2.slopes)
    ensures Distance(n1, n2) == Success(Finite(1.0)) <==>
      forall i :: 0 <= i < |n1.slopes| ==> (n1.slopes[i] >= 0.0) != (n2.slopes[i] >= 0.0)
  {
    var x, y := SignsOf(n1.slopes), SignsOf(n2.slopes);
    MismatchesSymmetric(x, y);
    var m := Mismatches(x, y);
    assert Distance(n1, n2) == Success(Finite(m as real / |n1.slopes| as real));
    Ratio(m, |n1.slopes|);
  }

  lemma Ratio(m: nat, len: nat)
    requires 0 < len && m <= len
    ensures 0.0 <= m as real / len as real <= 1.0
    ensures m as real / len as real == 0.0 <==> m == 0
    ensures m as real / len as real == 1.0 <==> m == len
  {
    var q := m as real / len as real;
    assert q * len as real == m as real;
  }

  /** Among nodes with equally many slopes, equality is equality of depth
      and of the sign vectors, so it is reflexive, symmetric and transitive,
      and equal nodes have equal hashes. */
  lemma EquivalentOnEqualLengths(a: SlopeSignNode, b: SlopeSignNode, c: SlopeSignNode)
    requires |a.slopes| == |b.slopes| == |c.slopes| > 0
    ensures Equivalent(a, b) <==> a.depth == b.depth && SignsOf(a.slopes) == SignsOf(b.slopes)
    ensures Equivalent(a, a)
    ensures Equivalent(a, b) ==> Equivalent(b, a)
    ensures Equivalent(a, b) && Equivalent(b, c) ==> Equivalent(a, c)
    ensures Equivalent(a, b) ==> Hash(a) == Hash(b)
  {
    if a.depth == b.depth { DistanceOnEqualLengths(a, b); }
    if b.depth == c.depth { DistanceOnEqualLengths(b, c); }
    if a.depth == c.depth { DistanceOnEqualLengths(a, c); }
    DistanceOnEqualLengths(a, a);
    if Equivalent(a, b) {
      forall i | 0 <= i < |a.slopes| ensures Hash(a)[i] == Hash(b)[i] {
        assert SignsOf(a.slopes)[i] == SignsOf(b.slopes)[i];
      }
    }
  }

  /** A node without slopes is not equal to itself: its distance is 0/0. */
  lemma EmptySlopesNotReflexive(n: SlopeSignNode)
    requires |n.slopes| == 0
    ensures Distance(n, n) == Success(NaN)
    ensures Eq(n, n) == Success(false)
  {
  }

  /** Broadcasting lets a one-slope node equal nodes of any length, so
      equality is not transitive across lengths. */
  lemma BroadcastingAcrossLengths()
    ensures var a, b, c := SlopeSignNode(0, [1.0]), SlopeSignNode(0, [1.0, 1.0]),
                           SlopeSignNode(0, [1.0, 1.0, 1.0]);
      Equivalent(b, a) && Equivalent(a, c) && !Equivalent(b, c)
  {
    var a, b, c := SlopeSignNode(0, [1.0]), SlopeSignNode(0, [1.0, 1.0]),
                   SlopeSignNode(0, [1.0, 1.0, 1.0]);
    BroadcastOneTrue(b);
    assert SignsOf(c.slopes) == [true, true, true];
    var ac := Broadcast([true], [true, true, true]).value;
    assert |ac.0| == 3 && ac.0[0] && ac.0[1] && ac.0[2];
    assert ac.0 == [true, true, true];
    assert ac == ([true, true, true], [true, true, true]);
    assert Mismatches([true, true, true], [true, true, true]) == 0;
  }

  /** The one-slope node `[1.0]` equals `[1.0, 1.0]`. */
  lemma BroadcastOneTrue(b: SlopeSignNode)
    requires b == SlopeSignNode(0, [1.0, 1.0])
    ensures Equivalent(b, SlopeSignNode(0, [1.0]))
  {
    var a := SlopeSignNode(0, [1.0]);
    assert SignsOf(a.slopes) == [true];
    assert SignsOf(b.slopes) == [true, true];
    var ba := Broadcast([true, true], [true]).value;
    assert |ba.1| == 2 && ba.1[0] && ba.1[1];
    assert ba.1 == [true, true];
    assert ba == ([true, true], [true, true]);
    assert Mismatches([true, true], [true, true]) == 0;
  }

  /** Nodes that compare equal through broadcasting have different hashes. */
  lemma BroadcastingBreaksHash()
    ensures Equivalent(SlopeSignNode(0, [1.0, 1.0]), SlopeSignNode(0, [1.0]))
    ensures Hash(SlopeSignNode(0, [1.0])) != Hash(SlopeSignNode(0, [1.0, 1.0]))
  {
    BroadcastOneTrue(SlopeSignNode(0, [1.0, 1.0]));
  }

  /** Broadcasting a one-slope node against a longer one counts every
      stretched mismatch, so the distance can exceed one. */
  lemma BroadcastDistanceExceedsOne()
    ensures Distance(SlopeSignNode(0, [-1.0]), SlopeSignNode(0, [1.0, 1.0])) == Success(Finite(2.0))
  {
    var d, e := SlopeSignNode(0, [-1.0]), SlopeSignNode(0, [1.0, 1.0]);
    assert SignsOf(d.slopes) == [false];
    assert SignsOf(e.slopes) == [true, true];
    var de := Broadcast([false], [true, true]).value;
    assert |de.0| == 2 && !de.0[0] && !de.0[1];
    assert de.0 == [false, false];
    assert de == ([false, false], [true, true]);
    assert Mismatches([false, false], [true, true]) == 2;
  }
}
