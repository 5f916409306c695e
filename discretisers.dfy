/** Frame partitioning (`_divide`, src/pbsf/discretisers/base.py) and the
    summation discretiser (src/pbsf/discretisers/sum.py). */
module Discretisers {
  import opened Wrappers
  import opened Arith

  /** Python's `int(x)` of the rational p / q (q > 0): truncation toward zero. */
  function Trunc(p: int, q: int): (t: int)
    requires q > 0
    ensures p >= 0 ==> t == p / q
  {
    if p >= 0 then p / q else -((-p) / q)
  }

  /** Bound k of the partition: `int(begin + k * step)` with
      `step = (end - begin) / number`, in exact arithmetic. */
  function Cut(begin: int, end: int, number: int, k: int): int
    requires number > 0
  {
    Trunc(begin * number + k * (end - begin), number)
  }

  lemma TruncMonotone(p: int, p': int, q: int)
    requires p <= p' && q > 0
    ensures Trunc(p, q) <= Trunc(p', q)
  {
    if p >= 0 { DivMonotone(p, p', q); }
    else if p' >= 0 { assert (-p) / q >= 0; }
    else { DivMonotone(-p', -p, q); }
  }

  lemma TruncExact(a: int, q: int)
    requires q > 0
    ensures Trunc(a * q, q) == a
  {
    if a >= 0 { DivUnique(a * q, q, a, 0); }
    else { assert -(a * q) == (-a) * q; DivUnique((-a) * q, q, -a, 0); }
  }

  /** Bound k of the partition in exact arithmetic is non-decreasing in k. */
  lemma CutMonotone(begin: int, end: int, number: int, k: int, k': int)
    requires 1 <= number && begin <= end && k <= k'
    ensures Cut(begin, end, number, k) <= Cut(begin, end, number, k')
  {
    var l := end - begin;
    assert k' * l - k * l == (k' - k) * l;
    assert (k' - k) * l >= 0;
    TruncMonotone(begin * number + k * l, begin * number + k' * l, number);
  }

  /** One step toward zero: where `int()` lands when a floating-point value
      falls just short of a non-zero integer. */
  function TowardZero(c: int): int
  {
    if c > 0 then c - 1 else if c < 0 then c + 1 else 0
  }

  /** The value of `int(begin + k * step)` with `step = (end - begin) / number`
      as the interpreter computes it, for each (begin, end, number, k). The
      step is a double, so the product and the sum are rounded. */
  type Rounding = (int, int, int, int) -> int

  /** The bounds floating-point evaluation can give. Bound 0 is `begin`
      itself, since `0 * step` is `0.0`. Rounding is monotone, so the bounds
      keep their order. The rounding error stays far below `1 / number` for
      intervals and frame counts below 2^20, so a bound can differ from the
      exact truncation only when the exact value is an integer while the
      step is not, and then by one step toward zero. */
  ghost predicate Admissible(fl: Rounding)
  {
    (forall b, e, n :: StartsAt(fl, b, e, n)) &&
    (forall b, e, n, k, k' :: OrderedAt(fl, b, e, n, k, k')) &&
    (forall b, e, n, k :: NearExactAt(fl, b, e, n, k))
  }

  /** Bound 0 is the start of the interval. */
  ghost predicate StartsAt(fl: Rounding, b: int, e: int, n: int)
  {
    n >= 1 ==> fl(b, e, n, 0) == b
  }

  /** Bounds k <= k' of one partition keep their order. */
  ghost predicate OrderedAt(fl: Rounding, b: int, e: int, n: int, k: int, k': int)
  {
    n >= 1 && b <= e && 0 <= k <= k' <= n ==> fl(b, e, n, k) <= fl(b, e, n, k')
  }

  /** Bound k is the exact truncation, or one step toward zero from it when
      the exact value is an integer and the step is not. */
  ghost predicate NearExactAt(fl: Rounding, b: int, e: int, n: int, k: int)
  {
    n >= 1 && 0 <= k <= n ==>
      fl(b, e, n, k) == Cut(b, e, n, k) ||
      ((k * (e - b)) % n == 0 && (e - b) % n != 0 && fl(b, e, n, k) == TowardZero(Cut(b, e, n, k)))
  }

  /** Evaluation in exact arithmetic. */
  function ExactRounding(): Rounding
  {
    (b, e, n, k) => if n >= 1 then Cut(b, e, n, k) else 0
  }

  /** Exact arithmetic is one of the admissible roundings. */
  lemma ExactAdmissible()
    ensures Admissible(ExactRounding())
  {
    var fl := ExactRounding();
    forall b, e, n
      ensures StartsAt(fl, b, e, n)
    {
      if n >= 1 {
        TruncExact(b, n);
      }
    }
    forall b, e, n, k, k'
      ensures OrderedAt(fl, b, e, n, k, k')
    {
      if n >= 1 && b <= e && k <= k' {
        CutMonotone(b, e, n, k, k');
      }
    }
  }

  /** `_divide(begin, end, number)`: `number` frames from `begin` on, each
      starting where the previous one ends. The last one ends at `end`, or
      one short of it when rounding falls just below. */
  function Divide(begin: int, end: int, number: int, fl: Rounding): (r: Result<seq<(int, int)>>)
    requires Admissible(fl)
    ensures number < 1 ==> r.Failure? && r.error.ValueError?
    ensures number >= 1 && number > end - begin ==> r.Failure? && r.error.ValueError?
    ensures 1 <= number <= end - begin ==> r.Success?
    ensures number == 1 <= end - begin ==> r == Success([(begin, end)])
    ensures r.Success? ==>
      |r.value| == number &&
      r.value[0].0 == begin &&
      (r.value[number - 1].1 == end || r.value[number - 1].1 == TowardZero(end)) &&
      (forall k :: 0 <= k < number - 1 ==> r.value[k].1 == r.value[k + 1].0) &&
      (forall k :: 0 <= k < number ==> begin <= r.value[k].0 <= r.value[k].1 <= r.value[number - 1].1)
  {
    if number < 1 then Failure(ValueError("Amount of frames must be greater than 0"))
    else if number > end - begin then Failure(ValueError("Amount of frames must be smaller than sequence length"))
    else if number == 1 then Success([(begin, end)])
    else
      var frames := seq(number, k => Frame(begin, end, number, fl, k));
      FramesHold(begin, end, number, fl, frames);
      Success(frames)
  }

  /** Frame k: from bound k to bound k + 1. */
  function Frame(begin: int, end: int, number: int, fl: Rounding, k: int): (int, int)
  {
    (fl(begin, end, number, k), fl(begin, end, number, k + 1))
  }

  /** The frames built from the bounds start at `begin`, follow each other
      and end at the last bound. */
  lemma FramesHold(begin: int, end: int, number: int, fl: Rounding, frames: seq<(int, int)>)
    requires Admissible(fl) && 1 <= number <= end - begin
    requires |frames| == number
    requires forall k :: 0 <= k < number ==> frames[k] == Frame(begin, end, number, fl, k)
    ensures frames[0].0 == begin
    ensures frames[number - 1].1 == end || frames[number - 1].1 == TowardZero(end)
    ensures forall k :: 0 <= k < number - 1 ==> frames[k].1 == frames[k + 1].0
    ensures forall k :: 0 <= k < number ==> begin <= frames[k].0 <= frames[k].1 <= frames[number - 1].1
  {
    LastBound(begin, end, number, fl);
    assert StartsAt(fl, begin, end, number);
    var first, last := fl(begin, end, number, 0), fl(begin, end, number, number);
    assert frames[0] == Frame(begin, end, number, fl, 0);
    assert frames[number - 1] == Frame(begin, end, number, fl, number - 1);
    forall k | 0 <= k < number - 1
      ensures frames[k].1 == frames[k + 1].0
    {
      assert frames[k] == Frame(begin, end, number, fl, k) && frames[k + 1] == Frame(begin, end, number, fl, k + 1);
    }
    forall k | 0 <= k < number
      ensures begin <= frames[k].0 <= frames[k].1 <= frames[number - 1].1
    {
      var lo, hi := fl(begin, end, number, k), fl(begin, end, number, k + 1);
      assert frames[k] == Frame(begin, end, number, fl, k) == (lo, hi);
      assert frames[number - 1] == Frame(begin, end, number, fl, number - 1);
      assert OrderedAt(fl, begin, end, number, 0, k) && OrderedAt(fl, begin, end, number, k, k + 1);
      assert OrderedAt(fl, begin, end, number, k + 1, number);
    }
  }

  /** The last bound is `end` or one step toward zero from it. */
  lemma LastBound(begin: int, end: int, number: int, fl: Rounding)
    requires Admissible(fl) && 1 <= number
    ensures fl(begin, end, number, number) == end || fl(begin, end, number, number) == TowardZero(end)
  {
    assert NearExactAt(fl, begin, end, number, number);
    CutEnds(begin, end, number);
  }

  lemma CutEnds(begin: int, end: int, number: int)
    requires 1 <= number
    ensures Cut(begin, end, number, 0) == begin
    ensures Cut(begin, end, number, number) == end
  {
    TruncExact(begin, number);
    assert begin * number + number * (end - begin) == end * number;
    TruncExact(end, number);
  }

  lemma DivAddSplit(x: int, l: int, n: int)
    requires x >= 0 && l >= 0 && n > 0
    ensures (x + l) / n - x / n == l / n || (x + l) / n - x / n == l / n + 1
  {
    var qx, rx, ql, rl := x / n, x % n, l / n, l % n;
    assert x + l == (qx + ql) * n + (rx + rl);
    if rx + rl < n { DivUnique(x + l, n, qx + ql, rx + rl); }
    else {
      assert x + l == (qx + ql + 1) * n + (rx + rl - n);
      DivUnique(x + l, n, qx + ql + 1, rx + rl - n);
    }
  }

  /** A bound lowered to just below an integer shortens the frame ending
      there by one: it holds exactly `l / n` positions. */
  lemma ShortBefore(x: int, l: int, n: int)
    requires n > 0 && x >= 0 && l >= 0 && (x + l) % n == 0 && l % n != 0
    ensures (x + l) / n - 1 - x / n == l / n
  {
    var e, q, r := (x + l) / n, l / n, l % n;
    assert x + l == e * n;
    assert x == (e - q - 1) * n + (n - r);
    DivUnique(x, n, e - q - 1, n - r);
  }

  /** ... and lengthens the frame starting there by one. */
  lemma LongAfter(x: int, l: int, n: int)
    requires n > 0 && x >= 0 && l >= 0 && x % n == 0
    ensures (x + l) / n - (x / n - 1) == l / n + 1
  {
    var e, q, r := x / n, l / n, l % n;
    assert x == e * n;
    assert x + l == (e + q) * n + r;
    DivUnique(x + l, n, e + q, r);
  }

  /** Two integral bounds in a row make the step integral. */
  lemma StepIntegral(x: int, l: int, n: int)
    requires n > 0 && x % n == 0 && (x + l) % n == 0
    ensures l % n == 0
  {
    var a, b := x / n, (x + l) / n;
    assert x == a * n && x + l == b * n;
    assert l == (b - a) * n;
    DivUnique(l, n, b - a, 0);
  }

  lemma ModShift(b: int, y: int, n: int)
    requires n > 0
    ensures (b * n + y) % n == y % n
  {
    assert b * n + y == (b + y / n) * n + y % n;
    DivUnique(b * n + y, n, b + y / n, y % n);
  }

  /** With a non-negative start a bound is the quotient of its numerator,
      which is an exact multiple exactly when `k * (end - begin)` is one. */
  lemma BoundAt(begin: int, end: int, number: int, k: int, fl: Rounding)
    requires Admissible(fl) && 0 <= begin && 1 <= number <= end - begin && 0 <= k <= number
    ensures var x := begin * number + k * (end - begin);
      x >= 0 && Cut(begin, end, number, k) == x / number &&
      (fl(begin, end, number, k) == x / number ||
       (x % number == 0 && (end - begin) % number != 0 && x / number > 0 && fl(begin, end, number, k) == x / number - 1))
  {
    var l := end - begin;
    var x := begin * number + k * l;
    assert k * l >= 0;
    assert NearExactAt(fl, begin, end, number, k);
    ModShift(begin, k * l, number);
  }

  /** Frame k holds `(end - begin) / number` positions or one more, whatever
      the admissible rounding. */
  lemma FrameSize(begin: int, end: int, number: int, k: int, fl: Rounding)
    requires Admissible(fl) && 0 <= begin && 1 <= number <= end - begin && 0 <= k < number
    ensures var size := fl(begin, end, number, k + 1) - fl(begin, end, number, k);
      size == (end - begin) / number || size == (end - begin) / number + 1
  {
    var l := end - begin;
    var x := begin * number + k * l;
    assert begin * number + (k + 1) * l == x + l;
    BoundAt(begin, end, number, k, fl);
    BoundAt(begin, end, number, k + 1, fl);
    var lo, hi := fl(begin, end, number, k), fl(begin, end, number, k + 1);
    if lo == x / number && hi == (x + l) / number {
      DivAddSplit(x, l, number);
    } else if lo == x / number {
      ShortBefore(x, l, number);
    } else if hi == (x + l) / number {
      LongAfter(x, l, number);
    } else {
      StepIntegral(x, l, number);
    }
  }

  /** With a non-negative start the frames are non-empty and "equally
      sized": every frame holds (end - begin) / number positions or one more. */
  lemma DivideEqualSizes(begin: int, end: int, number: int, fl: Rounding)
    requires Admissible(fl) && 0 <= begin && 1 <= number <= end - begin
    ensures var frames := Divide(begin, end, number, fl).value;
      forall k :: 0 <= k < number ==>
        var size := frames[k].1 - frames[k].0;
        1 <= size &&
        (size == (end - begin) / number || size == (end - begin) / number + 1)
  {
    var frames := Divide(begin, end, number, fl).value;
    var l := end - begin;
    DivUnique(l, number, l / number, l % number);
    assert l / number >= 1;
    if number > 1 {
      forall k | 0 <= k < number
        ensures var size := frames[k].1 - frames[k].0;
          size == l / number || size == l / number + 1
      {
        FrameSize(begin, end, number, k, fl);
      }
    } else {
      DivUnique(l, 1, l, 0);
    }
  }

  /** A negative start can yield an empty frame: the bounds are truncated
      toward zero, so -0.6 and 0.6 both become 0. */
  lemma NegativeStartEmptyFrame(fl: Rounding)
    requires Admissible(fl)
    ensures Divide(-3, 3, 5, fl).Success? && Divide(-3, 3, 5, fl).value[2] == (0, 0)
  {
    assert Cut(-3, 3, 5, 2) == 0 by { DivUnique(3, 5, 0, 3); }
    assert Cut(-3, 3, 5, 3) == 0 by { DivUnique(3, 5, 0, 3); }
    assert (2 * 6) % 5 != 0 && (3 * 6) % 5 != 0;
    assert NearExactAt(fl, -3, 3, 5, 2) && NearExactAt(fl, -3, 3, 5, 3);
  }

  /** Total of a sequence of samples (`np.sum`). */
  function Sum(s: seq<real>): (t: real)
  {
    if s == [] then 0.0 else Sum(s[..|s| - 1]) + s[|s| - 1]
  }

  lemma {:induction false} SumConcat(a: seq<real>, b: seq<real>)
    ensures Sum(a + b) == Sum(a) + Sum(b)
  {
    if b != [] {
      assert (a + b)[..|a + b| - 1] == a + b[..|b| - 1];
      SumConcat(a, b[..|b| - 1]);
    } else {
      assert a + b == a;
    }
  }

  /** The frame sums of one depth: sum k totals the k-th frame. */
  function FrameSums(segment: seq<real>, frames: seq<(int, int)>): (sums: seq<real>)
    requires forall k :: 0 <= k < |frames| ==> 0 <= frames[k].0 <= frames[k].1 <= |segment|
    ensures |sums| == |frames|
  {
    seq(|frames|, k requires 0 <= k < |frames| => Sum(segment[frames[k].0..frames[k].1]))
  }

  /** The frames of a segment add up to the samples before the last bound:
      the whole segment, or all but its last sample when rounding ends the
      last frame one short. */
  lemma FrameSumsCoverSegment(segment: seq<real>, number: int, fl: Rounding)
    requires Admissible(fl) && 1 <= number <= |segment|
    ensures var frames := Divide(0, |segment|, number, fl).value;
      var last := frames[number - 1].1;
      (last == |segment| || last == |segment| - 1) &&
      Sum(FrameSums(segment, frames)) == Sum(segment[..last])
  {
    var frames := Divide(0, |segment|, number, fl).value;
    var sums := FrameSums(segment, frames);
    PrefixSums(segment, frames, number);
    assert segment[0..frames[number - 1].1] == segment[..frames[number - 1].1];
    assert sums[..number] == sums;
  }

  /** In exact arithmetic the frames tile the whole segment, so their sums
      add up to the segment's total. */
  lemma ExactCutsCoverSegment(segment: seq<real>, number: int)
    requires 1 <= number <= |segment|
    ensures Admissible(ExactRounding())
    ensures Sum(FrameSums(segment, Divide(0, |segment|, number, ExactRounding()).value)) == Sum(segment)
  {
    ExactAdmissible();
    FrameSumsCoverSegment(segment, number, ExactRounding());
    if number > 1 {
      CutEnds(0, |segment|, number);
    }
    assert segment[..|segment|] == segment;
  }

  /** A rounding that gives 14 for `int(0 + 11 * (15 / 11))`, as double
      arithmetic does (11 * 1.3636363636363635 is 14.999999999999998), and
      the exact bound elsewhere. */
  function ShortLast(): Rounding
  {
    (b, e, n, k) => if b == 0 && e == 15 && n == 11 && k == 11 then 14 else if n >= 1 then Cut(b, e, n, k) else 0
  }

  /** Any admissible rounding whose last two bounds for (0, 15, 11) are 13
      and 14, as `ShortLast` is, leaves sample 14 of a 15-sample segment out
      of the frame sums. */
  lemma FloatCutsDropLastSample(segment: seq<real>, fl: Rounding)
    requires Admissible(fl) && |segment| == 15
    requires fl(0, 15, 11, 10) == 13 && fl(0, 15, 11, 11) == 14
    ensures Divide(0, |segment|, 11, fl).value[10] == (13, 14)
    ensures Sum(FrameSums(segment, Divide(0, |segment|, 11, fl).value)) == Sum(segment) - segment[14]
  {
    FrameSumsCoverSegment(segment, 11, fl);
    assert segment == segment[..14] + [segment[14]];
    SumConcat(segment[..14], [segment[14]]);
    assert Sum([segment[14]]) == Sum([]) + segment[14];
  }

  /** Shortening that one bound keeps the rounding admissible, and its last
      two bounds for (0, 15, 11) are 13 and 14. */
  lemma ShortLastAdmissible()
    ensures Admissible(ShortLast())
    ensures ShortLast()(0, 15, 11, 10) == 13 && ShortLast()(0, 15, 11, 11) == 14
  {
    assert Cut(0, 15, 11, 10) == 13 by { DivUnique(150, 11, 13, 7); }
    var fl := ShortLast();
    forall b, e, n
      ensures StartsAt(fl, b, e, n)
    {
      if n >= 1 {
        TruncExact(b, n);
      }
    }
    forall b, e, n, k, k'
      ensures OrderedAt(fl, b, e, n, k, k')
    {
      ShortLastOrdered(b, e, n, k, k');
    }
    forall b, e, n, k
      ensures NearExactAt(fl, b, e, n, k)
    {
      if b == 0 && e == 15 && n == 11 && k == 11 {
        assert Cut(0, 15, 11, 11) == 15 by { DivUnique(165, 11, 15, 0); }
        assert (11 * 15) % 11 == 0 && 15 % 11 != 0;
      }
    }
  }

  lemma ShortLastOrdered(b: int, e: int, n: int, k: int, k': int)
    ensures OrderedAt(ShortLast(), b, e, n, k, k')
  {
    if n >= 1 && b <= e && 0 <= k <= k' <= n {
      CutMonotone(b, e, n, k, k');
      if b == 0 && e == 15 && n == 11 && k' == 11 && k < 11 {
        CutMonotone(0, 15, 11, k, 10);
        assert Cut(0, 15, 11, 10) == 13 by { DivUnique(150, 11, 13, 7); }
      }
    }
  }

  lemma {:induction false} PrefixSums(segment: seq<real>, frames: seq<(int, int)>, j: nat)
    requires 1 <= j <= |frames| && frames[0].0 == 0
    requires forall k :: 0 <= k < |frames| ==> 0 <= frames[k].0 <= frames[k].1 <= |segment|
    requires forall k :: 0 <= k < |frames| - 1 ==> frames[k].1 == frames[k + 1].0
    ensures Sum(FrameSums(segment, frames)[..j]) == Sum(segment[0..frames[j - 1].1])
  {
    var sums := FrameSums(segment, frames);
    assert sums[..j][..j - 1] == sums[..j - 1];
    if j == 1 {
      assert sums[..0] == [];
    } else {
      PrefixSums(segment, frames, j - 1);
      var a, b := frames[j - 2].1, frames[j - 1].1;
      assert segment[0..b] == segment[0..a] + segment[a..b];
      SumConcat(segment[0..a], segment[a..b]);
    }
  }

  /** A summation node: its depth and its frame sums. */
  datatype SumNode = SumNode(depth: int, sums: seq<real>)

  /** The configuration of the discretiser: the chain length for a segment
      and the frame count for a depth. */
  datatype Summation = Summation(maxDepth: seq<real> -> int, frames: int -> int)
  {
    /** `Summation.discretise`: one node of frame sums per depth. The
        segment is flattened; `ndim` is the number of dimensions of the
        array the caller passes. */
    method Discretise(segment: seq<real>, ndim: nat, fl: Rounding) returns (r: Result<seq<SumNode>>)
      requires Admissible(fl)
      ensures ndim != 1 ==> r.Failure? && r.error.ValueError?
      ensures ndim == 1 ==>
        (r.Success? <==> forall d :: 0 <= d < maxDepth(segment) ==> 1 <= frames(d) <= |segment|)
      ensures r.Success? ==>
        |r.value| == (if maxDepth(segment) < 0 then 0 else maxDepth(segment)) &&
        forall d :: 0 <= d < |r.value| ==>
          Divide(0, |segment|, frames(d), fl).Success? &&
          r.value[d] == SumNode(d, FrameSums(segment, Divide(0, |segment|, frames(d), fl).value))
    {
      if ndim != 1 {
        return Failure(ValueError("Can only discretise 1D data."));
      }
      var nodes: seq<SumNode> := [];
      var depth := 0;
      var bound := maxDepth(segment);
      while depth < bound
        invariant 0 <= depth && (bound >= 0 ==> depth <= bound)
        invariant bound < 0 ==> depth == 0
        invariant |nodes| == depth
        invariant forall d :: 0 <= d < depth ==> 1 <= frames(d) <= |segment|
        invariant forall d :: 0 <= d < depth ==>
          Divide(0, |segment|, frames(d), fl).Success? &&
          nodes[d] == SumNode(d, FrameSums(segment, Divide(0, |segment|, frames(d), fl).value))
      {
        var breakpoints := Divide(0, |segment|, frames(depth), fl);
        if breakpoints.Failure? {
          return Failure(breakpoints.error);
        }
        var sums := FrameSums(segment, breakpoints.value);
        nodes := nodes + [SumNode(depth, sums)];
        depth := depth + 1;
      }
      return Success(nodes);
    }
  }
}
