/** The sliding-window segmenter (src/pbsf/segmenters/sliding_window.py). */
module Segmenters {
  import opened Wrappers
  import opened Arith

  /** The constructor's parameter dictionary; an absent key is `None`. */
  datatype Params = Params(
    windowSize: Option<int>,
    stepSize: Option<int>,
    autocorrelation: bool,
    differentiation: bool)

  /** The state a successful construction leaves behind. */
  datatype Config = Config(
    windowSize: Option<int>,
    windowFallback: Option<int>,
    stepSize: int,
    autocorrelation: bool,
    differentiation: bool)

  /** The checks and assignments of `SlidingWindow.__init__`. A window size
      of 0 is falsy in Python and is refused like a missing one. */
  function Configure(p: Params): (r: Result<Config>)
    ensures r.Success? <==>
      p.windowSize.Some? && p.windowSize.value > 0 &&
      (p.stepSize.None? || p.stepSize.value > 0)
    ensures r.Success? ==>
      r.value.stepSize == (if p.stepSize.None? then 1 else p.stepSize.value) &&
      r.value.autocorrelation == p.autocorrelation &&
      r.value.differentiation == p.differentiation &&
      (p.autocorrelation ==>
        r.value.windowSize.None? && r.value.windowFallback == p.windowSize) &&
      (!p.autocorrelation ==> r.value.windowSize == p.windowSize)
    ensures r.Failure? ==> r.error.ValueError?
  {
    if p.windowSize.None? || p.windowSize.value == 0 then
      if !p.autocorrelation then
        Failure(ValueError("`window_size` must be specified if `autocorrelation` is False."))
      else
        Failure(ValueError("`window_size` must be specified as a fallback for when there is no periodicity."))
    else if p.windowSize.value <= 0 then
      Failure(ValueError("`window_size` must be greater than 0."))
    else
      var (ws, fallback) :=
        if p.autocorrelation then (None, p.windowSize) else (p.windowSize, None);
      var step := if p.stepSize.None? then 1 else p.stepSize.value;
      if step <= 0 then
        Failure(ValueError("`step_size` must be greater than 0."))
      else
        Success(Config(ws, fallback, step, p.autocorrelation, p.differentiation))
  }

  /** `np.diff`: consecutive differences. */
  function Diff(d: seq<real>): (r: seq<real>)
    ensures |r| == if |d| == 0 then 0 else |d| - 1
    ensures forall i :: 0 <= i < |r| ==> r[i] + d[i] == d[i + 1]
  {
    if |d| == 0 then [] else seq(|d| - 1, i requires 0 <= i < |d| - 1 => d[i + 1] - d[i])
  }

  /** `sliding_window_view(d, w)`: every window of w consecutive samples. */
  function AllWindows(d: seq<real>, w: nat): (r: seq<seq<real>>)
    requires 1 <= w <= |d|
    ensures |r| == |d| - w + 1
  {
    seq(|d| - w + 1, i requires 0 <= i < |d| - w + 1 => d[i..i + w])
  }

  /** `s[::step]`: the elements at indices 0, step, 2 * step, ... */
  function EveryStep<X>(s: seq<X>, step: nat): (r: seq<X>)
    requires step >= 1
    decreases |s|
  {
    if s == [] then [] else [s[0]] + EveryStep(s[if step <= |s| then step else |s|..], step)
  }

  /** `s[::step]` holds ceil(|s| / step) elements. */
  lemma {:induction false} EveryStepLength<X>(s: seq<X>, step: nat)
    requires step >= 1
    ensures |EveryStep(s, step)| == if s == [] then 0 else (|s| - 1) / step + 1
    decreases |s|
  {
    if s != [] {
      if step < |s| {
        EveryStepLength(s[step..], step);
        DivShift(|s| - 1, step);
      } else {
        assert EveryStep(s, step) == [s[0]] + EveryStep([], step);
        DivSmall(|s| - 1, step);
      }
    }
  }

  /** Element k of `s[::step]` is element m = k * step of s. */
  lemma {:induction false} EveryStepAt<X>(s: seq<X>, step: nat, k: nat, m: nat)
    requires step >= 1 && k < |EveryStep(s, step)| && m == k * step
    ensures m < |s| && EveryStep(s, step)[k] == s[m]
    decreases k
  {
    if k > 0 {
      assert step <= |s|;
      var rest := s[step..];
      assert EveryStep(s, step)[k] == EveryStep(rest, step)[k - 1];
      assert m - step == (k - 1) * step;
      EveryStepAt(rest, step, k - 1, m - step);
    }
  }

  /** The windows the segmenter returns: window k starts at k * step, and
      there are (|d| - w) / step + 1 of them. */
  lemma WindowsShape(d: seq<real>, w: nat, step: nat)
    requires 1 <= w <= |d| && step >= 1
    ensures var r := EveryStep(AllWindows(d, w), step);
      |r| == (|d| - w) / step + 1 &&
      forall k :: 0 <= k < |r| ==> k * step + w <= |d| && r[k] == d[k * step..k * step + w]
  {
    var all := AllWindows(d, w);
    EveryStepLength(all, step);
    forall k | 0 <= k < |EveryStep(all, step)|
      ensures k * step + w <= |d| && EveryStep(all, step)[k] == d[k * step..k * step + w]
    {
      EveryStepAt(all, step, k, k * step);
    }
  }

  class SlidingWindow {
    var windowSize: Option<int>
    const windowFallback: Option<int>
    const stepSize: int
    const autocorrelation: bool
    const differentiation: bool
    /** The periodicity detector `_ac_window_size` would use: the index of
        the strongest autocorrelation lag past the minimum, when that
        correlation exceeds 0.5. Floating-point analysis is not modelled. */
    const strongestLag: seq<real> -> Option<nat>

    ghost predicate Valid()
      reads this
    {
      stepSize >= 1 &&
      (windowSize.Some? ==> windowSize.value >= 1) &&
      (autocorrelation ==> windowFallback.Some? && windowFallback.value >= 1) &&
      (!autocorrelation ==> windowSize.Some?)
    }

    constructor (c: Config, detector: seq<real> -> Option<nat>)
      requires c.stepSize >= 1
      requires c.windowSize.Some? ==> c.windowSize.value >= 1
      requires c.autocorrelation ==> c.windowFallback.Some? && c.windowFallback.value >= 1
      requires !c.autocorrelation ==> c.windowSize.Some?
      ensures Valid()
      ensures windowSize == c.windowSize && windowFallback == c.windowFallback
      ensures stepSize == c.stepSize && strongestLag == detector
      ensures autocorrelation == c.autocorrelation && differentiation == c.differentiation
    {
      windowSize := c.windowSize;
      windowFallback := c.windowFallback;
      stepSize := c.stepSize;
      autocorrelation := c.autocorrelation;
      differentiation := c.differentiation;
      strongestLag := detector;
    }

    /** `SlidingWindow(params)`: fails exactly when `Configure` does. */
    static method Create(p: Params, detector: seq<real> -> Option<nat>)
      returns (r: Result<SlidingWindow>)
      ensures r.Success? <==> Configure(p).Success?
      ensures r.Failure? ==> r.error == Configure(p).error
      ensures r.Success? ==>
        fresh(r.value) && r.value.Valid() &&
        r.value.windowSize == Configure(p).value.windowSize &&
        r.value.windowFallback == Configure(p).value.windowFallback &&
        r.value.stepSize == Configure(p).value.stepSize
    {
      var c := Configure(p);
      if c.Failure? {
        return Failure(c.error);
      }
      var s := new SlidingWindow(c.value, detector);
      return Success(s);
    }

    /** `_ac_window_size`: the detected period (lag + 1 past the minimum
        of 10), or the fallback size. */
    function AcWindowSize(data: seq<real>): (w: int)
      reads this
      requires Valid() && autocorrelation
      ensures w >= 1
      ensures strongestLag(data).Some? ==> w == strongestLag(data).value + 1 + 10
      ensures strongestLag(data).None? ==> w == windowFallback.value
    {
      match strongestLag(data)
      case Some(index) => index + 1 + 10
      case None => windowFallback.value
    }

    /** `segment`: the (possibly differentiated) data cut into windows of
        the window size, every step-th window kept. With autocorrelation the
        window size is determined on the first call and kept afterwards.
        `ndim` is the number of dimensions of the array passed in. */
    method Segment(data: seq<real>, ndim: nat) returns (r: Result<seq<seq<real>>>)
      requires Valid()
      modifies this
      ensures Valid()
      ensures ndim != 1 ==> windowSize == old(windowSize)
      ensures ndim == 1 && old(windowSize).None? ==> windowSize == Some(AcWindowSize(data))
      ensures old(windowSize).Some? ==> windowSize == old(windowSize)
      ensures ndim != 1 ==> r.Failure? && r.error.ValueError?
      ensures ndim == 1 ==>
        var w := windowSize.value;
        var d := if differentiation then Diff(data) else data;
        (r.Success? <==> w <= |data| && w <= |d|) &&
        (r.Success? ==> r.value == EveryStep(AllWindows(d, w), stepSize)) &&
        (r.Failure? ==> r.error.ValueError?)
    {
      if ndim != 1 {
        return Failure(ValueError("SlidingWindow only supports 1D data."));
      }
      if autocorrelation && windowSize.None? {
        windowSize := Some(AcWindowSize(data));
      }
      var w := windowSize.value;
      if |data| < w {
        return Failure(ValueError("Data length must be greater than or equal to window size."));
      }
      var d := data;
      if differentiation {
        d := Diff(data);
      }
      if |d| < w {
        // numpy's sliding_window_view refuses a window longer than the data
        return Failure(ValueError("window shape cannot be larger than input array shape"));
      }
      return Success(EveryStep(AllWindows(d, w), stepSize));
    }
  }
}
