// The nested word set: each discretisation chain becomes a nested word of
// pattern-graph vertices (its nodes but the last are pending calls), the
// last `context_size` such words are combined into one, and the set of
// combined words is what the model has learned.

module NestedWordSets {
  import opened Wrappers
  import opened MatchingRelations
  import opened NestedWords
  import opened PatternNodes
  import opened PatternGraphs

  /** A symbol: the vertex a chain's node was matched to, or `None` when no vertex holds it. */
  type Symbol = Option<nat>

  // ---------------------------------------------------------------------
  // The nested word of a chain

  /** `_chain_to_nw` on the vertices the pattern model gives: calls for all
      but the last vertex, then the last one as an internal position. */
  function ChainWord(vertices: seq<Symbol>): (r: Result<NW<Symbol>>)
    ensures r.Success? <==> |vertices| > 0
    ensures r.Failure? ==> r.error.IndexError?
    ensures r.Success? ==> r.value.word == vertices && Fits(r.value)
  {
    if |vertices| == 0 then Failure(IndexError("list index out of range"))
    else
      var calls := if |vertices| > 1 then CallsAdded(Empty(0), |vertices| - 1) else Empty(0);
      Success(NW(vertices, Extended(calls, 1)))
  }

  /** The nested word of a chain is well formed: its positions but the last
      are pending calls and the last one is internal. */
  lemma ChainWordShaped(vertices: seq<Symbol>)
    requires |vertices| > 0
    ensures WellFormed(ChainWord(vertices).value) && ChainShaped(ChainWord(vertices).value)
  {
    var last := |vertices| - 1;
    EmptyWellMatched(0);
    CallsShaped(last);
    var calls := if last > 0 then CallsAdded(Empty(0), last) else Empty(0);
    ExtendedKeepsMatches(calls, 1);
  }

  /** Every position but the last is a pending call, the last is internal. */
  predicate ChainShaped(w: NW<Symbol>)
  {
    Sized(w.m) && |w.word| == |w.m.succ| > 0 &&
    (forall x :: 0 <= x < |w.word| - 1 ==> w.m.succ[x] == Pending && w.m.pred[x] == Unset) &&
    w.m.succ[|w.word| - 1] == Unset && w.m.pred[|w.word| - 1] == Unset
  }

  /** `add_calls` on an empty nested word gives only pending calls. */
  lemma CallsShaped(count: nat)
    ensures WellMatched(CallsAdded(Empty(0), count))
    ensures forall x :: 0 <= x < count ==>
      CallsAdded(Empty(0), count).succ[x] == Pending && CallsAdded(Empty(0), count).pred[x] == Unset
    ensures Extended(CallsAdded(Empty(0), count), 1).succ[count] == Unset
    ensures Extended(CallsAdded(Empty(0), count), 1).pred[count] == Unset
    ensures forall x :: 0 <= x < count ==>
      Extended(CallsAdded(Empty(0), count), 1).succ[x] == Pending && Extended(CallsAdded(Empty(0), count), 1).pred[x] == Unset
  {
    var c := CallsAdded(Empty(0), count);
    EmptyWellMatched(0);
    CallsAddedWellMatched(Empty(0), count);
    CallsAddedEffect(Empty(0), count);
    var e := Extended(c, 1);
    forall x | 0 <= x < count
      ensures e.succ[x] == c.succ[x] && e.pred[x] == c.pred[x]
    {
      assert e.succ[..|c.succ|][x] == c.succ[x];
      assert e.pred[..|c.pred|][x] == c.pred[x];
    }
  }

  // ---------------------------------------------------------------------
  // Pending calls in increasing order

  /** `sorted(matching.get_pending_calls())`. */
  function SortedPending(m: Matching): (r: seq<nat>)
    requires Sized(m)
    ensures |r| == |PendingFrom(m, 0)|
    ensures forall i :: 0 <= i < |r| ==> r[i] == PendingFrom(m, 0)[|r| - 1 - i] && r[i] < |m.succ|
  {
    var p := PendingFrom(m, 0);
    seq(|p|, i requires 0 <= i < |p| => p[|p| - 1 - i])
  }

  /** The list is increasing and holds exactly the pending calls. */
  lemma SortedPendingSorted(m: Matching)
    requires Sized(m)
    ensures forall a, b :: 0 <= a < b < |SortedPending(m)| ==> SortedPending(m)[a] < SortedPending(m)[b]
    ensures forall i :: 0 <= i < |SortedPending(m)| ==> SortedPending(m)[i] in PendingCalls(m)
    ensures forall x :: x in PendingCalls(m) ==> x in SortedPending(m)
    ensures |SortedPending(m)| == |PendingCalls(m)|
  {
    PendingFromSorted(m);
    PendingCount(m);
    ReversedIncreasing(PendingFrom(m, 0), SortedPending(m), PendingCalls(m));
  }

  /** The reverse of a decreasing list of exactly the elements of `c` is an
      increasing list of exactly those elements. */
  lemma ReversedIncreasing(p: seq<nat>, s: seq<nat>, c: set<nat>)
    requires |s| == |p| && forall i :: 0 <= i < |s| ==> s[i] == p[|s| - 1 - i]
    requires forall j :: 0 <= j < |p| ==> p[j] in c
    requires forall x :: x in c ==> x in p
    requires forall a, b :: 0 <= a < b < |p| ==> p[a] > p[b]
    ensures forall a, b :: 0 <= a < b < |s| ==> s[a] < s[b]
    ensures forall i :: 0 <= i < |s| ==> s[i] in c
    ensures forall x :: x in c ==> x in s
  {
    forall x | x in c
      ensures x in s
    {
      var j :| 0 <= j < |p| && p[j] == x;
      assert s[|p| - 1 - j] == x;
    }
  }

  /** The symbols at the pending calls, in increasing order of position. */
  function PendingSymbols(w: NW<Symbol>): (s: seq<Symbol>)
    requires Sized(w.m) && |w.word| == |w.m.succ|
    ensures |s| == |SortedPending(w.m)|
  {
    var p := SortedPending(w.m);
    seq(|p|, i requires 0 <= i < |p| => w.word[p[i]])
  }

  /** The first depth at which the two lists differ, scanning both together
      up to the shorter one, as `zip` does. */
  function FirstMismatch(s1: seq<Symbol>, s2: seq<Symbol>): (r: Option<nat>)
    ensures r.Some? ==> r.value < |s1| && r.value < |s2| && s1[r.value] != s2[r.value]
    ensures r.Some? ==> forall e :: 0 <= e < r.value ==> s1[e] == s2[e]
    ensures r.None? ==> forall e :: 0 <= e < |s1| && e < |s2| ==> s1[e] == s2[e]
  {
    if |s1| == 0 || |s2| == 0 then None
    else if s1[0] != s2[0] then Some(0)
    else
      match FirstMismatch(s1[1..], s2[1..])
      case None => None
      case Some(d) => Some(d + 1)
  }

  // ---------------------------------------------------------------------
  // Closing pending calls

  /** The symbols of the `k` most recent pending calls, most recent first. */
  function ClosingSymbols(w: NW<Symbol>, k: nat): (r: seq<Symbol>)
    requires Fits(w) && k <= |PendingFrom(w.m, 0)|
    ensures |r| == k
    ensures forall j :: 0 <= j < k ==> PendingFrom(w.m, 0)[j] < |w.word| && r[j] == w.word[PendingFrom(w.m, 0)[j]]
  {
    if k == 0 then []
    else
      var p := PendingFrom(w.m, 0);
      ClosingSymbols(w, k - 1) + [w.word[p[k - 1]]]
  }

  /** `_close_positions(nw, number)`: one `add_return` per closed call, the
      most recent first, each repeating the symbol of the call it closes. */
  function ClosedPositions(w: NW<Symbol>, number: int): (r: Result<NW<Symbol>>)
    requires Fits(w)
    ensures r.Success? <==> 0 < number <= |PendingCalls(w.m)|
    ensures r.Failure? ==> r.error.ValueError?
    ensures r.Success? ==> Sized(r.value.m) && |r.value.word| == |r.value.m.succ| == |w.word| + number
    ensures r.Success? ==> number <= |PendingFrom(w.m, 0)|
  {
    if number <= 0 then Failure(ValueError("Cannot close negative number of open positions."))
    else if number > |PendingCalls(w.m)| then Failure(ValueError("Number is greater than number of open positions."))
    else
      PendingCount(w.m);
      Success(NW(w.word + ClosingSymbols(w, number), ReturnsAdded(w.m, number)))
  }

  /** Closing keeps the word of the nested word as a prefix. */
  lemma ClosedPositionsPrefix(w: NW<Symbol>, number: int)
    requires Fits(w) && ClosedPositions(w, number).Success?
    ensures ClosedPositions(w, number).value.word == w.word + ClosingSymbols(w, number)
    ensures ClosedPositions(w, number).value.word[..|w.word|] == w.word
  {
    PendingCount(w.m);
    var r := ClosedPositions(w, number).value;
    assert r.word == w.word + ClosingSymbols(w, number);
    assert r.word[..|w.word|] == w.word;
  }

  /** Closing keeps the nested word well formed and its word a prefix. */
  lemma ClosedPositionsWellFormed(w: NW<Symbol>, number: int, r: NW<Symbol>)
    requires WellFormed(w) && ClosedPositions(w, number) == Success(r)
    ensures WellFormed(r) && r.word[..|w.word|] == w.word
  {
    ReturnsUpToWellMatched(w.m, number, number, ReturnsUpTo(w.m, number, number));
  }

  /** What closing does: the `number` most recent pending calls are matched,
      in that order, with the new positions, which repeat their symbols; the
      older ones stay pending. */
  lemma ClosedPositionsEffect(w: NW<Symbol>, number: int, r: NW<Symbol>)
    requires Fits(w) && ClosedPositions(w, number) == Success(r)
    ensures number <= |PendingFrom(w.m, 0)|
    ensures forall j :: 0 <= j < number ==>
      r.m.succ[PendingFrom(w.m, 0)[j]] == At(|w.word| + j) && r.m.pred[|w.word| + j] == At(PendingFrom(w.m, 0)[j])
    ensures forall j :: 0 <= j < number ==> r.word[|w.word| + j] == w.word[PendingFrom(w.m, 0)[j]]
    ensures PendingFrom(r.m, 0) == PendingFrom(w.m, 0)[number..]
    ensures |PendingCalls(r.m)| == |PendingCalls(w.m)| - number
  {
    ClosedPositionsParts(w, number, r);
    ClosedPairs(w, number, r);
    ClosedWordEffect(w, number, r.word);
    ClosedMatchesEffect(w.m, number, r.m);
  }

  /** The pairs that closing makes, over the closed nested word's parts. */
  lemma ClosedPairs(w: NW<Symbol>, number: nat, r: NW<Symbol>)
    requires Fits(w) && number <= |PendingFrom(w.m, 0)|
    requires r.word == w.word + ClosingSymbols(w, number) && r.m == ReturnsAdded(w.m, number)
    ensures forall j :: 0 <= j < number ==>
      r.m.succ[PendingFrom(w.m, 0)[j]] == At(|w.word| + j) &&
      r.m.pred[|w.word| + j] == At(PendingFrom(w.m, 0)[j])
  {
    ClosedMatchesEffect(w.m, number, r.m);
  }

  /** A successful close appends the closing symbols and adds the returns. */
  lemma ClosedPositionsParts(w: NW<Symbol>, number: int, r: NW<Symbol>)
    requires Fits(w) && ClosedPositions(w, number) == Success(r)
    ensures 0 < number <= |PendingFrom(w.m, 0)|
    ensures r.word == w.word + ClosingSymbols(w, number) && r.m == ReturnsAdded(w.m, number)
  {
  }

  /** The word part of that: the new positions repeat the symbols of the
      calls they close. */
  lemma ClosedWordEffect(w: NW<Symbol>, number: nat, rw: seq<Symbol>)
    requires Fits(w) && number <= |PendingFrom(w.m, 0)| && rw == w.word + ClosingSymbols(w, number)
    ensures forall j :: 0 <= j < number ==> rw[|w.word| + j] == w.word[PendingFrom(w.m, 0)[j]]
  {
    var p, cs := PendingFrom(w.m, 0), ClosingSymbols(w, number);
    forall j | 0 <= j < number
      ensures rw[|w.word| + j] == w.word[p[j]]
    {
      assert rw[|w.word| + j] == cs[j];
    }
  }

  /** The relation part of that: `add_returns` of `number` symbols. */
  lemma ClosedMatchesEffect(m: Matching, number: nat, rm: Matching)
    requires Sized(m) && number <= |PendingFrom(m, 0)| && rm == ReturnsAdded(m, number)
    ensures forall j :: 0 <= j < number ==>
      rm.succ[PendingFrom(m, 0)[j]] == At(|m.succ| + j) && rm.pred[|m.succ| + j] == At(PendingFrom(m, 0)[j])
    ensures PendingFrom(rm, 0) == PendingFrom(m, 0)[number..]
    ensures |PendingCalls(rm)| == |PendingCalls(m)| - number
  {
    PendingCount(m);
    ReturnsAddedEffect(m, number);
    PendingAfterReturns(m, number);
    PendingCount(rm);
  }

  /** The loop of `_close_positions`: one `add_return` per position, with
      the symbol at that position. */
  method CloseEach(nw: NestedWord<Symbol>, ghost w: NW<Symbol>, positions: seq<nat>)
    requires nw.Valid() && nw.Value() == w && Fits(w)
    requires |positions| <= |PendingFrom(w.m, 0)| && positions == PendingFrom(w.m, 0)[..|positions|]
    modifies nw, nw.matching
    ensures nw.Valid()
    ensures nw.word == w.word + ClosingSymbols(w, |positions|)
    ensures nw.matching.Value() == ReturnsAdded(w.m, |positions|)
  {
    ReturnsUpToStart(w.m, 0);
    assert Extended(w.m, 0) == w.m;
    for i := 0 to |positions|
      invariant nw.Valid()
      invariant nw.word == w.word + ClosingSymbols(w, i)
      invariant nw.matching.Value() == ReturnsAdded(w.m, i)
    {
      CloseOne(nw, w, positions, i);
    }
  }

  /** One step of that loop. */
  method CloseOne(nw: NestedWord<Symbol>, ghost w: NW<Symbol>, positions: seq<nat>, i: nat)
    requires Fits(w) && i < |positions| <= |PendingFrom(w.m, 0)| && positions == PendingFrom(w.m, 0)[..|positions|]
    requires nw.Valid() && nw.word == w.word + ClosingSymbols(w, i) && nw.matching.Value() == ReturnsAdded(w.m, i)
    modifies nw, nw.matching
    ensures nw.Valid() && nw.word == w.word + ClosingSymbols(w, i + 1)
    ensures nw.matching.Value() == ReturnsAdded(w.m, i + 1)
  {
    assert nw.word[positions[i]] == w.word[positions[i]];
    ReturnsAddedOneMore(w.m, i);
    nw.AddReturn(nw.word[positions[i]]);
  }

  /** Closing with one `add_return` at a time: after `i` of them the relation
      is the one `add_returns` of `i` symbols gives. */
  method ClosePositions(nw: NestedWord<Symbol>, number: int) returns (r: Outcome)
    requires nw.Valid()
    modifies nw, nw.matching
    ensures nw.Valid()
    ensures r.Pass? <==> ClosedPositions(old(nw.Value()), number).Success?
    ensures r.Pass? ==> nw.Value() == ClosedPositions(old(nw.Value()), number).value
    ensures r.Fail? ==> r.error == ClosedPositions(old(nw.Value()), number).error && nw.Value() == old(nw.Value())
  {
    ghost var w := nw.Value();
    if number <= 0 {
      return Fail(ValueError("Cannot close negative number of open positions."));
    }
    var pending := nw.matching.GetPendingCalls();
    if number > |pending| {
      return Fail(ValueError("Number is greater than number of open positions."));
    }
    PendingCount(w.m);
    // The pending calls in decreasing order: the first `number` of them are
    // the `number` largest, most recent first.
    var positions := PendingFrom(nw.matching.Value(), 0)[..number];
    CloseEach(nw, w, positions);
    r := Pass;
  }

  // ---------------------------------------------------------------------
  // Combining nested words

  /** The symbols and the relation have the same length. */
  predicate Fits(w: NW<Symbol>)
  {
    Sized(w.m) && |w.word| == |w.m.succ|
  }

  /** `add_internal(x)`. */
  function AddedInternal(w: NW<Symbol>, x: Symbol): (r: NW<Symbol>)
    requires Fits(w)
    ensures Fits(r) && r.word == w.word + [x]
  {
    NW(w.word + [x], Extended(w.m, 1))
  }

  /** The part of `w2` from its `d`-th pending call on: `nw2[p2[d]:]`. */
  function Tail(w2: NW<Symbol>, d: nat): (r: NW<Symbol>)
    requires Fits(w2) && d < |SortedPending(w2.m)|
    ensures Fits(r) && r.word == w2.word[SortedPending(w2.m)[d]..] && |r.word| > 0
    ensures r.word[|r.word| - 1] == w2.word[|w2.word| - 1]
  {
    var a := SortedPending(w2.m)[d];
    NW(w2.word[a..], Sliced(w2.m, a, |w2.word|))
  }

  /** The branch of `_combine_nws` taken at the first depth `d` where the
      pending symbols differ: the calls of `w1` from depth `d` up are closed
      and `w2` from its `d`-th pending call on is appended. Neither the
      closing nor the slice can fail there (`RebasedIs`). */
  function Rebased(w1: NW<Symbol>, w2: NW<Symbol>, d: nat): (r: Result<NW<Symbol>>)
    requires Fits(w1) && Fits(w2)
    requires d < |SortedPending(w1.m)| && d < |SortedPending(w2.m)|
    ensures r.Success? ==> Fits(r.value)
  {
    PendingCount(w1.m);
    Concatenated(ClosedPositions(w1, |SortedPending(w1.m)| - d).value, Tail(w2, d))
  }

  /** Closing the calls from depth `d` up and slicing `w2` from its `d`-th
      pending call on cannot fail. */
  lemma RebasedIs(w1: NW<Symbol>, w2: NW<Symbol>, d: nat)
    requires Fits(w1) && Fits(w2)
    requires d < |SortedPending(w1.m)| && d < |SortedPending(w2.m)|
    ensures ClosedPositions(w1, |SortedPending(w1.m)| - d).Success?
    ensures SliceBounds(|w2.word|, Some(SortedPending(w2.m)[d]), None) == Success((SortedPending(w2.m)[d], |w2.word|))
  {
    PendingCount(w1.m);
  }

  /** The rebased word is `w1`, the closing returns, then the tail of `w2`. */
  lemma RebasedWord(w1: NW<Symbol>, w2: NW<Symbol>, d: nat, r: NW<Symbol>)
    requires Fits(w1) && Fits(w2)
    requires d < |SortedPending(w1.m)| && d < |SortedPending(w2.m)|
    requires Rebased(w1, w2, d) == Success(r)
    ensures |r.word| > |w1.word| && r.word[..|w1.word|] == w1.word
    ensures r.word[|r.word| - 1] == w2.word[|w2.word| - 1]
  {
    var closed, tail := RebasedParts(w1, w2, d);
    JoinedWord(w1.word, closed, tail, r);
  }

  /** The two parts the rebased word is concatenated from. */
  lemma RebasedParts(w1: NW<Symbol>, w2: NW<Symbol>, d: nat) returns (closed: NW<Symbol>, tail: NW<Symbol>)
    requires Fits(w1) && Fits(w2)
    requires d < |SortedPending(w1.m)| && d < |SortedPending(w2.m)|
    ensures Fits(closed) && Fits(tail) && Rebased(w1, w2, d) == Concatenated(closed, tail)
    ensures |closed.word| > |w1.word| && closed.word[..|w1.word|] == w1.word
    ensures |tail.word| > 0 && tail.word[|tail.word| - 1] == w2.word[|w2.word| - 1]
  {
    var n := |SortedPending(w1.m)| - d;
    RebasedIs(w1, w2, d);
    closed, tail := ClosedPositions(w1, n).value, Tail(w2, d);
    ClosedPositionsPrefix(w1, n);
  }

  /** A concatenation of an extension of `a` and a nonempty word. */
  lemma JoinedWord(a: seq<Symbol>, b: NW<Symbol>, c: NW<Symbol>, r: NW<Symbol>)
    requires Fits(b) && Fits(c) && Concatenated(b, c) == Success(r)
    requires |b.word| > |a| && b.word[..|a|] == a && |c.word| > 0
    ensures r.word == b.word + c.word
    ensures |r.word| > |a| && r.word[..|a|] == a && r.word[|r.word| - 1] == c.word[|c.word| - 1]
  {
    ConcatenatedWord(b, c);
    assert r.word[..|a|] == b.word[..|a|];
  }

  lemma RebasedWellFormed(w1: NW<Symbol>, w2: NW<Symbol>, d: nat)
    requires Fits(w1) && Fits(w2)
    requires d < |SortedPending(w1.m)| && d < |SortedPending(w2.m)|
    requires Rebased(w1, w2, d).Success?
    ensures WellFormed(Rebased(w1, w2, d).value)
  {
    RebasedIs(w1, w2, d);
    var closed := ClosedPositions(w1, |SortedPending(w1.m)| - d).value;
    FromTaggedWellFormed(Tagged(closed) + Tagged(Tail(w2, d)));
  }

  /** The last step of `_combine_nws`: the last symbol of `w2` appended to
      `w` as an internal position unless `w` already ends with it; an empty
      word has no last symbol. */
  function WithLast(w: NW<Symbol>, w2: NW<Symbol>): (r: Result<NW<Symbol>>)
    requires Fits(w)
    ensures r.Success? <==> |w.word| > 0 && |w2.word| > 0
    ensures r.Failure? ==> r.error == IndexError("list index out of range")
    ensures r.Success? ==> Fits(r.value) && |r.value.word| >= |w.word| > 0 && r.value.word[..|w.word|] == w.word
    ensures r.Success? ==> r.value.word[|r.value.word| - 1] == w2.word[|w2.word| - 1]
  {
    if |w.word| == 0 || |w2.word| == 0 then Failure(IndexError("list index out of range"))
    else if w.word[|w.word| - 1] != w2.word[|w2.word| - 1] then Success(AddedInternal(w, w2.word[|w2.word| - 1]))
    else Success(w)
  }

  /** `_combine_nws(nw1, nw2)`, without its cache. */
  function Combined(w1: NW<Symbol>, w2: NW<Symbol>): (r: Result<NW<Symbol>>)
    requires Fits(w1) && Fits(w2)
    ensures r.Success? ==> Fits(r.value)
  {
    if |w1.word| == 0 then Success(w2)
    else
      var d := FirstMismatch(PendingSymbols(w1), PendingSymbols(w2));
      var nw :- if d.Some? then Rebased(w1, w2, d.value) else Success(w1);
      WithLast(nw, w2)
  }

  /** The two branches of a nonempty first word, with the intermediate
      word named. */
  lemma CombinedThrough(w1: NW<Symbol>, w2: NW<Symbol>, d: Option<nat>)
    requires Fits(w1) && Fits(w2) && |w1.word| > 0
    requires d == FirstMismatch(PendingSymbols(w1), PendingSymbols(w2))
    ensures d.None? ==> Combined(w1, w2) == WithLast(w1, w2)
    ensures d.Some? && Rebased(w1, w2, d.value).Failure? ==> Combined(w1, w2) == Failure(Rebased(w1, w2, d.value).error)
    ensures d.Some? && Rebased(w1, w2, d.value).Success? ==> Combined(w1, w2) == WithLast(Rebased(w1, w2, d.value).value, w2)
  {
  }

  /** `CombinedThrough` after a mismatch, with the rebased and the combined
      word named. */
  lemma CombinedRebasedCases(w1: NW<Symbol>, w2: NW<Symbol>, d: nat, rb: Result<NW<Symbol>>, c: Result<NW<Symbol>>)
    requires Fits(w1) && Fits(w2) && |w1.word| > 0
    requires Some(d) == FirstMismatch(PendingSymbols(w1), PendingSymbols(w2))
    requires rb == Rebased(w1, w2, d) && c == Combined(w1, w2)
    ensures rb.Failure? ==> c == Failure(rb.error)
    ensures rb.Success? ==> Fits(rb.value) && c == WithLast(rb.value, w2)
  {
    CombinedThrough(w1, w2, Some(d));
  }

  /** After a mismatch nothing is appended to the rebased word: it already
      ends with the second word's last symbol. */
  lemma CombinedAfterMismatch(w1: NW<Symbol>, w2: NW<Symbol>)
    requires Fits(w1) && Fits(w2) && |w1.word| > 0
    requires FirstMismatch(PendingSymbols(w1), PendingSymbols(w2)).Some?
    ensures Combined(w1, w2) == Rebased(w1, w2, FirstMismatch(PendingSymbols(w1), PendingSymbols(w2)).value)
  {
    var d := FirstMismatch(PendingSymbols(w1), PendingSymbols(w2)).value;
    RebasedCombined(w1, w2, d);
  }

  /** `CombinedAfterMismatch` at the depth `d` of the mismatch. */
  lemma RebasedCombined(w1: NW<Symbol>, w2: NW<Symbol>, d: nat)
    requires Fits(w1) && Fits(w2) && |w1.word| > 0
    requires Some(d) == FirstMismatch(PendingSymbols(w1), PendingSymbols(w2))
    ensures Combined(w1, w2) == Rebased(w1, w2, d)
  {
    var rb, c := Rebased(w1, w2, d), Combined(w1, w2);
    CombinedRebasedCases(w1, w2, d, rb, c);
    if rb.Success? {
      RebasedEndsLast(w1, w2, d, rb.value, c);
    }
  }

  /** The rebased word already ends with the second word's last symbol, so
      nothing is appended to it. */
  lemma RebasedEndsLast(w1: NW<Symbol>, w2: NW<Symbol>, d: nat, r: NW<Symbol>, c: Result<NW<Symbol>>)
    requires Fits(w1) && Fits(w2)
    requires d < |SortedPending(w1.m)| && d < |SortedPending(w2.m)|
    requires Rebased(w1, w2, d) == Success(r) && c == WithLast(r, w2)
    ensures c == Success(r)
  {
    RebasedWord(w1, w2, d, r);
    WithLastKept(r, w2);
  }

  /** A word that already ends with the second word's last symbol is kept
      as it is. */
  lemma WithLastKept(w: NW<Symbol>, w2: NW<Symbol>)
    requires Fits(w) && |w.word| > 0 && |w2.word| > 0 && w.word[|w.word| - 1] == w2.word[|w2.word| - 1]
    ensures WithLast(w, w2) == Success(w)
  {
  }

  /** Without a mismatch the first word is kept, with the second word's last
      symbol appended as an internal position when it differs. */
  lemma CombinedWithoutMismatch(w1: NW<Symbol>, w2: NW<Symbol>)
    requires Fits(w1) && Fits(w2) && |w1.word| > 0 && |w2.word| > 0
    requires FirstMismatch(PendingSymbols(w1), PendingSymbols(w2)).None?
    ensures Combined(w1, w2) == Success(
      if w1.word[|w1.word| - 1] == w2.word[|w2.word| - 1] then w1
      else AddedInternal(w1, w2.word[|w2.word| - 1]))
  {
  }

  /** The combination keeps the first word as a prefix. */
  lemma CombinedKeeps(w1: NW<Symbol>, w2: NW<Symbol>)
    requires Fits(w1) && Fits(w2) && Combined(w1, w2).Success?
    ensures |w1.word| > 0 ==> |w2.word| > 0
    ensures |Combined(w1, w2).value.word| >= |w1.word|
    ensures Combined(w1, w2).value.word[..|w1.word|] == w1.word
  {
    if |w1.word| > 0 {
      var d := FirstMismatch(PendingSymbols(w1), PendingSymbols(w2));
      if d.Some? {
        CombinedAfterMismatch(w1, w2);
        RebasedWord(w1, w2, d.value, Rebased(w1, w2, d.value).value);
      } else {
        CombinedWithoutMismatch(w1, w2);
        var r := Combined(w1, w2).value;
        assert r.word[..|w1.word|] == w1.word;
      }
    }
  }

  /** The combination ends with the last symbol of the second word. */
  lemma CombinedLast(w1: NW<Symbol>, w2: NW<Symbol>)
    requires Fits(w1) && Fits(w2) && Combined(w1, w2).Success? && |w2.word| > 0
    ensures |Combined(w1, w2).value.word| > 0
    ensures Combined(w1, w2).value.word[|Combined(w1, w2).value.word| - 1] == w2.word[|w2.word| - 1]
  {
    var r := Combined(w1, w2).value;
    if |w1.word| > 0 {
      var d := FirstMismatch(PendingSymbols(w1), PendingSymbols(w2));
      if d.Some? {
        RebasedLast(w1, w2, d.value, r);
      } else {
        KeptLast(w1, w2, r);
      }
    }
  }

  /** `CombinedLast` after a mismatch at `d`. */
  lemma RebasedLast(w1: NW<Symbol>, w2: NW<Symbol>, d: nat, r: NW<Symbol>)
    requires Fits(w1) && Fits(w2) && |w1.word| > 0 && |w2.word| > 0
    requires FirstMismatch(PendingSymbols(w1), PendingSymbols(w2)) == Some(d) && Combined(w1, w2) == Success(r)
    ensures |r.word| > 0 && r.word[|r.word| - 1] == w2.word[|w2.word| - 1]
  {
    CombinedAfterMismatch(w1, w2);
    RebasedWord(w1, w2, d, r);
  }

  /** `CombinedLast` without a mismatch. */
  lemma KeptLast(w1: NW<Symbol>, w2: NW<Symbol>, r: NW<Symbol>)
    requires Fits(w1) && Fits(w2) && |w1.word| > 0 && |w2.word| > 0
    requires FirstMismatch(PendingSymbols(w1), PendingSymbols(w2)).None? && Combined(w1, w2) == Success(r)
    ensures |r.word| > 0 && r.word[|r.word| - 1] == w2.word[|w2.word| - 1]
  {
    CombinedThrough(w1, w2, None);
  }

  lemma AddedInternalWellFormed(w: NW<Symbol>, x: Symbol)
    requires WellFormed(w) && Fits(w)
    ensures WellFormed(AddedInternal(w, x))
  {
    ExtendedKeepsMatches(w.m, 1);
  }

  /** The combination of well-formed nested words is well formed. */
  lemma CombinedWellFormed(w1: NW<Symbol>, w2: NW<Symbol>)
    requires Fits(w1) && Fits(w2) && WellFormed(w1) && WellFormed(w2)
    requires Combined(w1, w2).Success?
    ensures WellFormed(Combined(w1, w2).value)
  {
    if |w1.word| > 0 {
      var d := FirstMismatch(PendingSymbols(w1), PendingSymbols(w2));
      if d.Some? {
        CombinedAfterMismatch(w1, w2);
        RebasedWellFormed(w1, w2, d.value);
      } else {
        CombinedWithoutMismatch(w1, w2);
        if w1.word[|w1.word| - 1] != w2.word[|w2.word| - 1] {
          AddedInternalWellFormed(w1, w2.word[|w2.word| - 1]);
        }
      }
    }
  }

  /** A nested word combined with itself is itself. */
  lemma CombinedSelf(w: NW<Symbol>)
    requires Fits(w) && |w.word| > 0
    ensures Combined(w, w) == Success(w)
  {
    var s := PendingSymbols(w);
    assert FirstMismatch(s, s).None?;
  }

  /** `NestedWord()`. */
  function EmptyWord(): (r: NW<Symbol>)
    ensures WellFormed(r) && Fits(r) && |r.word| == 0
  {
    EmptyWellMatched(0);
    NW([], Empty(0))
  }

  /** The empty nested word is a left unit. */
  lemma CombinedEmpty(w: NW<Symbol>)
    requires Fits(w)
    ensures Combined(EmptyWord(), w) == Success(w)
  {
  }

  /** `_combine_queue`: the words combined from left to right, starting
      from the empty nested word. */
  function CombinedAll(ws: seq<NW<Symbol>>): (r: Result<NW<Symbol>>)
    requires forall i :: 0 <= i < |ws| ==> Fits(ws[i])
    ensures r.Success? ==> Fits(r.value)
  {
    if ws == [] then Success(EmptyWord())
    else
      var acc :- CombinedAll(ws[..|ws| - 1]);
      Combined(acc, ws[|ws| - 1])
  }

  /** A queue of one word combines to that word. */
  lemma CombinedAllSingle(w: NW<Symbol>)
    requires Fits(w)
    ensures CombinedAll([w]) == Success(w)
  {
    assert [w][..0] == [];
    CombinedEmpty(w);
  }

  /** The combination of a queue of well-formed words is well formed. */
  lemma {:induction false} CombinedAllWellFormed(ws: seq<NW<Symbol>>)
    requires forall i :: 0 <= i < |ws| ==> Fits(ws[i]) && WellFormed(ws[i])
    requires CombinedAll(ws).Success?
    ensures WellFormed(CombinedAll(ws).value)
    decreases |ws|
  {
    if ws != [] {
      var init := ws[..|ws| - 1];
      assert forall i :: 0 <= i < |init| ==> init[i] == ws[i];
      CombinedAllWellFormed(init);
      CombinedWellFormed(CombinedAll(init).value, ws[|ws| - 1]);
    }
  }

  /** No position of the word is a return, matched or pending, as in the
      nested word of a chain. */
  predicate Returnless(w: NW<Symbol>)
  {
    forall j :: 0 <= j < |w.m.pred| ==> w.m.pred[j] == Unset
  }

  /** The tail of a word without returns has no returns either. */
  lemma TailReturnless(w2: NW<Symbol>, d: nat)
    requires Fits(w2) && Returnless(w2) && d < |SortedPending(w2.m)|
    ensures Returnless(Tail(w2, d)) && NoPendingReturns(Tail(w2, d).m)
  {
    var a := SortedPending(w2.m)[d];
    forall j | 0 <= j < |Tail(w2, d).m.pred|
      ensures Tail(w2, d).m.pred[j] == Unset
    {
      SlicedAt(w2.m, a, |w2.word|, j);
    }
  }

  /** After a mismatch, the calls of a well-formed first word are closed and
      the tail of a second word without returns is appended: the
      concatenation cannot fail, since nothing in the tail closes a call. */
  lemma RebasedSucceeds(w1: NW<Symbol>, w2: NW<Symbol>, d: nat)
    requires WellFormed(w1) && WellFormed(w2) && Returnless(w2)
    requires d < |SortedPending(w1.m)| && d < |SortedPending(w2.m)|
    ensures Rebased(w1, w2, d).Success?
  {
    var n := |SortedPending(w1.m)| - d;
    RebasedIs(w1, w2, d);
    var closed := ClosedPositions(w1, n).value;
    ClosedPositionsWellFormed(w1, n, closed);
    SlicedWellMatched(w2.m, SortedPending(w2.m)[d], |w2.word|);
    TailReturnless(w2, d);
    ConcatenatedSucceeds(closed, Tail(w2, d));
  }

  /** `_combine_nws` on well-formed words, the second without returns (as
      every chain's word is): it fails only when the second word is empty
      and the first is not, which leaves no last symbol to append. */
  lemma CombinedSucceeds(w1: NW<Symbol>, w2: NW<Symbol>)
    requires WellFormed(w1) && WellFormed(w2) && Returnless(w2)
    ensures Combined(w1, w2).Success? <==> |w1.word| == 0 || |w2.word| > 0
  {
    if |w1.word| > 0 {
      var d := FirstMismatch(PendingSymbols(w1), PendingSymbols(w2));
      if d.Some? {
        assert SortedPending(w2.m)[d.value] < |w2.m.succ|;
        RebasedSucceeds(w1, w2, d.value);
        CombinedAfterMismatch(w1, w2);
      } else {
        CombinedThrough(w1, w2, d);
      }
    }
  }

  /** `_combine_queue` on non-empty well-formed words without returns, as
      the queued chains' words are, never fails. */
  lemma {:induction false} CombinedAllSucceeds(ws: seq<NW<Symbol>>)
    requires forall i :: 0 <= i < |ws| ==> Fits(ws[i]) && WellFormed(ws[i]) && Returnless(ws[i]) && |ws[i].word| > 0
    ensures CombinedAll(ws).Success?
    decreases |ws|
  {
    if ws != [] {
      var init := ws[..|ws| - 1];
      assert forall i :: 0 <= i < |init| ==> init[i] == ws[i];
      CombinedAllSucceeds(init);
      CombinedAllWellFormed(init);
      CombinedSucceeds(CombinedAll(init).value, ws[|ws| - 1]);
    }
  }

  /** One more step of the fold: the next word combined into the words so far. */
  lemma CombinedAllStep(ws: seq<NW<Symbol>>, n: nat, acc: NW<Symbol>)
    requires forall i :: 0 <= i < |ws| ==> Fits(ws[i])
    requires n < |ws| && CombinedAll(ws[..n]) == Success(acc)
    ensures CombinedAll(ws[..n + 1]) == Combined(acc, ws[n])
  {
    assert ws[..n + 1][..n] == ws[..n];
  }

  /** Once the words up to `n` fail to combine, the whole queue fails with
      the same error. */
  lemma {:induction false} CombinedAllFailure(ws: seq<NW<Symbol>>, n: nat)
    requires forall i :: 0 <= i < |ws| ==> Fits(ws[i])
    requires n <= |ws| && CombinedAll(ws[..n]).Failure?
    ensures CombinedAll(ws) == CombinedAll(ws[..n])
    decreases |ws|
  {
    if n == |ws| {
      assert ws[..n] == ws;
    } else {
      var init := ws[..|ws| - 1];
      assert init[..n] == ws[..n];
      CombinedAllFailure(init, n);
    }
  }

  lemma PrefixOfPrefix<X>(r: seq<X>, b: seq<X>, a: seq<X>)
    requires |r| >= |b| >= |a| && r[..|b|] == b && b[..|a|] == a
    ensures r[..|a|] == a
  {
    assert r[..|b|][..|a|] == r[..|a|];
  }

  /** One more word keeps the first word of a queue as a prefix of the
      combination. */
  lemma CombinedAllPrefixStep(ws: seq<NW<Symbol>>, acc: NW<Symbol>, r: NW<Symbol>)
    requires |ws| > 1 && forall i :: 0 <= i < |ws| ==> Fits(ws[i])
    requires CombinedAll(ws[..|ws| - 1]) == Success(acc) && CombinedAll(ws) == Success(r)
    requires |acc.word| >= |ws[0].word| && acc.word[..|ws[0].word|] == ws[0].word
    ensures |r.word| >= |ws[0].word| && r.word[..|ws[0].word|] == ws[0].word
  {
    CombinedKeeps(acc, ws[|ws| - 1]);
    PrefixOfPrefix(r.word, acc.word, ws[0].word);
  }

  /** A queue combines to a word that starts with the first word. */
  lemma {:induction false} CombinedAllPrefix(ws: seq<NW<Symbol>>)
    requires |ws| > 0 && forall i :: 0 <= i < |ws| ==> Fits(ws[i])
    requires CombinedAll(ws).Success?
    ensures |CombinedAll(ws).value.word| >= |ws[0].word|
    ensures CombinedAll(ws).value.word[..|ws[0].word|] == ws[0].word
    decreases |ws|
  {
    if |ws| == 1 {
      assert ws == [ws[0]];
      CombinedAllSingle(ws[0]);
    } else {
      var init := ws[..|ws| - 1];
      assert forall i :: 0 <= i < |init| ==> init[i] == ws[i];
      CombinedAllPrefix(init);
      CombinedAllPrefixStep(ws, CombinedAll(init).value, CombinedAll(ws).value);
    }
  }

  /** A queue whose last word is not empty combines to a word that ends
      with the last symbol of that word. */
  lemma CombinedAllLast(init: seq<NW<Symbol>>, last: NW<Symbol>, acc: NW<Symbol>)
    requires (forall i :: 0 <= i < |init| ==> Fits(init[i])) && Fits(last)
    requires CombinedAll(init) == Success(acc)
    requires CombinedAll(init + [last]).Success? && |last.word| > 0
    ensures |CombinedAll(init + [last]).value.word| > 0
    ensures CombinedAll(init + [last]).value.word[|CombinedAll(init + [last]).value.word| - 1] == last.word[|last.word| - 1]
  {
    assert (init + [last])[..|init|] == init;
    CombinedLast(acc, last);
  }

  // ---------------------------------------------------------------------
  // Chains, windows and the context queue

  /** `_chain_to_nw(chain)` once the pattern graph is `g`: the chain's
      vertices as a nested word. */
  ghost function ChainNW<N>(equiv: (N, N) -> bool, g: GraphValue<N>, chain: seq<N>): (r: Result<NW<Symbol>>)
    ensures r.Success? <==> |chain| > 0
    ensures r.Failure? ==> r.error.IndexError?
    ensures r.Success? ==> r.value.word == Traversal(equiv, g, chain) && Fits(r.value)
  {
    ChainWord(Traversal(equiv, g, chain))
  }

  /** The nested words of a list of chains: the first empty chain raises. */
  ghost function ChainNWs<N>(equiv: (N, N) -> bool, g: GraphValue<N>, chains: seq<seq<N>>): (r: Result<seq<NW<Symbol>>>)
    ensures r.Success? <==> forall i :: 0 <= i < |chains| ==> |chains[i]| > 0
    ensures r.Failure? ==> r.error == IndexError("list index out of range")
    ensures r.Success? ==> |r.value| == |chains|
    ensures r.Success? ==> forall i :: 0 <= i < |chains| ==> ChainNW(equiv, g, chains[i]) == Success(r.value[i]) && Fits(r.value[i])
  {
    if exists i :: 0 <= i < |chains| && |chains[i]| == 0 then Failure(IndexError("list index out of range"))
    else Success(seq(|chains|, i requires 0 <= i < |chains| => ChainNW(equiv, g, chains[i]).value))
  }

  /** The nested word `contains` builds from a window of chains: their
      nested words combined from left to right. */
  ghost function WindowWord<N>(equiv: (N, N) -> bool, g: GraphValue<N>, chains: seq<seq<N>>): (r: Result<NW<Symbol>>)
    ensures r.Success? ==> Fits(r.value)
  {
    var ws :- ChainNWs(equiv, g, chains);
    CombinedAll(ws)
  }

  /** The nested word of a window combines exactly when none of its chains
      is empty: a chain's word is well formed and has no returns. */
  lemma WindowWordSucceeds<N>(equiv: (N, N) -> bool, g: GraphValue<N>, chains: seq<seq<N>>)
    ensures WindowWord(equiv, g, chains).Success? <==> forall i :: 0 <= i < |chains| ==> |chains[i]| > 0
  {
    var ws := ChainNWs(equiv, g, chains);
    if ws.Success? {
      forall i | 0 <= i < |ws.value|
        ensures Fits(ws.value[i]) && WellFormed(ws.value[i]) && Returnless(ws.value[i]) && |ws.value[i].word| > 0
      {
        var vertices := Traversal(equiv, g, chains[i]);
        assert ChainWord(vertices) == Success(ws.value[i]);
        ChainWordShaped(vertices);
      }
      CombinedAllSucceeds(ws.value);
    }
  }

  /** A chain the graph recognises keeps its nested word while the graph grows. */
  lemma ChainNWStable<N(!new)>(equiv: (N, N) -> bool, g: GraphValue<N>, g': GraphValue<N>, chain: seq<N>)
    requires IsEquivalence(equiv) && Shaped(equiv, g') && Grows(g, g') && Recognises(equiv, g, chain)
    ensures ChainNW(equiv, g', chain) == ChainNW(equiv, g, chain)
  {
    forall d | 0 <= d < |chain|
      ensures Traversal(equiv, g', chain)[d] == Traversal(equiv, g, chain)[d]
    {
      GrowsKeepsMatch(equiv, g, g', d, chain[d]);
    }
    assert Traversal(equiv, g', chain) == Traversal(equiv, g, chain);
  }

  /** A window of recognised chains keeps its nested word while the graph grows. */
  lemma WindowWordStable<N(!new)>(equiv: (N, N) -> bool, g: GraphValue<N>, g': GraphValue<N>, chains: seq<seq<N>>)
    requires IsEquivalence(equiv) && Shaped(equiv, g') && Grows(g, g')
    requires forall i :: 0 <= i < |chains| ==> Recognises(equiv, g, chains[i])
    ensures WindowWord(equiv, g', chains) == WindowWord(equiv, g, chains)
  {
    forall i | 0 <= i < |chains|
      ensures ChainNW(equiv, g', chains[i]) == ChainNW(equiv, g, chains[i])
    {
      ChainNWStable(equiv, g, g', chains[i]);
    }
    var a, b := ChainNWs(equiv, g', chains), ChainNWs(equiv, g, chains);
    if a.Success? {
      assert a.value == b.value;
    }
  }

  /** The context queue after one more entry: the oldest entry is dropped
      first when the queue is full. */
  function Pushed<X>(q: seq<X>, x: X, size: nat): (r: seq<X>)
    requires 0 < size && |q| <= size
    ensures |r| == if |q| < size then |q| + 1 else size
    ensures r == (q + [x])[|q| + 1 - |r|..]
  {
    if |q| >= size then q[1..] + [x] else q + [x]
  }

  /** How many of `n` further updates find the queue full when it starts
      with `q0` entries. */
  function Outputs(q0: nat, n: nat, size: nat): nat
  {
    if n == 0 then 0 else Outputs(q0, n - 1, size) + (if q0 + n >= size then 1 else 0)
  }

  /** The first `size - q0 - 1` updates fill the queue and output nothing;
      every later one outputs a word. */
  lemma {:induction false} OutputsCount(q0: nat, n: nat, size: nat)
    ensures Outputs(q0, n, size) == if q0 + n >= size then q0 + n + 1 - (if q0 >= size then q0 + 1 else size) else 0
  {
    if n > 0 {
      OutputsCount(q0, n - 1, size);
    }
  }

  /** The bookkeeping of one successful `update` in `learn`: one more
      non-empty chain, and the words it returned appended to the result
      and added to the learned set `ws`, giving `ws'`. */
  lemma LearnedOne<C, V>(chains: seq<seq<C>>, i: nat, result: seq<V>, words: seq<V>, q0: nat, size: nat,
                         n0: set<V>, ws: set<V>, ws': set<V>)
    requires i < |chains| && |chains[i]| > 0 && forall j :: 0 <= j < i ==> |chains[j]| > 0
    requires |result| == Outputs(q0, i, size) && |words| == if q0 + i + 1 >= size then 1 else 0
    requires ws == n0 + set x | x in result
    requires |words| == 1 ==> ws' == ws + {words[0]}
    requires |words| == 0 ==> ws' == ws
    ensures forall j :: 0 <= j < i + 1 ==> |chains[j]| > 0
    ensures |result + words| == Outputs(q0, i + 1, size)
    ensures ws' == n0 + set x | x in result + words
  {
    if |words| == 1 {
      assert (set x | x in result + words) == (set x | x in result) + {words[0]};
    } else {
      assert result + words == result;
    }
  }

  /** What `learn` has done after the first `i` chains, starting from a
      queue of `q0` entries and the learned set `n0`: the chains were all
      non-empty and `g` recognises them, the queue holds `queueLen` entries,
      and `learned` is `n0` with the words returned so far. */
  ghost predicate LearntSoFar<N>(equiv: (N, N) -> bool, g: GraphValue<N>, chains: seq<seq<N>>, i: nat, q0: nat,
                                 size: nat, n0: set<NW<Symbol>>, result: seq<NW<Symbol>>, queueLen: nat,
                                 learned: set<NW<Symbol>>)
  {
    i <= |chains| &&
    queueLen == (if q0 + i < size then q0 + i else size) &&
    (forall j :: 0 <= j < i ==> |chains[j]| > 0) &&
    (forall j :: 0 <= j < i ==> Recognises(equiv, g, chains[j])) &&
    |result| == Outputs(q0, i, size) &&
    learned == n0 + set x | x in result
  }

  /** `learn` before its first chain: nothing output, the queue as it was. */
  lemma LearntStart<N>(equiv: (N, N) -> bool, g: GraphValue<N>, word: seq<seq<N>> -> Result<NW<Symbol>>, size: nat,
                       q0: seq<seq<N>>, chains: seq<seq<N>>, n0: set<NW<Symbol>>)
    requires 0 < size && |q0| <= size
    ensures LearntSoFar(equiv, g, chains, 0, |q0|, size, n0, [], |q0|, n0)
    ensures FoldSoFar(word, size, q0, chains, 0, [], q0)
  {
    assert chains[..0] == [] && q0 + [] == q0;
  }

  /** `learn` after its last chain: the fold over all the chains. */
  lemma LearntEnd<N>(word: seq<seq<N>> -> Result<NW<Symbol>>, size: nat, q0: seq<seq<N>>, chains: seq<seq<N>>,
                     result: seq<NW<Symbol>>, queued: seq<seq<N>>)
    requires FoldSoFar(word, size, q0, chains, |chains|, result, queued)
    ensures Learnt(word, size, q0, chains) == Success(result) && queued == QueueAfter(q0, chains, size)
  {
    assert chains[..|chains|] == chains;
  }

  /** The chains `learn` has updated so far are recognised. */
  lemma SoFarRecognised<N>(equiv: (N, N) -> bool, g: GraphValue<N>, chains: seq<seq<N>>, i: nat, q0: nat, size: nat,
                           n0: set<NW<Symbol>>, result: seq<NW<Symbol>>, queueLen: nat, learned: set<NW<Symbol>>)
    requires LearntSoFar(equiv, g, chains, i, q0, size, n0, result, queueLen, learned)
    ensures AllRecognised(equiv, g, chains[..i])
  {
    forall j | 0 <= j < i
      ensures Recognises(equiv, g, chains[..i][j])
    {
      assert chains[..i][j] == chains[j];
    }
  }

  /** What `learn` has done once every chain was updated. */
  lemma LearntAll<N>(equiv: (N, N) -> bool, g: GraphValue<N>, chains: seq<seq<N>>, q0: nat, size: nat,
                     n0: set<NW<Symbol>>, result: seq<NW<Symbol>>, queueLen: nat, learned: set<NW<Symbol>>)
    requires LearntSoFar(equiv, g, chains, |chains|, q0, size, n0, result, queueLen, learned)
    ensures forall i :: 0 <= i < |chains| ==> |chains[i]| > 0
    ensures forall i :: 0 <= i < |chains| ==> Recognises(equiv, g, chains[i])
    ensures |result| == Outputs(q0, |chains|, size)
    ensures learned == n0 + set x | x in result
  {
  }

  /** One successful `update(chains[i])` in `learn`, which took the graph
      from `g` to `g'`, the queue length from `n` to `n'`, the learned set
      from `ws` to `ws'` and returned `out`. */
  lemma LearntNext<N(!new)>(equiv: (N, N) -> bool, g0: GraphValue<N>, g: GraphValue<N>, g': GraphValue<N>,
                            chains: seq<seq<N>>, i: nat, q0: nat, size: nat, n0: set<NW<Symbol>>,
                            result: seq<NW<Symbol>>, out: seq<NW<Symbol>>, n: nat, n': nat,
                            ws: set<NW<Symbol>>, ws': set<NW<Symbol>>)
    requires IsEquivalence(equiv) && Shaped(equiv, g') && i < |chains|
    requires LearntSoFar(equiv, g, chains, i, q0, size, n0, result, n, ws)
    requires Grows(g0, g) && Grows(g, g') && |chains[i]| > 0 && Recognises(equiv, g', chains[i])
    requires n' == (if n < size then n + 1 else size)
    requires |out| == (if n' == size then 1 else 0)
    requires |out| == 1 ==> ws' == ws + {out[0]}
    requires |out| == 0 ==> ws' == ws
    ensures Grows(g0, g') && LearntSoFar(equiv, g', chains, i + 1, q0, size, n0, result + out, n', ws')
  {
    LearnedOne(chains, i, result, out, q0, size, n0, ws, ws');
    LearnStep(equiv, g0, g, g', chains, i);
  }

  /** The context queue after pushing each of `xs` in turn onto `q`: the
      last `size` entries of `q + xs`, or all of them while fewer. */
  function QueueAfter<X>(q: seq<X>, xs: seq<X>, size: nat): (r: seq<X>)
    requires 0 < size && |q| <= size
    ensures |r| == if |q| + |xs| < size then |q| + |xs| else size
  {
    var all := q + xs;
    if |all| <= size then all else all[|all| - size..]
  }

  /** Pushing on a queue that holds a suffix of `s` holds a suffix of `s + [x]`. */
  lemma PushedLast<X>(s: seq<X>, r0: seq<X>, x: X, size: nat, k: nat)
    requires 0 < size && |r0| <= size && k <= |s| && r0 == s[k..]
    ensures var r := Pushed(r0, x, size); r == (s + [x])[|s| + 1 - |r|..]
  {
    var r := Pushed(r0, x, size);
    var m := |r0| + 1 - |r|;
    assert r0 + [x] == (s + [x])[k..];
    assert (s + [x])[k..][m..] == (s + [x])[k + m..];
  }

  /** One `update(chain)` of `learn` after the words `out`, leaving the
      queue `window`, where `word` gives a window's nested word: an empty
      chain raises; once the queue is full, the window's nested word is
      output (or its error raised). */
  function LearnOne<N>(word: seq<seq<N>> -> Result<NW<Symbol>>, size: nat, window: seq<seq<N>>, chain: seq<N>,
                       out: seq<NW<Symbol>>): (r: Result<seq<NW<Symbol>>>)
    ensures r.Success? ==> |chain| > 0 && |r.value| == |out| + (if |window| < size then 0 else 1)
  {
    if |chain| == 0 then Failure(ValueError("Chain cannot be empty."))
    else if |window| < size then Success(out)
    else
      var w :- word(window);
      Success(out + [w])
  }

  /** What `learn(chains)` returns, starting from the queue `q`, where
      `word` gives a window's nested word: one `update` per chain, in order,
      each pushing its chain on the queue. */
  function Learnt<N>(word: seq<seq<N>> -> Result<NW<Symbol>>, size: nat, q: seq<seq<N>>, chains: seq<seq<N>>):
    (r: Result<seq<NW<Symbol>>>)
    requires 0 < size && |q| <= size
    decreases |chains|
  {
    if chains == [] then Success([])
    else
      var out :- Learnt(word, size, q, chains[..|chains| - 1]);
      LearnOne(word, size, QueueAfter(q, chains, size), chains[|chains| - 1], out)
  }

  /** Pushing the chains one at a time, as `update` does, yields the queue
      `QueueAfter` describes. */
  lemma QueueAfterSnoc<X>(q: seq<X>, xs: seq<X>, size: nat, i: nat)
    requires 0 < size && |q| <= size && i < |xs|
    ensures QueueAfter(q, xs[..i + 1], size) == Pushed(QueueAfter(q, xs[..i], size), xs[i], size)
  {
    var s := q + xs[..i];
    assert q + xs[..i + 1] == s + [xs[i]];
    var r0 := QueueAfter(q, xs[..i], size);
    assert r0 == s[|s| - |r0|..];
    PushedLast(s, r0, xs[i], size, |s| - |r0|);
  }

  lemma LearntSnoc<N>(word: seq<seq<N>> -> Result<NW<Symbol>>, size: nat, q: seq<seq<N>>, chains: seq<seq<N>>, i: nat)
    requires 0 < size && |q| <= size && i < |chains| && Learnt(word, size, q, chains[..i]).Success?
    ensures Learnt(word, size, q, chains[..i + 1]) ==
      LearnOne(word, size, QueueAfter(q, chains[..i + 1], size), chains[i], Learnt(word, size, q, chains[..i]).value)
  {
    var cs := chains[..i + 1];
    assert cs[..|cs| - 1] == chains[..i] && cs[|cs| - 1] == chains[i];
  }

  /** Every queued chain comes from the starting queue or from the pushed chains. */
  lemma QueueAfterFrom<X>(q: seq<X>, xs: seq<X>, size: nat)
    requires 0 < size && |q| <= size
    ensures forall x :: x in QueueAfter(q, xs, size) ==> x in q || x in xs
  {
    var r := QueueAfter(q, xs, size);
    var k := |q| + |xs| - |r|;
    assert r == (q + xs)[k..];
    forall x | x in r
      ensures x in q || x in xs
    {
      var j :| 0 <= j < |r| && r[j] == x;
      assert x == (q + xs)[k + j];
    }
  }

  /** `learn` outputs one word for each update that finds the queue full,
      and only chains that are all non-empty succeed. */
  lemma {:induction false} LearntCount<N>(word: seq<seq<N>> -> Result<NW<Symbol>>, size: nat, q: seq<seq<N>>, chains: seq<seq<N>>)
    requires 0 < size && |q| <= size && Learnt(word, size, q, chains).Success?
    ensures |Learnt(word, size, q, chains).value| == Outputs(|q|, |chains|, size)
    ensures forall i :: 0 <= i < |chains| ==> |chains[i]| > 0
    decreases |chains|
  {
    if chains != [] {
      var init := chains[..|chains| - 1];
      var out := Learnt(word, size, q, init);
      assert out.Success?;
      var window := QueueAfter(q, chains, size);
      var r := LearnOne(word, size, window, chains[|chains| - 1], out.value);
      assert Learnt(word, size, q, chains) == r;
      assert |window| < size <==> |q| + |chains| < size;
      assert Outputs(|q|, |chains|, size) == Outputs(|q|, |init|, size) + (if |q| + |chains| >= size then 1 else 0);
      assert |out.value| == Outputs(|q|, |init|, size) && forall i :: 0 <= i < |init| ==> |init[i]| > 0 by {
        LearntCount(word, size, q, init);
      }
      assert |chains[|chains| - 1]| > 0;
      forall i | 0 <= i < |chains|
        ensures |chains[i]| > 0
      {
        if i < |init| {
          assert chains[i] == init[i];
        }
      }
    }
  }

  /** `learn` over the windows' words, from a queue of non-empty chains,
      fails exactly when one of the chains is empty: every window it reaches
      holds non-empty chains only, so its word combines. */
  lemma {:induction false} LearntSucceeds<N>(equiv: (N, N) -> bool, g: GraphValue<N>, size: nat, q: seq<seq<N>>,
                                             chains: seq<seq<N>>)
    requires 0 < size && |q| <= size && forall i :: 0 <= i < |q| ==> |q[i]| > 0
    ensures Learnt(WindowWords(equiv, g), size, q, chains).Success? <==> forall i :: 0 <= i < |chains| ==> |chains[i]| > 0
    decreases |chains|
  {
    var word := WindowWords(equiv, g);
    if Learnt(word, size, q, chains).Success? {
      LearntCount(word, size, q, chains);
    }
    if chains != [] && forall i :: 0 <= i < |chains| ==> |chains[i]| > 0 {
      var init := chains[..|chains| - 1];
      assert forall i :: 0 <= i < |init| ==> init[i] == chains[i];
      LearntSucceeds(equiv, g, size, q, init);
      var window := QueueAfter(q, chains, size);
      QueueAfterFrom(q, chains, size);
      forall i | 0 <= i < |window|
        ensures |window[i]| > 0
      {
        assert window[i] in q || window[i] in chains;
      }
      WindowWordSucceeds(equiv, g, window);
      assert word(window).Success?;
    }
  }

  /** Once a prefix of the chains raises, `learn` raises the same error. */
  lemma {:induction false} LearntStops<N>(word: seq<seq<N>> -> Result<NW<Symbol>>, size: nat, q: seq<seq<N>>,
                                         chains: seq<seq<N>>, k: nat)
    requires 0 < size && |q| <= size && k <= |chains| && Learnt(word, size, q, chains[..k]).Failure?
    ensures Learnt(word, size, q, chains) == Learnt(word, size, q, chains[..k])
    decreases |chains| - k
  {
    if k < |chains| {
      var init := chains[..|chains| - 1];
      assert init[..k] == chains[..k];
      LearntStops(word, size, q, init, k);
    } else {
      assert chains[..k] == chains;
    }
  }

  /** The words `learn` outputs stay the same while the graph grows, as long
      as the starting queue and the chains are recognised. */
  lemma {:induction false} LearntStable<N(!new)>(equiv: (N, N) -> bool, g: GraphValue<N>, g': GraphValue<N>, size: nat,
                                                 q: seq<seq<N>>, chains: seq<seq<N>>)
    requires IsEquivalence(equiv) && Shaped(equiv, g') && Grows(g, g') && 0 < size && |q| <= size
    requires AllRecognised(equiv, g, q) && AllRecognised(equiv, g, chains)
    ensures Learnt(WindowWords(equiv, g'), size, q, chains) == Learnt(WindowWords(equiv, g), size, q, chains)
    decreases |chains|
  {
    if chains != [] {
      var init := chains[..|chains| - 1];
      assert AllRecognised(equiv, g, init) by {
        forall i | 0 <= i < |init|
          ensures Recognises(equiv, g, init[i])
        {
          assert init[i] == chains[i];
        }
      }
      LearntStable(equiv, g, g', size, q, init);
      var window := QueueAfter(q, chains, size);
      QueueAfterFrom(q, chains, size);
      forall i | 0 <= i < |window|
        ensures Recognises(equiv, g, window[i])
      {
        assert window[i] in q || window[i] in chains;
      }
      WindowWordStable(equiv, g, g', window);
      assert WindowWords(equiv, g')(window) == WindowWords(equiv, g)(window);
    }
  }

  /** One `update(chains[i])` in `learn` that left the queue `queue'` and
      output `out`, which is the word of the full queue: the fold goes one
      chain further. */
  lemma LearntExtends<N>(word: seq<seq<N>> -> Result<NW<Symbol>>, size: nat, q: seq<seq<N>>, chains: seq<seq<N>>,
                         i: nat, result: seq<NW<Symbol>>, queue': seq<seq<N>>, out: seq<NW<Symbol>>)
    requires 0 < size && |q| <= size && i < |chains| && Learnt(word, size, q, chains[..i]) == Success(result)
    requires |chains[i]| > 0 && queue' == Pushed(QueueAfter(q, chains[..i], size), chains[i], size)
    requires |queue'| < size ==> out == []
    requires |queue'| == size ==> word(queue').Success? && out == [word(queue').value]
    ensures queue' == QueueAfter(q, chains[..i + 1], size)
    ensures Learnt(word, size, q, chains[..i + 1]) == Success(result + out)
  {
    QueueAfterSnoc(q, chains, size, i);
    LearntSnoc(word, size, q, chains, i);
    if |queue'| < size {
      assert result + out == result;
    }
  }

  /** An `update(chains[i])` in `learn` that raises `e` (an empty chain, or
      the error of the full queue's word): `learn` raises `e`. */
  lemma LearntFails<N>(word: seq<seq<N>> -> Result<NW<Symbol>>, size: nat, q: seq<seq<N>>, chains: seq<seq<N>>,
                       i: nat, result: seq<NW<Symbol>>, queue': seq<seq<N>>, e: Error)
    requires 0 < size && |q| <= size && i < |chains| && Learnt(word, size, q, chains[..i]) == Success(result)
    requires |chains[i]| == 0 ==> e == ValueError("Chain cannot be empty.")
    requires |chains[i]| > 0 ==>
      queue' == Pushed(QueueAfter(q, chains[..i], size), chains[i], size) &&
      |queue'| == size && word(queue') == Failure(e)
    ensures Learnt(word, size, q, chains) == Failure(e)
  {
    QueueAfterSnoc(q, chains, size, i);
    LearntSnoc(word, size, q, chains, i);
    LearntStops(word, size, q, chains, i + 1);
  }

  /** One `update(chains[i])` in `learn`, described by what `update`
      promises: `ww` and `ww'` give the windows' words before and after it,
      which agree on the fold so far, and the graph grew from `g` to `g'`.
      The fold goes one chain further, or `learn` raises what `update`
      raised. */
  lemma LearnedStep<N(!new)>(equiv: (N, N) -> bool, g0: GraphValue<N>, g: GraphValue<N>, g': GraphValue<N>,
                             chains: seq<seq<N>>, i: nat, q0: seq<seq<N>>, size: nat, n0: set<NW<Symbol>>,
                             result: seq<NW<Symbol>>, r: Result<seq<NW<Symbol>>>, queued: seq<seq<N>>,
                             queued': seq<seq<N>>, ws: set<NW<Symbol>>, ws': set<NW<Symbol>>,
                             ww: seq<seq<N>> -> Result<NW<Symbol>>, ww': seq<seq<N>> -> Result<NW<Symbol>>)
    requires IsEquivalence(equiv) && Shaped(equiv, g') && i < |chains| && Grows(g0, g)
    requires LearntSoFar(equiv, g, chains, i, |q0|, size, n0, result, |queued|, ws)
    requires FoldSoFar(ww, size, q0, chains, i, result, queued) && AllRecognised(equiv, g, q0)
    requires Learnt(ww', size, q0, chains[..i]) == Learnt(ww, size, q0, chains[..i])
    requires |chains[i]| == 0 ==> r == Failure(ValueError("Chain cannot be empty.")) && g' == g
    requires |chains[i]| > 0 ==>
      Grows(g, g') && Recognises(equiv, g', chains[i]) && queued' == Pushed(queued, chains[i], size)
    requires |chains[i]| > 0 && |queued'| < size ==> r == Success([]) && ws' == ws
    requires |chains[i]| > 0 && |queued'| == size && ww'(queued').Success? ==>
      r == Success([ww'(queued').value]) && ws' == ws + {ww'(queued').value}
    requires |chains[i]| > 0 && |queued'| == size && ww'(queued').Failure? ==> r == Failure(ww'(queued').error)
    ensures Grows(g0, g')
    ensures r.Success? ==>
      LearntSoFar(equiv, g', chains, i + 1, |q0|, size, n0, result + r.value, |queued'|, ws') &&
      FoldSoFar(ww', size, q0, chains, i + 1, result + r.value, queued') && AllRecognised(equiv, g', q0)
    ensures r.Failure? ==> r == Learnt(ww', size, q0, chains)
  {
    if |chains[i]| == 0 {
      LearntFails(ww', size, q0, chains, i, result, queued', r.error);
      return;
    }
    GrowsTransitive(g0, g, g');
    if r.Failure? {
      LearntFails(ww', size, q0, chains, i, result, queued', r.error);
    } else {
      LearntExtends(ww', size, q0, chains, i, result, queued', r.value);
      ChainsGrow(equiv, g, g', q0);
      LearntNext(equiv, g0, g, g', chains, i, |q0|, size, n0, result, r.value, |queued|, |queued'|, ws, ws');
    }
  }

  /** The fold behind `learn` after its first `i` chains, where `word` gives
      the windows' words: the words output so far are `result` and the queue
      holds `queued`. */
  ghost predicate FoldSoFar<N>(word: seq<seq<N>> -> Result<NW<Symbol>>, size: nat, q0: seq<seq<N>>,
                               chains: seq<seq<N>>, i: nat, result: seq<NW<Symbol>>, queued: seq<seq<N>>)
  {
    0 < size && |q0| <= size && i <= |chains| &&
    Learnt(word, size, q0, chains[..i]) == Success(result) && queued == QueueAfter(q0, chains[..i], size)
  }

  /** `vs` holds the values `word` gives for `cs`, in order. */
  ghost predicate Held<C, V>(word: C -> Result<V>, vs: seq<V>, cs: seq<C>)
  {
    |vs| == |cs| && forall i :: 0 <= i < |cs| ==> word(cs[i]) == Success(vs[i])
  }

  /** The nested words of chains once the graph is `g`. */
  ghost function ChainWords<N>(equiv: (N, N) -> bool, g: GraphValue<N>): seq<N> -> Result<NW<Symbol>>
  {
    c => ChainNW(equiv, g, c)
  }

  /** The nested word of one chain, through `ChainWords`. */
  lemma ChainWordOf<N>(word: seq<N> -> Result<NW<Symbol>>, equiv: (N, N) -> bool, g: GraphValue<N>, chain: seq<N>, v: NW<Symbol>)
    requires word == ChainWords(equiv, g) && ChainNW(equiv, g, chain) == Success(v)
    ensures word(chain) == Success(v)
  {
  }

  /** Chains whose nested words exist are not empty. */
  lemma HeldNonEmpty<N>(equiv: (N, N) -> bool, g: GraphValue<N>, vs: seq<NW<Symbol>>, cs: seq<seq<N>>)
    requires Held(ChainWords(equiv, g), vs, cs)
    ensures forall i :: 0 <= i < |cs| ==> |cs[i]| > 0
  {
    forall i | 0 <= i < |cs|
      ensures |cs[i]| > 0
    {
      assert ChainNW(equiv, g, cs[i]) == Success(vs[i]);
    }
  }

  /** Every chain of the list is recognised by the graph. */
  ghost predicate AllRecognised<N>(equiv: (N, N) -> bool, g: GraphValue<N>, cs: seq<seq<N>>)
  {
    forall i :: 0 <= i < |cs| ==> Recognises(equiv, g, cs[i])
  }

  /** Every learned window has its nested word in the learned set, and every
      learned word is the nested word of the window `origin` names. */
  ghost predicate Learned<W, V>(word: W -> Result<V>, windows: set<W>, origin: map<V, W>, words: set<V>)
  {
    (forall win :: win in windows ==> word(win).Success? && word(win).value in words) &&
    words == origin.Keys &&
    (forall w :: w in origin ==> origin[w] in windows && word(origin[w]) == Success(w))
  }

  /** Every learned window has `size` chains, each recognised by the graph. */
  ghost predicate WindowsRecognised<N>(equiv: (N, N) -> bool, g: GraphValue<N>, size: nat, windows: set<seq<seq<N>>>)
  {
    forall win :: win in windows ==> |win| == size && AllRecognised(equiv, g, win)
  }

  /** The nested words of windows once the graph is `g`. */
  ghost function WindowWords<N>(equiv: (N, N) -> bool, g: GraphValue<N>): seq<seq<N>> -> Result<NW<Symbol>>
  {
    win => WindowWord(equiv, g, win)
  }

  /** While the graph grows, recognised chains stay recognised and keep
      their nested words. */
  lemma ChainsGrow<N(!new)>(equiv: (N, N) -> bool, g: GraphValue<N>, g': GraphValue<N>, cs: seq<seq<N>>)
    requires IsEquivalence(equiv) && Shaped(equiv, g') && Grows(g, g') && AllRecognised(equiv, g, cs)
    ensures AllRecognised(equiv, g', cs)
    ensures forall i :: 0 <= i < |cs| ==> ChainWords(equiv, g')(cs[i]) == ChainWords(equiv, g)(cs[i])
  {
    forall i | 0 <= i < |cs|
      ensures Recognises(equiv, g', cs[i]) && ChainNW(equiv, g', cs[i]) == ChainNW(equiv, g, cs[i])
    {
      GrowsKeepsRecognised(equiv, g, g', cs[i]);
      ChainNWStable(equiv, g, g', cs[i]);
    }
  }

  /** The values stay held when `word` gives the same value for every entry. */
  lemma HeldSame<C, V>(word: C -> Result<V>, word': C -> Result<V>, vs: seq<V>, cs: seq<C>)
    requires Held(word, vs, cs) && forall i :: 0 <= i < |cs| ==> word'(cs[i]) == word(cs[i])
    ensures Held(word', vs, cs)
  {
  }

  /** While the graph grows, learned windows stay recognised and keep their
      nested words. */
  lemma WindowsGrow<N(!new)>(equiv: (N, N) -> bool, g: GraphValue<N>, g': GraphValue<N>, size: nat,
                             windows: set<seq<seq<N>>>)
    requires IsEquivalence(equiv) && Shaped(equiv, g') && Grows(g, g') && WindowsRecognised(equiv, g, size, windows)
    ensures WindowsRecognised(equiv, g', size, windows)
    ensures forall win :: win in windows ==> WindowWords(equiv, g')(win) == WindowWords(equiv, g)(win)
  {
    forall win | win in windows
      ensures AllRecognised(equiv, g', win) && WindowWord(equiv, g', win) == WindowWord(equiv, g, win)
    {
      ChainsGrow(equiv, g, g', win);
      WindowWordStable(equiv, g, g', win);
    }
  }

  /** The learned set stays held when the word of every learned window stays the same. */
  lemma LearnedSame<W, V>(word: W -> Result<V>, word': W -> Result<V>, windows: set<W>, origin: map<V, W>, words: set<V>)
    requires Learned(word, windows, origin, words)
    requires forall win :: win in windows ==> word'(win) == word(win)
    ensures Learned(word', windows, origin, words)
  {
  }

  /** Pushing a value for one more entry keeps the queue held. */
  lemma HeldPushed<C, V>(word: C -> Result<V>, vs: seq<V>, cs: seq<C>, v: V, c: C, size: nat)
    requires Held(word, vs, cs) && 0 < size && |cs| <= size && word(c) == Success(v)
    ensures Held(word, Pushed(vs, v, size), Pushed(cs, c, size))
  {
    var vs', cs' := Pushed(vs, v, size), Pushed(cs, c, size);
    var k := |cs| + 1 - |cs'|;
    forall i | 0 <= i < |cs'|
      ensures word(cs'[i]) == Success(vs'[i])
    {
      assert cs'[i] == (cs + [c])[k + i];
      assert vs'[i] == (vs + [v])[k + i];
    }
  }

  /** Appending a value for one more entry keeps the list held. */
  lemma HeldAppended<C, V>(word: C -> Result<V>, vs: seq<V>, cs: seq<C>, v: V, c: C)
    requires Held(word, vs, cs) && word(c) == Success(v)
    ensures Held(word, vs + [v], cs + [c])
  {
    forall i | 0 <= i < |cs| + 1
      ensures word((cs + [c])[i]) == Success((vs + [v])[i])
    {
      if i < |cs| {
        assert (cs + [c])[i] == cs[i] && (vs + [v])[i] == vs[i];
      }
    }
  }

  /** Pushing a recognised chain keeps the queued chains recognised. */
  lemma RecognisedPushed<N>(equiv: (N, N) -> bool, g: GraphValue<N>, cs: seq<seq<N>>, c: seq<N>, size: nat)
    requires AllRecognised(equiv, g, cs) && 0 < size && |cs| <= size && Recognises(equiv, g, c)
    ensures AllRecognised(equiv, g, Pushed(cs, c, size))
  {
    var cs' := Pushed(cs, c, size);
    var k := |cs| + 1 - |cs'|;
    forall i | 0 <= i < |cs'|
      ensures Recognises(equiv, g, cs'[i])
    {
      assert cs'[i] == (cs + [c])[k + i];
    }
  }

  /** The queue combines to the window of the queued chains. */
  lemma QueueWindow<N>(equiv: (N, N) -> bool, g: GraphValue<N>, qv: seq<NW<Symbol>>, queued: seq<seq<N>>)
    requires Held(ChainWords(equiv, g), qv, queued)
    ensures forall i :: 0 <= i < |qv| ==> Fits(qv[i])
    ensures WindowWord(equiv, g, queued) == CombinedAll(qv)
  {
    forall i | 0 <= i < |queued|
      ensures ChainNW(equiv, g, queued[i]) == Success(qv[i])
    {
      assert ChainWords(equiv, g)(queued[i]) == Success(qv[i]);
    }
    var ws := ChainNWs(equiv, g, queued);
    assert ws.value == qv;
  }

  /** Learning one more window keeps the learned set held. */
  lemma LearnedAdd<W, V>(word: W -> Result<V>, windows: set<W>, origin: map<V, W>, words: set<V>, win: W, w: V)
    requires Learned(word, windows, origin, words) && word(win) == Success(w)
    ensures Learned(word, windows + {win}, origin[w := win], words + {w})
  {
  }

  /** Each nested word object of the list is valid and has the value at
      the same index. */
  ghost predicate Represents(nws: seq<NestedWord<Symbol>>, vs: seq<NW<Symbol>>)
    reads nws, set nw | nw in nws :: nw.matching
  {
    |nws| == |vs| && forall i :: 0 <= i < |nws| ==> nws[i].Valid() && nws[i].Value() == vs[i]
  }

  /** Pushing an object keeps the queue represented by the pushed values. */
  lemma RepresentsPushed(nws: seq<NestedWord<Symbol>>, vs: seq<NW<Symbol>>, nw: NestedWord<Symbol>, size: nat)
    requires Represents(nws, vs) && nw.Valid() && 0 < size && |nws| <= size
    ensures Represents(Pushed(nws, nw, size), Pushed(vs, nw.Value(), size))
  {
    if |nws| >= size {
      RepresentsDropped(nws, vs);
      RepresentsAppended(nws[1..], vs[1..], nw);
    } else {
      RepresentsAppended(nws, vs, nw);
    }
  }

  /** Dropping the oldest object keeps the rest represented. */
  lemma RepresentsDropped(nws: seq<NestedWord<Symbol>>, vs: seq<NW<Symbol>>)
    requires Represents(nws, vs) && |nws| > 0
    ensures Represents(nws[1..], vs[1..])
  {
    forall i | 0 <= i < |nws| - 1
      ensures nws[1..][i].Valid() && nws[1..][i].Value() == vs[1..][i]
    {
      assert nws[1..][i] == nws[i + 1] && vs[1..][i] == vs[i + 1];
    }
  }

  /** The queue of `NestedWordSet`: at most `size` nested words, holding the
      nested words of the queued chains, which the graph `g` recognises. */
  ghost predicate QueueState<N>(size: nat, queue: seq<NestedWord<Symbol>>, values: seq<NW<Symbol>>, queued: seq<seq<N>>,
                                word: seq<N> -> Result<NW<Symbol>>, equiv: (N, N) -> bool, g: GraphValue<N>)
    reads queue, set nw | nw in queue :: nw.matching
  {
    0 < size && |queue| <= size && Represents(queue, values) &&
    Held(word, values, queued) && AllRecognised(equiv, g, queued)
  }

  /** Pushing a recognised chain and its nested word keeps the queue state. */
  lemma QueueStatePushed<N>(size: nat, queue: seq<NestedWord<Symbol>>, values: seq<NW<Symbol>>, queued: seq<seq<N>>,
                            word: seq<N> -> Result<NW<Symbol>>, equiv: (N, N) -> bool, g: GraphValue<N>,
                            nw: NestedWord<Symbol>, chain: seq<N>)
    requires QueueState(size, queue, values, queued, word, equiv, g)
    requires nw.Valid() && Recognises(equiv, g, chain) && word(chain) == Success(nw.Value())
    ensures QueueState(size, Pushed(queue, nw, size), Pushed(values, nw.Value(), size), Pushed(queued, chain, size), word, equiv, g)
    ensures |Pushed(queue, nw, size)| == |Pushed(queued, chain, size)|
  {
    HeldPushed(word, values, queued, nw.Value(), chain, size);
    RecognisedPushed(equiv, g, queued, chain, size);
    RepresentsPushed(queue, values, nw, size);
  }

  /** Appending an object keeps the list represented by the appended values. */
  lemma RepresentsAppended(nws: seq<NestedWord<Symbol>>, vs: seq<NW<Symbol>>, nw: NestedWord<Symbol>)
    requires Represents(nws, vs) && nw.Valid()
    ensures Represents(nws + [nw], vs + [nw.Value()])
  {
    forall i | 0 <= i < |nws| + 1
      ensures (nws + [nw])[i].Valid() && (nws + [nw])[i].Value() == (vs + [nw.Value()])[i]
    {
      if i < |nws| {
        assert (nws + [nw])[i] == nws[i] && (vs + [nw.Value()])[i] == vs[i];
      }
    }
  }

  /** The `zip`/`enumerate` scan of `_combine_nws`: the first depth at which
      the pending symbols differ. */
  method FindMismatch(s1: seq<Symbol>, s2: seq<Symbol>) returns (r: Option<nat>)
    ensures r == FirstMismatch(s1, s2)
  {
    var depth := 0;
    while depth < |s1| && depth < |s2|
      invariant depth <= |s1| && depth <= |s2|
      invariant forall e :: 0 <= e < depth ==> s1[e] == s2[e]
    {
      if s1[depth] != s2[depth] {
        return Some(depth);
      }
      depth := depth + 1;
    }
    return None;
  }

  /** The mismatch branch of `_combine_nws`: the calls of `nw` from depth
      `d` up are closed in place and the part of `nw2` from its `d`-th
      pending call on is appended. */
  method RebaseNW(nw: NestedWord<Symbol>, nw2: NestedWord<Symbol>, d: nat) returns (r: Result<NestedWord<Symbol>>)
    requires nw.Valid() && nw2.Valid() && nw != nw2 && nw.matching != nw2.matching
    requires d < |SortedPending(nw.matching.Value())| && d < |SortedPending(nw2.matching.Value())|
    modifies nw, nw.matching
    ensures r.Success? <==> Rebased(old(nw.Value()), nw2.Value(), d).Success?
    ensures r.Failure? ==> r.error == Rebased(old(nw.Value()), nw2.Value(), d).error
    ensures r.Success? ==> fresh(r.value) && fresh(r.value.matching) && r.value.Valid()
    ensures r.Success? ==> r.value.Value() == Rebased(old(nw.Value()), nw2.Value(), d).value
    ensures nw2.Value() == old(nw2.Value())
  {
    ghost var w1, w2 := nw.Value(), nw2.Value();
    RebasedIs(w1, w2, d);
    var closed := ClosePositions(nw, |SortedPending(nw.matching.Value())| - d);
    assert closed.Pass? && nw2.Value() == w2;
    var tail := TailNW(nw2, d);
    r := nw.Concat(tail);
  }

  /** `nw2[p2[d]:]`, which cannot fail. */
  method TailNW(nw2: NestedWord<Symbol>, d: nat) returns (tail: NestedWord<Symbol>)
    requires nw2.Valid() && d < |SortedPending(nw2.matching.Value())|
    ensures fresh(tail) && fresh(tail.matching) && tail.Valid() && tail.Value() == Tail(nw2.Value(), d)
  {
    var p2 := SortedPending(nw2.matching.Value());
    var r := nw2.Slice(Some(p2[d]), None);
    assert r.Success?;
    tail := r.value;
  }

  /** The last step of `_combine_nws` on the object `nw`. */
  method WithLastNW(nw: NestedWord<Symbol>, nw2: NestedWord<Symbol>) returns (r: Result<NestedWord<Symbol>>)
    requires nw.Valid() && nw2.Valid() && nw != nw2 && nw.matching != nw2.matching
    modifies nw, nw.matching
    ensures r.Success? <==> WithLast(old(nw.Value()), nw2.Value()).Success?
    ensures r.Failure? ==> r.error == WithLast(old(nw.Value()), nw2.Value()).error
    ensures r.Success? ==> r.value == nw && nw.Valid() && nw.Value() == WithLast(old(nw.Value()), nw2.Value()).value
    ensures nw2.Value() == old(nw2.Value())
  {
    if |nw.word| == 0 || |nw2.word| == 0 {
      return Failure(IndexError("list index out of range"));
    }
    if nw.word[|nw.word| - 1] != nw2.word[|nw2.word| - 1] {
      nw.AddInternal(nw2.word[|nw2.word| - 1]);
    }
    return Success(nw);
  }

  /** `_combine_nws` from the loop over the pending symbols on: `nw`, a
      copy of `w1`, rebased at the first mismatch `depth` and then given the
      last symbol of `nw2`. */
  method CombineInto(nw: NestedWord<Symbol>, nw2: NestedWord<Symbol>, ghost w1: NW<Symbol>, depth: Option<nat>)
      returns (r: Result<NestedWord<Symbol>>)
    requires nw.Valid() && nw2.Valid() && nw != nw2 && nw.matching != nw2.matching
    requires nw.Value() == w1 && |w1.word| > 0
    requires depth == FirstMismatch(PendingSymbols(w1), PendingSymbols(nw2.Value()))
    modifies nw, nw.matching
    ensures r.Success? <==> Combined(w1, nw2.Value()).Success?
    ensures r.Failure? ==> r.error == Combined(w1, nw2.Value()).error
    ensures r.Success? ==> r.value.Valid() && r.value.Value() == Combined(w1, nw2.Value()).value
    ensures r.Success? ==> r.value == nw || (fresh(r.value) && fresh(r.value.matching))
  {
    if depth.Some? {
      r := CombineRebased(nw, nw2, w1, depth.value);
    } else {
      ghost var w2 := nw2.Value();
      CombinedThrough(w1, w2, depth);
      r := WithLastNW(nw, nw2);
      assert nw2.Value() == w2;
    }
  }

  /** `CombineInto` after a mismatch at `d`: the rebased word, then its last
      symbol checked. */
  method CombineRebased(nw: NestedWord<Symbol>, nw2: NestedWord<Symbol>, ghost w1: NW<Symbol>, d: nat)
      returns (r: Result<NestedWord<Symbol>>)
    requires nw.Valid() && nw2.Valid() && nw != nw2 && nw.matching != nw2.matching
    requires nw.Value() == w1 && |w1.word| > 0
    requires Some(d) == FirstMismatch(PendingSymbols(w1), PendingSymbols(nw2.Value()))
    modifies nw, nw.matching
    ensures r.Success? <==> Combined(w1, nw2.Value()).Success?
    ensures r.Failure? ==> r.error == Combined(w1, nw2.Value()).error
    ensures r.Success? ==> r.value.Valid() && r.value.Value() == Combined(w1, nw2.Value()).value
    ensures r.Success? ==> fresh(r.value) && fresh(r.value.matching)
  {
    ghost var w2 := nw2.Value();
    CombinedRebasedCases(w1, w2, d, Rebased(w1, w2, d), Combined(w1, w2));
    var rebased := RebaseNW(nw, nw2, d);
    if rebased.Failure? {
      return Failure(rebased.error);
    }
    r := WithLastNW(rebased.value, nw2);
  }


  /** `_combine_nws(nw1, nw2)` without its cache: `nw2` itself when `nw1` is
      empty, otherwise a new nested word. */
  method CombineNWs(nw1: NestedWord<Symbol>, nw2: NestedWord<Symbol>) returns (r: Result<NestedWord<Symbol>>)
    requires nw1.Valid() && nw2.Valid()
    ensures r.Success? <==> Combined(nw1.Value(), nw2.Value()).Success?
    ensures r.Failure? ==> r.error == Combined(nw1.Value(), nw2.Value()).error
    ensures r.Success? ==> r.value.Valid() && r.value.Value() == Combined(nw1.Value(), nw2.Value()).value
    ensures r.Success? && |nw1.word| == 0 ==> r.value == nw2
    ensures r.Success? && |nw1.word| > 0 ==> fresh(r.value) && fresh(r.value.matching)
  {
    if nw1.Length() == 0 {
      return Success(nw2);
    }
    ghost var w1, w2 := nw1.Value(), nw2.Value();
    // Symbols of the pending calls.
    var s1, s2 := PendingSymbols(nw1.Value()), PendingSymbols(nw2.Value());
    var empty := NestedWord.Create([], None);
    ConcatenatedEmpty(w1);
    var copy := empty.value.Concat(nw1);
    assert copy.Success?;
    var depth := FindMismatch(s1, s2);
    r := CombineInto(copy.value, nw2, w1, depth);
    assert nw1.Value() == w1 && nw2.Value() == w2;
  }

  /** The loop of `_combine_queue` and of `contains`: the nested words
      combined from left to right, starting from an empty one. */
  method CombineAll(nws: seq<NestedWord<Symbol>>, ghost vs: seq<NW<Symbol>>) returns (r: Result<NestedWord<Symbol>>)
    requires Represents(nws, vs)
    ensures forall i :: 0 <= i < |vs| ==> Fits(vs[i])
    ensures r.Success? <==> CombinedAll(vs).Success?
    ensures r.Failure? ==> r.error == CombinedAll(vs).error
    ensures r.Success? ==> r.value.Valid() && r.value.Value() == CombinedAll(vs).value
  {
    var start := NestedWord.Create([], None);
    var result := start.value;
    assert vs[..0] == [];
    for i := 0 to |nws|
      invariant result.Valid() && CombinedAll(vs[..i]) == Success(result.Value())
    {
      CombinedAllStep(vs, i, result.Value());
      var next := CombineNWs(result, nws[i]);
      if next.Failure? {
        CombinedAllFailure(vs, i + 1);
        return Failure(next.error);
      }
      result := next.value;
    }
    assert vs[..|nws|] == vs;
    return Success(result);
  }

  /** The construction in `_chain_to_nw`: `add_calls` of all vertices but
      the last on an empty nested word, then `add_internal` of the last. */
  method VerticesToNW(vertices: seq<Symbol>) returns (r: Result<NestedWord<Symbol>>)
    ensures r.Success? <==> ChainWord(vertices).Success?
    ensures r.Failure? ==> r.error == IndexError("list index out of range")
    ensures r.Success? ==> fresh(r.value) && fresh(r.value.matching) && r.value.Valid()
    ensures r.Success? ==> r.value.Value() == ChainWord(vertices).value
  {
    var start := NestedWord.Create([], None);
    var nw := start.value;
    var last := |vertices| - 1;
    if |vertices| > 1 {
      nw.AddCalls(vertices[..last]);
    }
    if |vertices| == 0 {
      return Failure(IndexError("list index out of range"));
    }
    nw.AddInternal(vertices[last]);
    assert nw.word == vertices;
    assert nw.matching.Value() == Extended(if |vertices| > 1 then CallsAdded(Empty(0), last) else Empty(0), 1);
    return Success(nw);
  }

  /** `NestedWordSet`: the pattern graph, the context queue of the last
      `context_size` chains' nested words and the set of combined words. */
  class NestedWordSet<N(!new)> {
    /** `context_size`. */
    const contextSize: nat
    /** `patterns`: the pattern model the chains are learned into. */
    const patterns: PatternGraph<N>
    /** `nested_words`. */
    var nestedWords: set<NW<Symbol>>
    /** `_context_queue`. */
    var queue: seq<NestedWord<Symbol>>
    /** The values of the queued nested words. */
    ghost var values: seq<NW<Symbol>>
    /** The chains whose nested words are queued, oldest first. */
    ghost var queued: seq<seq<N>>
    /** The windows of `context_size` consecutive chains learned so far. */
    ghost var windows: set<seq<seq<N>>>
    /** For each learned word, a window it was combined from. */
    ghost var origin: map<NW<Symbol>, seq<seq<N>>>
    /** The nested word of a chain, and of a window, in the current graph. */
    ghost var chainWord: seq<N> -> Result<NW<Symbol>>
    ghost var windowWord: seq<seq<N>> -> Result<NW<Symbol>>
    /** The value of the pattern graph, which `Valid` keeps equal to it. */
    ghost var graph: GraphValue<N>

    /** The invariant: `graph` is the pattern graph's value, the queue holds
        the nested words of the queued chains, every learned window has its
        word in the learned set, and both are stated over `graph`. */
    ghost predicate Valid()
      reads this`graph, this`queue, this`values, this`queued, this`chainWord, this`windowWord
      reads this`windows, this`origin, this`nestedWords, patterns, patterns.graph, patterns.graph.digraph
      reads queue, set nw | nw in queue :: nw.matching
    {
      Synced() && Kept() && Linked()
    }

    /** The part of `Valid` that the queue and the learned set keep. */
    ghost predicate Kept()
      reads this`graph, this`queue, this`values, this`queued, this`chainWord, this`windowWord
      reads this`windows, this`origin, this`nestedWords, queue, set nw | nw in queue :: nw.matching
    {
      QueueHeld() && WindowsHeld()
    }

    /** `graph` is the value of the valid pattern graph. */
    ghost predicate Synced()
      reads this`graph, patterns, patterns.graph, patterns.graph.digraph
    {
      patterns.Valid() && graph == patterns.Value() && Shaped(patterns.equiv, graph)
    }

    /** The queue holds the nested words of the queued chains, which the
        graph recognises. */
    ghost predicate QueueHeld()
      reads this`queue, this`values, this`queued, this`chainWord, this`graph
      reads queue, set nw | nw in queue :: nw.matching
    {
      QueueOver(graph)
    }

    /** `QueueHeld` over the graph `g`. */
    ghost predicate QueueOver(g: GraphValue<N>)
      reads this`queue, this`values, this`queued, this`chainWord
      reads queue, set nw | nw in queue :: nw.matching
    {
      0 < contextSize && |queue| <= contextSize && Represents(queue, values) &&
      Held(chainWord, values, queued) && AllRecognised(patterns.equiv, g, queued)
    }

    /** Every learned window is recognised and has its word in the learned set. */
    ghost predicate WindowsHeld()
      reads this`windows, this`origin, this`nestedWords, this`windowWord, this`graph
    {
      WindowsOver(graph)
    }

    /** `WindowsHeld` over the graph `g`. */
    ghost predicate WindowsOver(g: GraphValue<N>)
      reads this`windows, this`origin, this`nestedWords, this`windowWord
    {
      WindowsRecognised(patterns.equiv, g, contextSize, windows) &&
      Learned(windowWord, windows, origin, nestedWords)
    }

    /** `chainWord` and `windowWord` are what the graph gives. */
    ghost predicate Linked()
      reads this`chainWord, this`windowWord, this`graph
    {
      chainWord == ChainWords(patterns.equiv, graph) &&
      windowWord == WindowWords(patterns.equiv, graph)
    }

    constructor (contextSize: nat, closestMatch: bool, equiv: (N, N) -> bool, dist: (N, N) -> real)
      requires 0 < contextSize && IsEquivalence(equiv)
      ensures Valid() && fresh(patterns) && fresh(patterns.graph) && fresh(patterns.graph.digraph)
      ensures this.contextSize == contextSize && patterns.equiv == equiv && patterns.dist == dist
      ensures patterns.closestMatch == closestMatch && patterns.graph.digraph.vertices == []
      ensures nestedWords == {} && queue == [] && windows == {}
    {
      var p := new PatternGraph(equiv, dist, closestMatch);
      this.contextSize, patterns, nestedWords, queue := contextSize, p, {}, [];
      values, queued, windows, origin := [], [], {}, map[];
      graph := p.Value();
      chainWord, windowWord := ChainWords(equiv, p.Value()), WindowWords(equiv, p.Value());
    }

    /** `NestedWordSet(params)`: `context_size` defaults to 2 and must be
        positive, `closest_match` defaults to true. */
    static method Create(contextSize: Option<int>, closestMatch: Option<bool>,
                         equiv: (N, N) -> bool, dist: (N, N) -> real) returns (r: Result<NestedWordSet<N>>)
      requires IsEquivalence(equiv)
      ensures r.Success? <==> contextSize.None? || contextSize.value > 0
      ensures r.Failure? ==> r.error == ValueError("Provided `context_size` must be positive.")
      ensures r.Success? ==> fresh(r.value) && r.value.Valid() && r.value.nestedWords == {} && r.value.queue == []
      ensures r.Success? ==> r.value.contextSize == (if contextSize.Some? then contextSize.value else 2)
      ensures r.Success? ==> r.value.patterns.closestMatch == (closestMatch.None? || closestMatch.value)
    {
      var size := if contextSize.Some? then contextSize.value else 2;
      if size <= 0 {
        return Failure(ValueError("Provided `context_size` must be positive."));
      }
      var closest := if closestMatch.Some? then closestMatch.value else true;
      var model := new NestedWordSet(size, closest, equiv, dist);
      return Success(model);
    }

    /** `_chain_to_nw(chain)`: the chain's vertices as a nested word, all
        but the last a pending call; an empty chain raises. */
    method ChainToNW(chain: seq<N>) returns (r: Result<NestedWord<Symbol>>)
      requires patterns.Valid()
      ensures r.Success? <==> |chain| > 0
      ensures r.Failure? ==> r.error == IndexError("list index out of range")
      ensures r.Success? ==> fresh(r.value) && fresh(r.value.matching) && r.value.Valid()
      ensures r.Success? ==> ChainNW(patterns.equiv, patterns.Value(), chain) == Success(r.value.Value())
    {
      var vertices, _ := patterns.ChainToVertices(chain);
      r := VerticesToNW(vertices);
    }

    /** `_combine_queue()`. */
    method CombineQueue() returns (r: Result<NestedWord<Symbol>>)
      requires QueueHeld() && Linked()
      ensures r.Success? && WindowWord(patterns.equiv, graph, queued).Success?
      ensures r.value.Valid() && r.value.Value() == WindowWord(patterns.equiv, graph, queued).value
    {
      HeldNonEmpty(patterns.equiv, graph, values, queued);
      WindowWordSucceeds(patterns.equiv, graph, queued);
      QueueWindow(patterns.equiv, graph, values, queued);
      r := CombineAll(queue, values);
    }

    /** `update(chain)`: learns the chain into the pattern graph, pushes its
        nested word on the queue and, once the queue is full, adds the
        combined queue to the learned set and returns it. */
    method Update(chain: seq<N>) returns (r: Result<seq<NW<Symbol>>>)
      requires Valid()
      modifies this`queue, this`values, this`queued, this`nestedWords, this`windows, this`origin
      modifies this`chainWord, this`windowWord, this`graph, patterns.graph, patterns.graph.digraph
      ensures Valid()
      ensures r.Success? <==> |chain| > 0
      ensures |chain| == 0 ==>
        r == Failure(ValueError("Chain cannot be empty.")) && unchanged(this) && graph == old(graph)
      ensures |chain| > 0 ==> Grows(old(graph), graph) && Recognises(patterns.equiv, graph, chain)
      ensures |chain| > 0 ==> queued == Pushed(old(queued), chain, contextSize)
      ensures |chain| > 0 && |queued| < contextSize ==> r == Success([]) && nestedWords == old(nestedWords)
      ensures |chain| > 0 && |queued| == contextSize ==>
        windowWord(queued).Success? && r == Success([windowWord(queued).value]) &&
        nestedWords == old(nestedWords) + {windowWord(queued).value} && queued in windows
    {
      if |chain| == 0 {
        return Failure(ValueError("Chain cannot be empty."));
      }
      ghost var q0, n0 := queued, nestedWords;
      LearnChain(chain);
      assert queued == q0 && nestedWords == n0;
      r := Absorb(chain);
    }

    /** `update` once the graph has learned the chain: the queue step, then
        the word of the full queue. */
    method Absorb(chain: seq<N>) returns (r: Result<seq<NW<Symbol>>>)
      requires Valid() && |chain| > 0 && Recognises(patterns.equiv, graph, chain)
      modifies this`queue, this`values, this`queued, this`nestedWords, this`windows, this`origin
      ensures Valid() && queued == Pushed(old(queued), chain, contextSize) && r.Success?
      ensures |queued| < contextSize ==> r == Success([]) && nestedWords == old(nestedWords)
      ensures |queued| == contextSize ==>
        windowWord(queued).Success? && r == Success([windowWord(queued).value]) &&
        nestedWords == old(nestedWords) + {windowWord(queued).value} && queued in windows
    {
      Enqueue(chain);
      r := Emit();
      assert Synced();
    }

    /** The queue step of `update` once the graph has learned the chain:
        the chain's nested word is pushed on the queue. */
    method Enqueue(chain: seq<N>)
      requires Valid() && |chain| > 0 && Recognises(patterns.equiv, graph, chain)
      modifies this`queue, this`values, this`queued
      ensures Valid() && queued == Pushed(old(queued), chain, contextSize)
    {
      var nw := ChainToNW(chain);
      ChainWordOf(chainWord, patterns.equiv, graph, chain, nw.value.Value());
      PushKept(nw.value, chain);
    }

    /** `Push`, with the rest of `Valid` carried over. */
    method PushKept(nw: NestedWord<Symbol>, ghost chain: seq<N>)
      requires Valid() && nw.Valid() && Recognises(patterns.equiv, graph, chain)
      requires chainWord(chain) == Success(nw.Value())
      modifies this`queue, this`values, this`queued
      ensures Valid() && queued == Pushed(old(queued), chain, contextSize)
    {
      Push(nw, chain);
      assert unchanged(this`windows, this`origin, this`nestedWords, this`windowWord, this`chainWord, this`graph);
      assert unchanged(patterns, patterns.graph, patterns.graph.digraph);
      assert Synced() && WindowsHeld() && Linked();
    }

    /** The last step of `update`: once the queue is full, the combined
        queue is learned and returned; otherwise nothing is. */
    method Emit() returns (r: Result<seq<NW<Symbol>>>)
      requires Kept() && Linked()
      modifies this`nestedWords, this`windows, this`origin
      ensures Kept() && r.Success?
      ensures |queued| < contextSize ==> r == Success([]) && nestedWords == old(nestedWords)
      ensures |queued| == contextSize ==>
        windowWord(queued).Success? && r == Success([windowWord(queued).value]) &&
        nestedWords == old(nestedWords) + {windowWord(queued).value} && queued in windows
    {
      if |queue| == contextSize {
        r := LearnQueue();
      } else {
        r := Success([]);
      }
    }

    /** The first step of `update`: `patterns.update(chain)`. The graph
        grows, so every queued chain and every learned window keeps its
        nested word. */
    method LearnChain(chain: seq<N>)
      requires Valid()
      modifies this`chainWord, this`windowWord, this`graph, patterns.graph, patterns.graph.digraph
      ensures Valid()
      ensures Grows(old(graph), graph) && Recognises(patterns.equiv, graph, chain)
    {
      ghost var g0 := graph;
      assert QueueOver(g0) && WindowsOver(g0);
      UpdatePatterns(chain);
      Relink(g0);
    }

    /** The pattern graph learns the chain, and `graph` follows it. */
    method UpdatePatterns(chain: seq<N>)
      requires Synced()
      modifies this`graph, patterns.graph, patterns.graph.digraph
      ensures Synced()
      ensures Grows(old(graph), graph) && Recognises(patterns.equiv, graph, chain)
    {
      var _ := patterns.Update(chain);
      graph := patterns.Value();
    }

    /** After the graph grew from `g0`, the queued chains and the learned
        windows keep their words. */
    ghost method Relink(g0: GraphValue<N>)
      requires IsEquivalence(patterns.equiv) && Shaped(patterns.equiv, graph)
      requires Grows(g0, graph) && QueueOver(g0) && WindowsOver(g0)
      requires chainWord == ChainWords(patterns.equiv, g0) && windowWord == WindowWords(patterns.equiv, g0)
      modifies this`chainWord, this`windowWord
      ensures QueueHeld() && WindowsHeld() && Linked()
    {
      RelinkChains(g0);
      RelinkWindows(g0);
    }

    /** After the graph grew from `g0`, the queued chains keep their words. */
    ghost method RelinkChains(g0: GraphValue<N>)
      requires IsEquivalence(patterns.equiv) && Shaped(patterns.equiv, graph) && Grows(g0, graph)
      requires QueueOver(g0) && chainWord == ChainWords(patterns.equiv, g0)
      modifies this`chainWord
      ensures QueueHeld() && chainWord == ChainWords(patterns.equiv, graph)
    {
      ChainsGrow(patterns.equiv, g0, graph, queued);
      HeldSame(chainWord, ChainWords(patterns.equiv, graph), values, queued);
      chainWord := ChainWords(patterns.equiv, graph);
    }

    /** After the graph grew from `g0`, the learned windows keep their words. */
    ghost method RelinkWindows(g0: GraphValue<N>)
      requires IsEquivalence(patterns.equiv) && Shaped(patterns.equiv, graph) && Grows(g0, graph)
      requires WindowsOver(g0) && windowWord == WindowWords(patterns.equiv, g0)
      modifies this`windowWord
      ensures WindowsHeld() && windowWord == WindowWords(patterns.equiv, graph)
    {
      WindowsGrow(patterns.equiv, g0, graph, contextSize, windows);
      LearnedSame(windowWord, WindowWords(patterns.equiv, graph), windows, origin, nestedWords);
      windowWord := WindowWords(patterns.equiv, graph);
    }

    /** The queue step of `update`: `pop(0)` when the queue is full, then
        `append`. */
    method Push(nw: NestedWord<Symbol>, ghost chain: seq<N>)
      requires QueueHeld() && nw.Valid() && Recognises(patterns.equiv, graph, chain)
      requires chainWord(chain) == Success(nw.Value())
      modifies this`queue, this`values, this`queued
      ensures QueueHeld() && |queue| == |queued| && queued == Pushed(old(queued), chain, contextSize)
    {
      var queue' := Pushed(queue, nw, contextSize);
      ghost var values', queued' := Pushed(values, nw.Value(), contextSize), Pushed(queued, chain, contextSize);
      assert QueueState(contextSize, queue', values', queued', chainWord, patterns.equiv, graph) && |queue'| == |queued'| by {
        QueueStatePushed(contextSize, queue, values, queued, chainWord, patterns.equiv, graph, nw, chain);
      }
      queue, values, queued := queue', values', queued';
      assert QueueState(contextSize, queue, values, queued, chainWord, patterns.equiv, graph);
    }

    /** The last step of `update` once the queue is full: the combined
        queue is added to `nested_words` and returned. */
    method LearnQueue() returns (r: Result<seq<NW<Symbol>>>)
      requires Kept() && Linked() && |queue| == contextSize
      modifies this`nestedWords, this`windows, this`origin
      ensures Kept() && |queued| == contextSize && windowWord(queued).Success?
      ensures r == Success([windowWord(queued).value])
      ensures nestedWords == old(nestedWords) + {windowWord(queued).value} && queued in windows
    {
      assert |queued| == |queue|;
      var combined := CombineQueue();
      var w := combined.value.Value();
      AddWord(w);
      return Success([w]);
    }

    /** `nested_words.add(nw)` for the word of the full queue. */
    method AddWord(w: NW<Symbol>)
      requires Kept() && |queued| == contextSize && windowWord(queued) == Success(w)
      modifies this`nestedWords, this`windows, this`origin
      ensures Kept() && nestedWords == old(nestedWords) + {w} && queued in windows
    {
      LearnedAdd(windowWord, windows, origin, nestedWords, queued, w);
      assert WindowsRecognised(patterns.equiv, graph, contextSize, windows + {queued});
      nestedWords, windows, origin := nestedWords + {w}, windows + {queued}, origin[w := queued];
    }

    /** `learn(chains)`: `update` on each chain in turn, the words they
        return concatenated. The result is the fold `Learnt` over the final
        graph, which outputs a word exactly for each update finding the
        queue full; the queue ends up holding the last chains. */
    method Learn(chains: seq<seq<N>>) returns (r: Result<seq<NW<Symbol>>>)
      requires Valid()
      modifies this`queue, this`values, this`queued, this`nestedWords, this`windows, this`origin
      modifies this`chainWord, this`windowWord, this`graph, patterns.graph, patterns.graph.digraph
      ensures Valid() && Grows(old(graph), graph)
      ensures r == Learnt(WindowWords(patterns.equiv, graph), contextSize, old(queued), chains)
      ensures r.Success? ==> queued == QueueAfter(old(queued), chains, contextSize)
      ensures r.Success? <==> forall i :: 0 <= i < |chains| ==> |chains[i]| > 0
      ensures r.Success? ==> forall i :: 0 <= i < |chains| ==> Recognises(patterns.equiv, graph, chains[i])
      ensures r.Success? ==> |r.value| == Outputs(old(|queue|), |chains|, contextSize)
      ensures r.Success? ==> nestedWords == old(nestedWords) + set x | x in r.value
    {
      ghost var g0, q0, n0 := graph, queued, nestedWords;
      assert |q0| == |queue|;
      HeldNonEmpty(patterns.equiv, graph, values, q0);
      LearntStart(patterns.equiv, graph, windowWord, contextSize, q0, chains, n0);
      var result: seq<NW<Symbol>> := [];
      for i := 0 to |chains|
        invariant Valid() && Grows(g0, graph)
        invariant LearntSoFar(patterns.equiv, graph, chains, i, |q0|, contextSize, n0, result, |queued|, nestedWords)
        invariant FoldSoFar(windowWord, contextSize, q0, chains, i, result, queued)
        invariant AllRecognised(patterns.equiv, graph, q0)
      {
        var words := LearnNext(chains, i, g0, q0, n0, result);
        if words.Failure? {
          LearntSucceeds(patterns.equiv, graph, contextSize, q0, chains);
          return Failure(words.error);
        }
        result := result + words.value;
      }
      LearntAll(patterns.equiv, graph, chains, |q0|, contextSize, n0, result, |queued|, nestedWords);
      LearntEnd(windowWord, contextSize, q0, chains, result, queued);
      LearntSucceeds(patterns.equiv, graph, contextSize, q0, chains);
      return Success(result);
    }

    /** One turn of the loop of `learn`: `update(chains[i])`. */
    method LearnNext(chains: seq<seq<N>>, i: nat, ghost g0: GraphValue<N>, ghost q0: seq<seq<N>>, ghost n0: set<NW<Symbol>>,
                     ghost result: seq<NW<Symbol>>) returns (r: Result<seq<NW<Symbol>>>)
      requires i < |chains| && Valid() && Grows(g0, graph)
      requires LearntSoFar(patterns.equiv, graph, chains, i, |q0|, contextSize, n0, result, |queued|, nestedWords)
      requires FoldSoFar(windowWord, contextSize, q0, chains, i, result, queued)
      requires AllRecognised(patterns.equiv, graph, q0)
      modifies this`queue, this`values, this`queued, this`nestedWords, this`windows, this`origin
      modifies this`chainWord, this`windowWord, this`graph, patterns.graph, patterns.graph.digraph
      ensures Valid() && Grows(g0, graph)
      ensures r.Success? ==>
        LearntSoFar(patterns.equiv, graph, chains, i + 1, |q0|, contextSize, n0, result + r.value, |queued|, nestedWords) &&
        FoldSoFar(windowWord, contextSize, q0, chains, i + 1, result + r.value, queued) &&
        AllRecognised(patterns.equiv, graph, q0)
      ensures r.Failure? ==> r == Learnt(windowWord, contextSize, q0, chains)
    {
      ghost var g, ws, qd, ww := graph, nestedWords, queued, windowWord;
      r := Update(chains[i]);
      if |chains[i]| > 0 {
        SoFarRecognised(patterns.equiv, g, chains, i, |q0|, contextSize, n0, result, |qd|, ws);
        LearntStable(patterns.equiv, g, graph, contextSize, q0, chains[..i]);
      }
      LearnedStep(patterns.equiv, g0, g, graph, chains, i, q0, contextSize, n0, result, r, qd, queued, ws, nestedWords,
                  ww, windowWord);
    }

    /** `contains(chains)`: whether the window of the given chains is in
        the learned set; exactly `context_size` chains are expected. */
    method Contains(chains: seq<seq<N>>) returns (r: Result<bool>)
      requires Valid()
      ensures r.Success? <==> |chains| == contextSize && forall i :: 0 <= i < |chains| ==> |chains[i]| > 0
      ensures |chains| != contextSize ==> r.Failure? && r.error.ValueError?
      ensures |chains| == contextSize ==> (r.Success? <==> WindowWord(patterns.equiv, graph, chains).Success?)
      ensures r.Failure? && |chains| == contextSize ==> r.error == WindowWord(patterns.equiv, graph, chains).error
      ensures r.Success? ==> r.value == (WindowWord(patterns.equiv, graph, chains).value in nestedWords)
      ensures chains in windows ==> r == Success(true)
    {
      if |chains| != contextSize {
        return Failure(ValueError("Expected context_size chains."));
      }
      var nws, vs := ChainsToNWs(chains);
      if nws.Failure? {
        return Failure(nws.error);
      }
      WindowWordSucceeds(patterns.equiv, graph, chains);
      QueueWindow(patterns.equiv, graph, vs, chains);
      var combined := CombineAll(nws.value, vs);
      return Success(combined.value.Value() in nestedWords);
    }

    /** The nested words of the chains `contains` is given, one
        `_chain_to_nw` each; the first empty chain raises. */
    method ChainsToNWs(chains: seq<seq<N>>) returns (r: Result<seq<NestedWord<Symbol>>>, ghost vs: seq<NW<Symbol>>)
      requires Synced()
      ensures r.Success? <==> forall i :: 0 <= i < |chains| ==> |chains[i]| > 0
      ensures r.Failure? ==> r.error == IndexError("list index out of range")
      ensures r.Success? ==> Represents(r.value, vs) && Held(ChainWords(patterns.equiv, graph), vs, chains)
    {
      var nws: seq<NestedWord<Symbol>> := [];
      vs := [];
      for i := 0 to |chains|
        invariant Represents(nws, vs) && Held(ChainWords(patterns.equiv, graph), vs, chains[..i])
      {
        var nw := ChainToNW(chains[i]);
        if nw.Failure? {
          return Failure(nw.error), vs;
        }
        assert chains[..i + 1] == chains[..i] + [chains[i]];
        HeldAppended(ChainWords(patterns.equiv, graph), vs, chains[..i], nw.value.Value(), chains[i]);
        RepresentsAppended(nws, vs, nw.value);
        nws := nws + [nw.value];
        vs := vs + [nw.value.Value()];
      }
      assert chains[..|chains|] == chains;
      HeldNonEmpty(patterns.equiv, graph, vs, chains);
      return Success(nws), vs;
    }
  }
}
