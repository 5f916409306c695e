/** Matching relations of nested words: which positions are calls, which are
    returns, and how they are paired (src/pbsf/utils/nested_word.py,
    `MatchingRelation`).

    Python keeps two lists, `_return_successors` and `_call_predecessors`,
    whose entries are `-1` (no match on that side), `None` (a pending call or
    return) or a position. The model keeps the same two lists, with `Link`
    standing for the three kinds of entry. */
module MatchingRelations {
  import opened Wrappers

  /** An entry of `_return_successors` or `_call_predecessors`. */
  datatype Link = Unset | Pending | At(pos: nat)

  /** A (call, return) pair as `get_match` reports it; a missing side is pending. */
  datatype Match = Match(call: Option<nat>, ret: Option<nat>)

  /** The two lists of a matching relation; its length is theirs. */
  datatype Matching = Matching(succ: seq<Link>, pred: seq<Link>)

  predicate Sized(m: Matching)
  {
    |m.succ| == |m.pred|
  }

  /** `MatchingRelation(length)`: every position internal. */
  function Empty(n: nat): (m: Matching)
    ensures Sized(m) && |m.succ| == n
    ensures forall i :: 0 <= i < n ==> m.succ[i] == Unset && m.pred[i] == Unset
  {
    Matching(seq(n, _ => Unset), seq(n, _ => Unset))
  }

  /** `is_call`: the position has a return successor, possibly pending. */
  predicate CallAt(m: Matching, i: nat)
    requires Sized(m) && i < |m.succ|
  {
    m.succ[i] != Unset
  }

  /** `is_return`: the position has a call predecessor, possibly pending. */
  predicate ReturnAt(m: Matching, i: nat)
    requires Sized(m) && i < |m.succ|
  {
    m.pred[i] != Unset
  }

  /** `is_internal`. */
  predicate InternalAt(m: Matching, i: nat)
    requires Sized(m) && i < |m.succ|
  {
    !CallAt(m, i) && !ReturnAt(m, i)
  }

  /** `is_pending`: a pending call or a pending return. */
  predicate PendingAt(m: Matching, i: nat)
    requires Sized(m) && i < |m.succ|
  {
    m.succ[i] == Pending || m.pred[i] == Pending
  }

  /** The entry Python stores for the other side of a match: a position, or `None`. */
  function LinkTo(p: Option<nat>): (l: Link)
    ensures l != Unset
    ensures p.Some? <==> l.At?
  {
    if p.Some? then At(p.value) else Pending
  }

  /** The side of a match an entry names, `None` when it is pending. */
  function Partner(l: Link): (p: Option<nat>)
    ensures l != Unset ==> LinkTo(p) == l
  {
    if l.At? then Some(l.pos) else None
  }

  /** The match `get_match` reports at a position that is not internal: a
      position that is a call is reported as a call, even when it is also a
      return. */
  function MatchOf(m: Matching, i: nat): (q: Match)
    requires Sized(m) && i < |m.succ| && !InternalAt(m, i)
    ensures q.call == Some(i) || q.ret == Some(i)
  {
    if CallAt(m, i) then Match(Some(i), Partner(m.succ[i])) else Match(Partner(m.pred[i]), Some(i))
  }

  /** `get_match(i)`: an error outside [0, length), nothing at an internal
      position, the position's match otherwise. */
  function ReportedMatch(m: Matching, i: int): (r: Result<Option<Match>>)
    requires Sized(m)
    ensures r.Failure? <==> !(0 <= i < |m.succ|)
    ensures r.Failure? ==> r.error.ValueError?
    ensures r.Success? ==> (r.value.None? <==> InternalAt(m, i))
    ensures r.Success? && CallAt(m, i) ==> r.value == Some(Match(Some(i), Partner(m.succ[i])))
    ensures r.Success? && !CallAt(m, i) && ReturnAt(m, i) ==> r.value == Some(Match(Partner(m.pred[i]), Some(i)))
  {
    if !(0 <= i < |m.succ|) then Failure(ValueError("position is out of bounds"))
    else if InternalAt(m, i) then Success(None)
    else Success(Some(MatchOf(m, i)))
  }

  /** `get_matches`: the match of every position that is not internal. */
  function Matches(m: Matching): set<Match>
    requires Sized(m)
  {
    set i | 0 <= i < |m.succ| && !InternalAt(m, i) :: MatchOf(m, i)
  }

  /** `get_pending`. */
  function PendingMatches(m: Matching): set<Match>
    requires Sized(m)
  {
    set q | q in Matches(m) && (q.call.None? || q.ret.None?)
  }

  /** `get_pending_calls`. */
  function PendingCalls(m: Matching): set<nat>
    requires Sized(m)
  {
    set q | q in Matches(m) && q.ret.None? && q.call.Some? :: q.call.value
  }

  /** `get_pending_returns`. */
  function PendingReturns(m: Matching): set<nat>
    requires Sized(m)
  {
    set q | q in Matches(m) && q.call.None? && q.ret.Some? :: q.ret.value
  }

  /** The pending calls are the positions whose successor is `None`. */
  lemma PendingCallsAre(m: Matching)
    requires Sized(m)
    ensures PendingCalls(m) == set i | 0 <= i < |m.succ| && m.succ[i] == Pending
  {
    var s := set i | 0 <= i < |m.succ| && m.succ[i] == Pending;
    forall i | i in s
      ensures i in PendingCalls(m)
    {
      assert MatchOf(m, i) in Matches(m);
    }
  }

  /** The pending returns are the positions with a pending predecessor that
      are not calls: `get_matches` reports a call first, so the pending
      return side of a position that is also a call is not reported. */
  lemma PendingReturnsAre(m: Matching)
    requires Sized(m)
    ensures PendingReturns(m) == set i | 0 <= i < |m.succ| && m.succ[i] == Unset && m.pred[i] == Pending
  {
    var s := set i | 0 <= i < |m.succ| && m.succ[i] == Unset && m.pred[i] == Pending;
    forall i | i in s
      ensures i in PendingReturns(m)
    {
      assert MatchOf(m, i) in Matches(m);
    }
  }

  /** Whether the match `p` being set crosses the existing match `q`, case by
      case as `_validate_crossing` decides it. Two pending calls, or two
      pending returns, never cross; for two complete matches, sharing an
      endpoint counts as crossing. */
  predicate Crosses(p: Match, q: Match)
  {
    match (p.call, p.ret, q.call, q.ret)
    case (None, Some(j), Some(c), None) => c < j
    case (None, Some(j), Some(c), Some(r)) => c < j < r
    case (Some(i), None, None, Some(r)) => i < r
    case (Some(i), None, Some(c), Some(r)) => c < i < r
    case (Some(i), Some(j), None, Some(r)) => i < r < j
    case (Some(i), Some(j), Some(c), None) => i < c < j
    case (Some(i), Some(j), Some(c), Some(r)) => (i < c <= j <= r) || (c < i <= r <= j)
    case _ => false
  }

  /** Crossing is symmetric, so which of two matches came first does not matter. */
  lemma CrossesSymmetric(p: Match, q: Match)
    ensures Crosses(p, q) <==> Crosses(q, p)
  {
  }

  /** `_validate_position`: the position must lie in [0, length). */
  function ValidatePosition(n: nat, pos: Option<int>): (r: Outcome)
    ensures r.Pass? <==> pos.None? || 0 <= pos.value < n
    ensures r.Fail? ==> r.error.ValueError?
  {
    if pos.None? then Pass
    else if pos.value < 0 then Fail(ValueError("position must be non-negative"))
    else if pos.value >= n then Fail(ValueError("position is out of bounds"))
    else Pass
  }

  /** A pair of positions whose present sides are known to be non-negative. */
  function AsMatch(call: Option<int>, ret: Option<int>): Match
    requires call.None? || call.value >= 0
    requires ret.None? || ret.value >= 0
  {
    Match(if call.Some? then Some(call.value as nat) else None, if ret.Some? then Some(ret.value as nat) else None)
  }

  /** The last check of `_validate_crossing`: some existing match crosses `p`. */
  predicate CrossesSome(m: Matching, p: Match)
    requires Sized(m)
  {
    exists q :: q in Matches(m) && Crosses(p, q)
  }

  /** `_validate_properties` as written: `_validate_indices`, `_validate_order`,
      `_validate_position` for each present side, then `_validate_crossing`. */
  function CheckAsWritten(m: Matching, call: Option<int>, ret: Option<int>): (r: Outcome)
    requires Sized(m)
    ensures r.Fail? ==> r.error.ValueError?
  {
    if call.None? && ret.None? then Fail(ValueError("at least one position must be an actual position"))
    else if call.Some? && ret.Some? && call.value == ret.value then Fail(ValueError("a position cannot be both call and return"))
    else if call.Some? && ret.Some? && call.value > ret.value then Fail(ValueError("nestings only go forward"))
    else if ValidatePosition(|m.succ|, call).Fail? then ValidatePosition(|m.succ|, call)
    else if ValidatePosition(|m.succ|, ret).Fail? then ValidatePosition(|m.succ|, ret)
    else if CrossesSome(m, AsMatch(call, ret)) then Fail(ValueError("match crosses with an existing match"))
    else Pass
  }

  /** The check the crossing test misses: the call side may only be internal
      or a pending call (which the match completes, as `add_returns` does), the
      return side only internal or a pending return; setting a match that is
      already there again is allowed. */
  predicate RolesFree(m: Matching, p: Match)
    requires Sized(m)
    requires p.call.Some? ==> p.call.value < |m.succ|
    requires p.ret.Some? ==> p.ret.value < |m.succ|
  {
    (p.call.Some? ==>
      var c := p.call.value;
      m.pred[c] == Unset && (m.succ[c] == Unset || m.succ[c] == Pending || m.succ[c] == LinkTo(p.ret))) &&
    (p.ret.Some? ==>
      var j := p.ret.value;
      m.succ[j] == Unset && (m.pred[j] == Unset || m.pred[j] == Pending || m.pred[j] == LinkTo(p.call)))
  }

  /** `_validate_properties` with the missing role check added after the others. */
  function Check(m: Matching, call: Option<int>, ret: Option<int>): (r: Outcome)
    requires Sized(m)
    ensures r.Fail? ==> r.error.ValueError?
  {
    var c := CheckAsWritten(m, call, ret);
    if c.Fail? then c
    else if !RolesFree(m, AsMatch(call, ret)) then Fail(ValueError("position already belongs to another match"))
    else Pass
  }

  /** The two writes of `set_match`: the call side's successor becomes the
      return (or `None`), the return side's predecessor the call (or `None`). */
  function Written(m: Matching, p: Match): Matching
    requires Sized(m)
    requires p.call.Some? ==> p.call.value < |m.succ|
    requires p.ret.Some? ==> p.ret.value < |m.succ|
  {
    Matching(
      if p.call.Some? then m.succ[p.call.value := LinkTo(p.ret)] else m.succ,
      if p.ret.Some? then m.pred[p.ret.value := LinkTo(p.call)] else m.pred)
  }

  /** `set_match(call, ret)` as written. */
  function SetMatchedAsWritten(m: Matching, call: Option<int>, ret: Option<int>): (r: Result<Matching>)
    requires Sized(m)
  {
    var c := CheckAsWritten(m, call, ret);
    if c.Fail? then Failure(c.error) else Success(Written(m, AsMatch(call, ret)))
  }

  /** `set_match(call, ret)` with the role check. */
  function SetMatched(m: Matching, call: Option<int>, ret: Option<int>): (r: Result<Matching>)
    requires Sized(m)
    ensures r.Success? ==> Sized(r.value) && |r.value.succ| == |m.succ|
    ensures r.Failure? ==> r.error.ValueError?
  {
    var c := Check(m, call, ret);
    if c.Fail? then Failure(c.error) else Success(Written(m, AsMatch(call, ret)))
  }

  /** The state every matching relation is in: the two lists agree, calls
      precede their returns, no position is both a call and a return, and no
      two matches cross. */
  predicate Consistent(m: Matching)
  {
    Sized(m) && CallsBacked(m) && ReturnsBacked(m)
  }

  /** Every return successor lies after its call and names it back. */
  predicate CallsBacked(m: Matching)
    requires Sized(m)
  {
    (forall i :: 0 <= i < |m.succ| && m.succ[i].At? ==> i < m.succ[i].pos < |m.succ|) &&
    (forall i :: 0 <= i < |m.succ| && m.succ[i].At? ==> m.pred[m.succ[i].pos] == At(i))
  }

  /** Every call predecessor names its return back. */
  predicate ReturnsBacked(m: Matching)
    requires Sized(m)
  {
    (forall j :: 0 <= j < |m.pred| && m.pred[j].At? ==> m.pred[j].pos < |m.succ|) &&
    (forall j :: 0 <= j < |m.pred| && m.pred[j].At? ==> m.succ[m.pred[j].pos] == At(j))
  }

  predicate SingleRoles(m: Matching)
    requires Sized(m)
  {
    forall i :: 0 <= i < |m.succ| ==> !(CallAt(m, i) && ReturnAt(m, i))
  }

  predicate NonCrossing(m: Matching)
    requires Sized(m)
  {
    forall x, y {:trigger Crosses(MatchOf(m, x), MatchOf(m, y))} ::
      0 <= x < |m.succ| && 0 <= y < |m.succ| && !InternalAt(m, x) && !InternalAt(m, y) ==>
      !Crosses(MatchOf(m, x), MatchOf(m, y))
  }

  predicate WellMatched(m: Matching)
  {
    Consistent(m) && SingleRoles(m) && NonCrossing(m)
  }

  lemma EmptyWellMatched(n: nat)
    ensures WellMatched(Empty(n))
    ensures Matches(Empty(n)) == {}
  {
  }

  /** `set_match` fails exactly in the cases the source rejects, and with the role check added. */
  lemma SetMatchedFails(m: Matching, call: Option<int>, ret: Option<int>)
    requires Sized(m)
    ensures SetMatched(m, call, ret).Failure? <==>
      || (call.None? && ret.None?)
      || (call.Some? && ret.Some? && call.value >= ret.value)
      || (call.Some? && !(0 <= call.value < |m.succ|))
      || (ret.Some? && !(0 <= ret.value < |m.succ|))
      || CrossesSome(m, AsMatch(call, ret))
      || !RolesFree(m, AsMatch(call, ret))
  {
  }

  /** After `set_match(c, r)` the call side is a call, the return side a return,
      and `get_match` reports the new pair at both; a lone side is pending;
      no other position changes. */
  lemma SetMatchedEffect(m: Matching, call: Option<int>, ret: Option<int>)
    requires Sized(m) && SetMatched(m, call, ret).Success?
    ensures var m' := SetMatched(m, call, ret).value;
      var p := AsMatch(call, ret);
      && (p.call.Some? ==> CallAt(m', p.call.value) && MatchOf(m', p.call.value) == p)
      && (p.ret.Some? ==> ReturnAt(m', p.ret.value) && MatchOf(m', p.ret.value) == p)
      && (p.call.None? ==> PendingAt(m', p.ret.value))
      && (p.ret.None? ==> PendingAt(m', p.call.value))
      && (forall i :: 0 <= i < |m.succ| && Some(i) != p.call && Some(i) != p.ret ==>
            m'.succ[i] == m.succ[i] && m'.pred[i] == m.pred[i])
  {
  }

  /** The as-written `set_match` leaves the lists disagreeing: in
      `from_tagged_sequence(['<', '<', a, b, '>'])` the match (0, 1) is set and
      then (0, None), which the crossing test lets through. */
  lemma SetMatchedAsWrittenBreaksConsistency()
    ensures var m1 := SetMatchedAsWritten(Empty(2), Some(0), Some(1));
      m1.Success? && Consistent(m1.value) &&
      var m2 := SetMatchedAsWritten(m1.value, Some(0), None);
      m2.Success? && !Consistent(m2.value) &&
      SetMatched(m1.value, Some(0), None).Failure?
  {
    var m1 := Written(Empty(2), Match(Some(0), Some(1)));
    assert !CrossesSome(Empty(2), Match(Some(0), Some(1)));
    assert Matches(m1) == {Match(Some(0), Some(1))} by {
      assert MatchOf(m1, 0) == Match(Some(0), Some(1));
      assert MatchOf(m1, 1) == Match(Some(0), Some(1));
    }
    assert !CrossesSome(m1, Match(Some(0), None));
    var m2 := Written(m1, Match(Some(0), None));
    assert m2.pred[1] == At(0) && m2.succ[0] != At(1);
  }

  /** At a position of `Written(m, p)` that is not internal, `get_match`
      reports `p` at the positions of `p` and the old match elsewhere. */
  lemma WrittenMatchOf(m: Matching, call: Option<int>, ret: Option<int>, x: nat)
    requires Sized(m) && Check(m, call, ret).Pass?
    requires x < |m.succ| && !InternalAt(Written(m, AsMatch(call, ret)), x)
    ensures var p := AsMatch(call, ret);
      if Some(x) == p.call || Some(x) == p.ret then MatchOf(Written(m, p), x) == p
      else !InternalAt(m, x) && MatchOf(Written(m, p), x) == MatchOf(m, x) && MatchOf(m, x) in Matches(m)
  {
  }

  lemma WrittenConsistent(m: Matching, call: Option<int>, ret: Option<int>)
    requires WellMatched(m) && Check(m, call, ret).Pass?
    ensures Consistent(Written(m, AsMatch(call, ret)))
  {
  }

  lemma WrittenSingleRoles(m: Matching, call: Option<int>, ret: Option<int>)
    requires WellMatched(m) && Check(m, call, ret).Pass?
    ensures SingleRoles(Written(m, AsMatch(call, ret)))
  {
    var p := AsMatch(call, ret);
    var m' := Written(m, p);
    forall i | 0 <= i < |m'.succ|
      ensures !(CallAt(m', i) && ReturnAt(m', i))
    {
      assert RolesFree(m, p);
      if Some(i) == p.call {
        assert m.pred[i] == Unset;
        assert p.ret != Some(i);
        assert m'.pred[i] == m.pred[i];
      } else if Some(i) == p.ret {
        assert m.succ[i] == Unset;
        assert m'.succ[i] == m.succ[i];
      } else {
        assert m'.succ[i] == m.succ[i] && m'.pred[i] == m.pred[i];
        assert !(CallAt(m, i) && ReturnAt(m, i));
      }
    }
  }

  lemma WrittenNonCrossing(m: Matching, call: Option<int>, ret: Option<int>)
    requires WellMatched(m) && Check(m, call, ret).Pass?
    ensures NonCrossing(Written(m, AsMatch(call, ret)))
  {
    var p := AsMatch(call, ret);
    var m' := Written(m, p);
    forall x, y | 0 <= x < |m'.succ| && 0 <= y < |m'.succ| && !InternalAt(m', x) && !InternalAt(m', y)
      ensures !Crosses(MatchOf(m', x), MatchOf(m', y))
    {
      WrittenMatchOf(m, call, ret, x);
      WrittenMatchOf(m, call, ret, y);
      CrossesSymmetric(MatchOf(m', x), MatchOf(m', y));
    }
  }

  /** The corrected `set_match` keeps a matching relation well matched. */
  lemma SetMatchedKeepsWellMatched(m: Matching, call: Option<int>, ret: Option<int>)
    requires WellMatched(m) && SetMatched(m, call, ret).Success?
    ensures WellMatched(SetMatched(m, call, ret).value)
  {
    WrittenConsistent(m, call, ret);
    WrittenSingleRoles(m, call, ret);
    WrittenNonCrossing(m, call, ret);
  }

  /** `remove_match(i)`: Python's `is_internal(i)` indexes the lists, so an `i`
      outside [-length, length) raises IndexError; a negative `i` inside it then
      reaches `get_match` (or the internal-position error) and raises
      ValueError; otherwise both sides of the position's match become `-1`
      (in a consistent relation both sides lie inside the lists). */
  function RemovedMatch(m: Matching, i: int): (r: Result<Matching>)
    requires Sized(m)
    ensures r.Success? ==> Sized(r.value) && |r.value.succ| == |m.succ|
  {
    var n := |m.succ|;
    if !(-n <= i < n) then Failure(IndexError("list index out of range"))
    else if i < 0 then
      (if InternalAt(m, i + n) then Failure(ValueError("position is an internal position"))
       else Failure(ValueError("position is out of bounds")))
    else if InternalAt(m, i) then Failure(ValueError("position is an internal position"))
    else
      var q := MatchOf(m, i);
      Success(Matching(
        if q.call.Some? && q.call.value < n then m.succ[q.call.value := Unset] else m.succ,
        if q.ret.Some? && q.ret.value < n then m.pred[q.ret.value := Unset] else m.pred))
  }

  /** `remove_match` raises exactly outside [0, length) and at internal positions. */
  lemma RemovedMatchFails(m: Matching, i: int)
    requires Sized(m)
    ensures RemovedMatch(m, i).Failure? <==> !(0 <= i < |m.succ|) || InternalAt(m, i)
    ensures RemovedMatch(m, i).Failure? ==>
      (RemovedMatch(m, i).error.IndexError? <==> !(-|m.succ| <= i < |m.succ|))
  {
  }

  /** `m'` is `m` with some positions made internal. */
  predicate Agrees(m': Matching, m: Matching)
    requires Sized(m') && Sized(m)
  {
    |m'.succ| == |m.succ| &&
    forall x :: 0 <= x < |m'.succ| && !InternalAt(m', x) ==> m'.succ[x] == m.succ[x] && m'.pred[x] == m.pred[x]
  }

  lemma AgreesKeepsSingleRoles(m': Matching, m: Matching)
    requires Sized(m') && Sized(m) && Agrees(m', m) && SingleRoles(m)
    ensures SingleRoles(m')
  {
    forall x | 0 <= x < |m'.succ|
      ensures !(CallAt(m', x) && ReturnAt(m', x))
    {
      if !InternalAt(m', x) {
        assert !(CallAt(m, x) && ReturnAt(m, x));
      }
    }
  }

  lemma AgreesKeepsNonCrossing(m': Matching, m: Matching)
    requires Sized(m') && Sized(m) && Agrees(m', m) && NonCrossing(m)
    ensures NonCrossing(m')
  {
    forall x, y | 0 <= x < |m'.succ| && 0 <= y < |m'.succ| && !InternalAt(m', x) && !InternalAt(m', y)
      ensures !Crosses(MatchOf(m', x), MatchOf(m', y))
    {
      assert MatchOf(m', x) == MatchOf(m, x) && MatchOf(m', y) == MatchOf(m, y);
    }
  }

  /** Removing a match changes only its two ends, which become internal. */
  lemma RemovedMatchFrame(m: Matching, i: nat)
    requires Consistent(m) && SingleRoles(m) && i < |m.succ| && !InternalAt(m, i)
    ensures var q := MatchOf(m, i);
      var m' := RemovedMatch(m, i).value;
      && (q.call.Some? ==> q.call.value < |m.succ| && InternalAt(m', q.call.value))
      && (q.ret.Some? ==> q.ret.value < |m.succ| && InternalAt(m', q.ret.value))
      && (forall x :: 0 <= x < |m.succ| && Some(x) != q.call && Some(x) != q.ret ==>
            m'.succ[x] == m.succ[x] && m'.pred[x] == m.pred[x])
  {
    assert !(CallAt(m, i) && ReturnAt(m, i));
    var q := MatchOf(m, i);
    if q.call.Some? && q.call.value != i {
      assert !(CallAt(m, q.call.value) && ReturnAt(m, q.call.value));
    }
    if q.ret.Some? && q.ret.value != i {
      assert !(CallAt(m, q.ret.value) && ReturnAt(m, q.ret.value));
    }
  }

  lemma RemovedMatchConsistent(m: Matching, i: nat)
    requires Consistent(m) && SingleRoles(m) && i < |m.succ| && !InternalAt(m, i)
    ensures Consistent(RemovedMatch(m, i).value)
  {
    RemovedMatchFrame(m, i);
  }

  /** Removing a match turns both of its ends into internal positions and
      changes nothing else; the relation stays well matched. */
  lemma RemovedMatchEffect(m: Matching, i: nat)
    requires WellMatched(m) && i < |m.succ| && !InternalAt(m, i)
    ensures var q := MatchOf(m, i);
      var m' := RemovedMatch(m, i).value;
      && (q.call.Some? ==> InternalAt(m', q.call.value))
      && (q.ret.Some? ==> InternalAt(m', q.ret.value))
      && (forall x :: 0 <= x < |m.succ| && Some(x) != q.call && Some(x) != q.ret ==>
            m'.succ[x] == m.succ[x] && m'.pred[x] == m.pred[x])
      && WellMatched(m')
  {
    var m' := RemovedMatch(m, i).value;
    RemovedMatchFrame(m, i);
    RemovedMatchConsistent(m, i);
    assert Agrees(m', m);
    AgreesKeepsSingleRoles(m', m);
    AgreesKeepsNonCrossing(m', m);
  }

  /** Removing a match just set restores the relation it was set in. */
  lemma SetThenRemove(m: Matching, call: Option<int>, ret: Option<int>, i: nat)
    requires WellMatched(m) && SetMatched(m, call, ret).Success?
    requires call.Some? ==> InternalAt(m, call.value)
    requires ret.Some? ==> InternalAt(m, ret.value)
    requires Some(i as int) == call || Some(i as int) == ret
    ensures RemovedMatch(SetMatched(m, call, ret).value, i) == Success(m)
  {
    SetMatchedKeepsWellMatched(m, call, ret);
    var m' := SetMatched(m, call, ret).value;
    SetMatchedEffect(m, call, ret);
    var r := RemovedMatch(m', i).value;
    assert r.succ == m.succ;
    assert r.pred == m.pred;
  }

  /** `extend(k)`: k internal positions appended. */
  function Extended(m: Matching, k: nat): (m': Matching)
    requires Sized(m)
    ensures Sized(m') && |m'.succ| == |m.succ| + k
    ensures m'.succ[..|m.succ|] == m.succ && m'.pred[..|m.pred|] == m.pred
    ensures forall i :: |m.succ| <= i < |m'.succ| ==> InternalAt(m', i)
  {
    Matching(m.succ + seq(k, _ => Unset), m.pred + seq(k, _ => Unset))
  }

  lemma ExtendedAgrees(m: Matching, k: nat, x: nat)
    requires Sized(m) && x < |m.succ|
    ensures Extended(m, k).succ[x] == m.succ[x] && Extended(m, k).pred[x] == m.pred[x]
  {
    assert Extended(m, k).succ[x] == Extended(m, k).succ[..|m.succ|][x];
    assert Extended(m, k).pred[x] == Extended(m, k).pred[..|m.pred|][x];
  }

  lemma ExtendedSameMatches(m: Matching, k: nat)
    requires Sized(m)
    ensures Matches(Extended(m, k)) == Matches(m)
  {
    var m' := Extended(m, k);
    forall q | q in Matches(m')
      ensures q in Matches(m)
    {
      var x :| 0 <= x < |m'.succ| && !InternalAt(m', x) && MatchOf(m', x) == q;
      ExtendedAgrees(m, k, x);
      assert MatchOf(m, x) == q;
    }
    forall q | q in Matches(m)
      ensures q in Matches(m')
    {
      var x :| 0 <= x < |m.succ| && !InternalAt(m, x) && MatchOf(m, x) == q;
      ExtendedAgrees(m, k, x);
      assert MatchOf(m', x) == q;
    }
  }

  lemma ExtendedConsistent(m: Matching, k: nat)
    requires Consistent(m)
    ensures Consistent(Extended(m, k))
  {
    forall x | 0 <= x < |m.succ|
      ensures Extended(m, k).succ[x] == m.succ[x] && Extended(m, k).pred[x] == m.pred[x]
    {
      ExtendedAgrees(m, k, x);
    }
  }

  lemma ExtendedNonCrossing(m: Matching, k: nat)
    requires Sized(m) && SingleRoles(m) && NonCrossing(m)
    ensures SingleRoles(Extended(m, k)) && NonCrossing(Extended(m, k))
  {
    var m' := Extended(m, k);
    forall x | 0 <= x < |m'.succ| && !InternalAt(m', x)
      ensures x < |m.succ| && !InternalAt(m, x) && MatchOf(m', x) == MatchOf(m, x)
      ensures !(CallAt(m', x) && ReturnAt(m', x))
    {
      ExtendedAgrees(m, k, x);
    }
  }

  /** Extending keeps every match and adds none. */
  lemma ExtendedKeepsMatches(m: Matching, k: nat)
    requires WellMatched(m)
    ensures WellMatched(Extended(m, k))
    ensures Matches(Extended(m, k)) == Matches(m)
  {
    ExtendedConsistent(m, k);
    ExtendedNonCrossing(m, k);
    ExtendedSameMatches(m, k);
  }

  /** The bounds of `[start:stop]`: missing bounds default to the whole
      relation; a negative start, a stop beyond the length or a start after
      the stop raises (no negative index is counted from the end). */
  function SliceBounds(n: nat, start: Option<int>, stop: Option<int>): (r: Result<(nat, nat)>)
    ensures r.Success? <==>
      var a := if start.Some? then start.value else 0;
      var b := if stop.Some? then stop.value else n;
      0 <= a <= b <= n
    ensures r.Success? ==> r.value.0 <= r.value.1 <= n
    ensures r.Success? ==> r.value.0 == (if start.Some? then start.value else 0)
    ensures r.Success? ==> r.value.1 == (if stop.Some? then stop.value else n)
    ensures r.Failure? ==> r.error.ValueError?
  {
    var a := if start.Some? then start.value else 0;
    var b := if stop.Some? then stop.value else n;
    if a < 0 || b > n || a > b then Failure(ValueError("slice is out of bounds"))
    else Success((a as nat, b as nat))
  }

  /** A position of the relation seen from the slice [a, b): shifted by `a`
      when inside, `None` when outside. */
  function Inside(o: Option<nat>, a: nat, b: nat): (r: Option<nat>)
    ensures r.Some? <==> o.Some? && a <= o.value < b
    ensures r.Some? ==> r.value == o.value - a
  {
    if o.Some? && a <= o.value < b then Some(o.value - a) else None
  }

  /** A match seen from the slice [a, b): an end outside becomes pending. */
  function Window(q: Match, a: nat, b: nat): Match
  {
    Match(Inside(q.call, a, b), Inside(q.ret, a, b))
  }

  /** A list entry seen from the slice [a, b). */
  function Shift(l: Link, a: nat, b: nat): (r: Link)
    ensures (r == Unset) <==> (l == Unset)
    ensures l != Unset ==> Partner(r) == Inside(Partner(l), a, b)
  {
    match l
    case Unset => Unset
    case Pending => Pending
    case At(p) => if a <= p < b then At(p - a) else Pending
  }

  /** The relation `m[a:b]` builds, entry by entry. */
  function Sliced(m: Matching, a: nat, b: nat): (s: Matching)
    requires Sized(m) && a <= b <= |m.succ|
    ensures Sized(s) && |s.succ| == b - a
  {
    Matching(seq(b - a, x requires 0 <= x < b - a => Shift(m.succ[a + x], a, b)),
             seq(b - a, x requires 0 <= x < b - a => Shift(m.pred[a + x], a, b)))
  }

  /** Two matches that do not cross do not cross once both are seen from a
      slice that each has an end in. */
  lemma WindowKeepsApart(p: Match, q: Match, a: nat, b: nat)
    requires p.call.Some? && p.ret.Some? ==> p.call.value < p.ret.value
    requires q.call.Some? && q.ret.Some? ==> q.call.value < q.ret.value
    requires Window(p, a, b).call.Some? || Window(p, a, b).ret.Some?
    requires Window(q, a, b).call.Some? || Window(q, a, b).ret.Some?
    requires !Crosses(p, q)
    ensures !Crosses(Window(p, a, b), Window(q, a, b))
  {
  }

  /** A position of `m[a:b]` is internal exactly when it was in `m`; otherwise
      its match is the old one seen from the slice. */
  lemma SlicedMatchOf(m: Matching, a: nat, b: nat, x: nat)
    requires Consistent(m) && SingleRoles(m) && a <= b <= |m.succ| && x < b - a
    ensures InternalAt(Sliced(m, a, b), x) <==> InternalAt(m, a + x)
    ensures !InternalAt(m, a + x) ==> MatchOf(Sliced(m, a, b), x) == Window(MatchOf(m, a + x), a, b)
  {
    var s := Sliced(m, a, b);
    assert s.succ[x] == Shift(m.succ[a + x], a, b) && s.pred[x] == Shift(m.pred[a + x], a, b);
    assert !(CallAt(m, a + x) && ReturnAt(m, a + x));
  }

  lemma SlicedAt(m: Matching, a: nat, b: nat, x: nat)
    requires Sized(m) && a <= b <= |m.succ| && x < b - a
    ensures Sliced(m, a, b).succ[x] == Shift(m.succ[a + x], a, b)
    ensures Sliced(m, a, b).pred[x] == Shift(m.pred[a + x], a, b)
  {
  }

  lemma SlicedCallsBacked(m: Matching, a: nat, b: nat)
    requires Sized(m) && CallsBacked(m) && a <= b <= |m.succ|
    ensures CallsBacked(Sliced(m, a, b))
  {
    var s := Sliced(m, a, b);
    forall x | 0 <= x < |s.succ| && s.succ[x].At?
      ensures x < s.succ[x].pos < |s.succ| && s.pred[s.succ[x].pos] == At(x)
    {
      SlicedAt(m, a, b, x);
      var r := m.succ[a + x].pos;
      assert m.pred[r] == At(a + x);
      SlicedAt(m, a, b, r - a);
    }
  }

  lemma SlicedReturnsBacked(m: Matching, a: nat, b: nat)
    requires Sized(m) && ReturnsBacked(m) && a <= b <= |m.succ|
    ensures ReturnsBacked(Sliced(m, a, b))
  {
    var s := Sliced(m, a, b);
    forall j | 0 <= j < |s.pred| && s.pred[j].At?
      ensures s.pred[j].pos < |s.succ| && s.succ[s.pred[j].pos] == At(j)
    {
      SlicedAt(m, a, b, j);
      var c := m.pred[a + j].pos;
      assert m.succ[c] == At(a + j);
      SlicedAt(m, a, b, c - a);
    }
  }

  lemma SlicedConsistent(m: Matching, a: nat, b: nat)
    requires Consistent(m) && a <= b <= |m.succ|
    ensures Consistent(Sliced(m, a, b))
  {
    SlicedCallsBacked(m, a, b);
    SlicedReturnsBacked(m, a, b);
  }

  /** What each position of `m[a:b]` holds is the old match seen from the
      slice: the calls and returns inside keep their partners, a match with
      one end outside becomes pending, and internal positions stay internal. */
  lemma SlicedPositions(m: Matching, a: nat, b: nat)
    requires Consistent(m) && SingleRoles(m) && a <= b <= |m.succ|
    ensures forall x :: 0 <= x < b - a && InternalAt(m, a + x) ==> InternalAt(Sliced(m, a, b), x)
    ensures forall x :: 0 <= x < b - a && !InternalAt(m, a + x) ==>
      !InternalAt(Sliced(m, a, b), x) && MatchOf(Sliced(m, a, b), x) == Window(MatchOf(m, a + x), a, b)
  {
    forall x | 0 <= x < b - a
      ensures InternalAt(Sliced(m, a, b), x) <==> InternalAt(m, a + x)
      ensures !InternalAt(m, a + x) ==> MatchOf(Sliced(m, a, b), x) == Window(MatchOf(m, a + x), a, b)
    {
      SlicedMatchOf(m, a, b, x);
    }
  }

  lemma SlicedSingleRoles(m: Matching, a: nat, b: nat)
    requires Sized(m) && SingleRoles(m) && a <= b <= |m.succ|
    ensures SingleRoles(Sliced(m, a, b))
  {
    forall x | 0 <= x < b - a
      ensures !(CallAt(Sliced(m, a, b), x) && ReturnAt(Sliced(m, a, b), x))
    {
      SlicedAt(m, a, b, x);
      assert !(CallAt(m, a + x) && ReturnAt(m, a + x));
    }
  }

  /** Calls precede their returns in every reported match. */
  lemma MatchOfOrdered(m: Matching, x: nat)
    requires Consistent(m) && x < |m.succ| && !InternalAt(m, x)
    ensures var q := MatchOf(m, x);
      q.call.Some? && q.ret.Some? ==> q.call.value < q.ret.value
  {
    if !CallAt(m, x) && m.pred[x].At? {
      assert m.succ[m.pred[x].pos] == At(x);
    }
  }

  lemma SlicedPairApart(m: Matching, a: nat, b: nat, x: nat, y: nat)
    requires Consistent(m) && a <= b <= |m.succ| && x < b - a && y < b - a
    requires !InternalAt(m, a + x) && !InternalAt(m, a + y)
    requires !Crosses(MatchOf(m, a + x), MatchOf(m, a + y))
    ensures !Crosses(Window(MatchOf(m, a + x), a, b), Window(MatchOf(m, a + y), a, b))
  {
    MatchOfOrdered(m, a + x);
    MatchOfOrdered(m, a + y);
    WindowKeepsApart(MatchOf(m, a + x), MatchOf(m, a + y), a, b);
  }

  lemma SlicedNonCrossing(m: Matching, a: nat, b: nat)
    requires WellMatched(m) && a <= b <= |m.succ|
    ensures NonCrossing(Sliced(m, a, b))
  {
    var s := Sliced(m, a, b);
    SlicedPositions(m, a, b);
    forall x, y | 0 <= x < |s.succ| && 0 <= y < |s.succ| && !InternalAt(s, x) && !InternalAt(s, y)
      ensures !Crosses(MatchOf(s, x), MatchOf(s, y))
    {
      SlicedPairApart(m, a, b, x, y);
    }
  }

  /** `m[a:b]` is well matched. */
  lemma SlicedWellMatched(m: Matching, a: nat, b: nat)
    requires WellMatched(m) && a <= b <= |m.succ|
    ensures WellMatched(Sliced(m, a, b))
  {
    SlicedConsistent(m, a, b);
    SlicedSingleRoles(m, a, b);
    SlicedNonCrossing(m, a, b);
  }

  // Relations written one after the other

  /** A position `n` places further on. */
  function Lifted(o: Option<nat>, n: nat): (r: Option<nat>)
    ensures r.Some? <==> o.Some?
    ensures r.Some? ==> r.value == o.value + n
  {
    if o.Some? then Some(o.value + n) else None
  }

  /** A match `n` places further on. */
  function Raised(q: Match, n: nat): Match
  {
    Match(Lifted(q.call, n), Lifted(q.ret, n))
  }

  /** An entry of a relation that now follows `n` positions. */
  function Moved(l: Link, n: nat): (r: Link)
    ensures (r == Unset) <==> (l == Unset)
    ensures (r == Pending) <==> (l == Pending)
    ensures l != Unset ==> Partner(r) == Lifted(Partner(l), n)
  {
    match l
    case At(p) => At(p + n)
    case _ => l
  }

  /** The relation of two words written one after the other: the entries of
      `m1`, then those of `m2` moved past them. */
  function Joined(m1: Matching, m2: Matching): (m: Matching)
    requires Sized(m1) && Sized(m2)
    ensures Sized(m) && |m.succ| == |m1.succ| + |m2.succ|
  {
    Matching(m1.succ + seq(|m2.succ|, x requires 0 <= x < |m2.succ| => Moved(m2.succ[x], |m1.succ|)),
             m1.pred + seq(|m2.pred|, x requires 0 <= x < |m2.pred| => Moved(m2.pred[x], |m1.succ|)))
  }

  lemma JoinedAt(m1: Matching, m2: Matching, x: nat)
    requires Sized(m1) && Sized(m2) && x < |m1.succ| + |m2.succ|
    ensures x < |m1.succ| ==> Joined(m1, m2).succ[x] == m1.succ[x] && Joined(m1, m2).pred[x] == m1.pred[x]
    ensures |m1.succ| <= x ==>
      Joined(m1, m2).succ[x] == Moved(m2.succ[x - |m1.succ|], |m1.succ|) &&
      Joined(m1, m2).pred[x] == Moved(m2.pred[x - |m1.succ|], |m1.succ|)
  {
  }

  /** No position of the relation is a pending return. */
  predicate NoPendingReturns(m: Matching)
  {
    forall j :: 0 <= j < |m.pred| ==> m.pred[j] != Pending
  }

  /** What a position of the joined relation holds: the match of `m1` in
      front, the match of `m2` moved past `m1` behind. */
  lemma JoinedMatchOf(m1: Matching, m2: Matching, x: nat)
    requires Sized(m1) && Sized(m2) && x < |m1.succ| + |m2.succ|
    ensures x < |m1.succ| ==> (InternalAt(Joined(m1, m2), x) <==> InternalAt(m1, x))
    ensures x < |m1.succ| && !InternalAt(m1, x) ==> MatchOf(Joined(m1, m2), x) == MatchOf(m1, x)
    ensures |m1.succ| <= x ==> (InternalAt(Joined(m1, m2), x) <==> InternalAt(m2, x - |m1.succ|))
    ensures |m1.succ| <= x && !InternalAt(m2, x - |m1.succ|) ==>
      MatchOf(Joined(m1, m2), x) == Raised(MatchOf(m2, x - |m1.succ|), |m1.succ|)
  {
    JoinedAt(m1, m2, x);
  }

  lemma JoinedCallBacked(m1: Matching, m2: Matching, x: nat)
    requires Sized(m1) && Sized(m2) && CallsBacked(m1) && CallsBacked(m2)
    requires x < |m1.succ| + |m2.succ| && Joined(m1, m2).succ[x].At?
    ensures x < Joined(m1, m2).succ[x].pos < |m1.succ| + |m2.succ|
    ensures Joined(m1, m2).pred[Joined(m1, m2).succ[x].pos] == At(x)
  {
    var m, n := Joined(m1, m2), |m1.succ|;
    JoinedAt(m1, m2, x);
    if x < n {
      assert m.succ[x] == m1.succ[x];
      JoinedCallBackedFront(m1, m2, x);
    } else {
      var l := m2.succ[x - n];
      assert l.At? && m.succ[x] == At(l.pos + n);
      JoinedCallBackedBack(m1, m2, x);
    }
  }

  lemma JoinedCallBackedFront(m1: Matching, m2: Matching, x: nat)
    requires Sized(m1) && Sized(m2) && CallsBacked(m1) && x < |m1.succ| && m1.succ[x].At?
    ensures x < m1.succ[x].pos < |m1.succ| && Joined(m1, m2).pred[m1.succ[x].pos] == At(x)
  {
    JoinedAt(m1, m2, m1.succ[x].pos);
  }

  lemma JoinedCallBackedBack(m1: Matching, m2: Matching, x: nat)
    requires Sized(m1) && Sized(m2) && CallsBacked(m2)
    requires |m1.succ| <= x < |m1.succ| + |m2.succ| && m2.succ[x - |m1.succ|].At?
    ensures var r := m2.succ[x - |m1.succ|].pos + |m1.succ|;
      x < r < |m1.succ| + |m2.succ| && Joined(m1, m2).pred[r] == At(x)
  {
    var n := |m1.succ|;
    var r := m2.succ[x - n].pos;
    assert x - n < r < |m2.succ| && m2.pred[r] == At(x - n);
    JoinedAt(m1, m2, r + n);
  }

  lemma JoinedReturnBacked(m1: Matching, m2: Matching, j: nat)
    requires Sized(m1) && Sized(m2) && ReturnsBacked(m1) && ReturnsBacked(m2)
    requires j < |m1.succ| + |m2.succ| && Joined(m1, m2).pred[j].At?
    ensures Joined(m1, m2).pred[j].pos < |m1.succ| + |m2.succ|
    ensures Joined(m1, m2).succ[Joined(m1, m2).pred[j].pos] == At(j)
  {
    var m, n := Joined(m1, m2), |m1.succ|;
    JoinedAt(m1, m2, j);
    if j < n {
      assert m.pred[j] == m1.pred[j];
      JoinedReturnBackedFront(m1, m2, j);
    } else {
      var l := m2.pred[j - n];
      assert l.At? && m.pred[j] == At(l.pos + n);
      JoinedReturnBackedBack(m1, m2, j);
    }
  }

  lemma JoinedReturnBackedFront(m1: Matching, m2: Matching, j: nat)
    requires Sized(m1) && Sized(m2) && ReturnsBacked(m1) && j < |m1.succ| && m1.pred[j].At?
    ensures m1.pred[j].pos < |m1.succ| && Joined(m1, m2).succ[m1.pred[j].pos] == At(j)
  {
    JoinedAt(m1, m2, m1.pred[j].pos);
  }

  lemma JoinedReturnBackedBack(m1: Matching, m2: Matching, j: nat)
    requires Sized(m1) && Sized(m2) && ReturnsBacked(m2)
    requires |m1.succ| <= j < |m1.succ| + |m2.succ| && m2.pred[j - |m1.succ|].At?
    ensures var c := m2.pred[j - |m1.succ|].pos + |m1.succ|;
      c < |m1.succ| + |m2.succ| && Joined(m1, m2).succ[c] == At(j)
  {
    var n := |m1.succ|;
    var c := m2.pred[j - n].pos;
    assert c < |m2.succ| && m2.succ[c] == At(j - n);
    JoinedAt(m1, m2, c + n);
  }

  lemma JoinedConsistent(m1: Matching, m2: Matching)
    requires Consistent(m1) && Consistent(m2)
    ensures Consistent(Joined(m1, m2))
  {
    var m := Joined(m1, m2);
    forall x | 0 <= x < |m.succ| && m.succ[x].At?
      ensures x < m.succ[x].pos < |m.succ| && m.pred[m.succ[x].pos] == At(x)
    {
      JoinedCallBacked(m1, m2, x);
    }
    forall j | 0 <= j < |m.pred| && m.pred[j].At?
      ensures m.pred[j].pos < |m.succ| && m.succ[m.pred[j].pos] == At(j)
    {
      JoinedReturnBacked(m1, m2, j);
    }
  }

  lemma JoinedSingleRoles(m1: Matching, m2: Matching)
    requires Sized(m1) && Sized(m2) && SingleRoles(m1) && SingleRoles(m2)
    ensures SingleRoles(Joined(m1, m2))
  {
    var m, n := Joined(m1, m2), |m1.succ|;
    forall x | 0 <= x < |m.succ|
      ensures !(CallAt(m, x) && ReturnAt(m, x))
    {
      JoinedAt(m1, m2, x);
      if x < n {
        assert !(CallAt(m1, x) && ReturnAt(m1, x));
      } else {
        assert !(CallAt(m2, x - n) && ReturnAt(m2, x - n));
      }
    }
  }

  /** Moving two matches by the same distance does not change whether they cross. */
  lemma RaisedCrosses(p: Match, q: Match, n: nat)
    ensures Crosses(Raised(p, n), Raised(q, n)) <==> Crosses(p, q)
  {
  }

  /** A match lying wholly before `n` never crosses one whose call lies at or after `n`. */
  lemma ApartAcross(p: Match, q: Match, n: nat)
    requires p.call.Some? ==> p.call.value < n
    requires p.ret.Some? ==> p.ret.value < n
    requires q.call.Some? && n <= q.call.value
    requires q.ret.Some? ==> n <= q.ret.value
    ensures !Crosses(p, q) && !Crosses(q, p)
  {
  }

  /** Every match of a relation without pending returns has its call. */
  lemma CalledMatch(m: Matching, x: nat)
    requires Consistent(m) && NoPendingReturns(m) && x < |m.succ| && !InternalAt(m, x)
    ensures MatchOf(m, x).call.Some?
    ensures MatchOf(m, x).ret.Some? ==> MatchOf(m, x).ret.value < |m.succ|
  {
  }

  /** The positions a match of a consistent relation names lie inside it. */
  lemma MatchOfInside(m: Matching, x: nat)
    requires Consistent(m) && x < |m.succ| && !InternalAt(m, x)
    ensures MatchOf(m, x).call.Some? ==> MatchOf(m, x).call.value < |m.succ|
    ensures MatchOf(m, x).ret.Some? ==> MatchOf(m, x).ret.value < |m.succ|
  {
  }

  lemma JoinedPairApart(m1: Matching, m2: Matching, x: nat, y: nat)
    requires WellMatched(m1) && WellMatched(m2) && NoPendingReturns(m2)
    requires x < |m1.succ| + |m2.succ| && y < |m1.succ| + |m2.succ|
    requires !InternalAt(Joined(m1, m2), x) && !InternalAt(Joined(m1, m2), y)
    ensures !Crosses(MatchOf(Joined(m1, m2), x), MatchOf(Joined(m1, m2), y))
  {
    var n := |m1.succ|;
    JoinedMatchOf(m1, m2, x);
    JoinedMatchOf(m1, m2, y);
    if x < n && y < n {
      assert !Crosses(MatchOf(m1, x), MatchOf(m1, y));
    } else if n <= x && n <= y {
      JoinedPairBehind(m1, m2, x - n, y - n);
    } else if x < n {
      JoinedPairAcross(m1, m2, x, y - n);
    } else {
      JoinedPairAcross(m1, m2, y, x - n);
    }
  }

  /** Two matches of the second relation do not cross once moved. */
  lemma JoinedPairBehind(m1: Matching, m2: Matching, x: nat, y: nat)
    requires Sized(m2) && NonCrossing(m2) && x < |m2.succ| && y < |m2.succ| && !InternalAt(m2, x) && !InternalAt(m2, y)
    ensures !Crosses(Raised(MatchOf(m2, x), |m1.succ|), Raised(MatchOf(m2, y), |m1.succ|))
  {
    assert !Crosses(MatchOf(m2, x), MatchOf(m2, y));
    RaisedCrosses(MatchOf(m2, x), MatchOf(m2, y), |m1.succ|);
  }

  /** A match of the first relation and a moved match of the second do not
      cross, in either order. */
  lemma JoinedPairAcross(m1: Matching, m2: Matching, x: nat, y: nat)
    requires Consistent(m1) && Consistent(m2) && NoPendingReturns(m2)
    requires x < |m1.succ| && y < |m2.succ| && !InternalAt(m1, x) && !InternalAt(m2, y)
    ensures !Crosses(MatchOf(m1, x), Raised(MatchOf(m2, y), |m1.succ|))
    ensures !Crosses(Raised(MatchOf(m2, y), |m1.succ|), MatchOf(m1, x))
  {
    MatchOfInside(m1, x);
    CalledMatch(m2, y);
    ApartAcross(MatchOf(m1, x), Raised(MatchOf(m2, y), |m1.succ|), |m1.succ|);
  }

  /** Writing a relation without pending returns after a well-matched one
      gives a well-matched relation: the pending calls of the first stay
      pending, since nothing in the second closes them. */
  lemma JoinedWellMatched(m1: Matching, m2: Matching)
    requires WellMatched(m1) && WellMatched(m2) && NoPendingReturns(m2)
    ensures WellMatched(Joined(m1, m2))
  {
    var m := Joined(m1, m2);
    JoinedConsistent(m1, m2);
    JoinedSingleRoles(m1, m2);
    forall x, y | 0 <= x < |m.succ| && 0 <= y < |m.succ| && !InternalAt(m, x) && !InternalAt(m, y)
      ensures !Crosses(MatchOf(m, x), MatchOf(m, y))
    {
      JoinedPairApart(m1, m2, x, y);
    }
  }

  /** What the slicing loop has set after visiting the first `k` positions of
      the slice `s`: a call is set at its own position, together with its
      return; a pending return is set at its own position. */
  function Built(s: Matching, k: nat): (r: Matching)
    requires Sized(s) && k <= |s.succ|
    ensures Sized(r) && |r.succ| == |s.succ|
  {
    Matching(
      seq(|s.succ|, x requires 0 <= x < |s.succ| => if x < k then s.succ[x] else Unset),
      seq(|s.pred|, x requires 0 <= x < |s.pred| =>
        if (if s.pred[x].At? then s.pred[x].pos < k else x < k) then s.pred[x] else Unset))
  }

  lemma BuiltAt(s: Matching, k: nat, x: nat)
    requires Sized(s) && k <= |s.succ| && x < |s.succ|
    ensures Built(s, k).succ[x] == if x < k then s.succ[x] else Unset
    ensures Built(s, k).pred[x] == if (if s.pred[x].At? then s.pred[x].pos < k else x < k) then s.pred[x] else Unset
  {
  }

  lemma BuiltEnds(s: Matching)
    requires Consistent(s)
    ensures Built(s, 0) == Empty(|s.succ|)
    ensures Built(s, |s.succ|) == s
  {
    var e, f := Built(s, 0), Built(s, |s.succ|);
    forall x | 0 <= x < |s.succ|
      ensures e.succ[x] == Unset && e.pred[x] == Unset
      ensures f.succ[x] == s.succ[x] && f.pred[x] == s.pred[x]
    {
      BuiltAt(s, 0, x);
      BuiltAt(s, |s.succ|, x);
    }
  }

  lemma BuiltAgrees(s: Matching, k: nat)
    requires Sized(s) && SingleRoles(s) && k <= |s.succ|
    ensures Agrees(Built(s, k), s)
  {
    forall x | 0 <= x < |s.succ| && !InternalAt(Built(s, k), x)
      ensures Built(s, k).succ[x] == s.succ[x] && Built(s, k).pred[x] == s.pred[x]
    {
      BuiltAt(s, k, x);
      assert !(CallAt(s, x) && ReturnAt(s, x));
    }
  }

  /** No match of `m'` crosses a match of `s` when `m'` agrees with `s` and `s` does not cross. */
  lemma AgreesNoCrossing(m': Matching, s: Matching, x: nat)
    requires Sized(m') && WellMatched(s) && Agrees(m', s)
    requires x < |s.succ| && !InternalAt(s, x)
    ensures !CrossesSome(m', MatchOf(s, x))
  {
    forall q | q in Matches(m')
      ensures !Crosses(MatchOf(s, x), q)
    {
      var y :| 0 <= y < |m'.succ| && !InternalAt(m', y) && MatchOf(m', y) == q;
      assert MatchOf(s, y) == q;
    }
  }

  /** What the slicing loop reads at position `a + k` of a consistent relation
      says about position `k` of its slice. */
  lemma SlicedRolesAt(m: Matching, a: nat, b: nat, k: nat)
    requires Consistent(m) && a + k < b <= |m.succ|
    ensures Sized(Sliced(m, a, b)) && k < |Sliced(m, a, b).succ|
    ensures CallAt(Sliced(m, a, b), k) <==> CallAt(m, a + k)
    ensures CallAt(m, a + k) ==>
      Partner(Sliced(m, a, b).succ[k]) ==
      if m.succ[a + k] == Pending || m.succ[a + k].pos - a >= b - a then None else Some(m.succ[a + k].pos - a)
    ensures ReturnAt(Sliced(m, a, b), k) <==> ReturnAt(m, a + k)
    ensures ReturnAt(m, a + k) ==>
      (Sliced(m, a, b).pred[k] == Pending <==> m.pred[a + k] == Pending || m.pred[a + k].pos - a < 0)
  {
    SlicedAt(m, a, b, k);
  }

  /** Visiting a call of the slice sets its match. */
  lemma BuiltCallStep(s: Matching, k: nat)
    requires WellMatched(s) && k < |s.succ| && CallAt(s, k)
    ensures SetMatched(Built(s, k), Some(k), Partner(s.succ[k])) == Success(Built(s, k + 1))
  {
    var b := Built(s, k);
    BuiltAgrees(s, k);
    AgreesNoCrossing(b, s, k);
    assert MatchOf(s, k) == AsMatch(Some(k), Partner(s.succ[k]));
    assert !ReturnAt(s, k);
    BuiltAt(s, k, k);
    if s.succ[k].At? {
      BuiltAt(s, k, s.succ[k].pos);
    }
    assert RolesFree(b, AsMatch(Some(k), Partner(s.succ[k])));
    assert Check(b, Some(k), Partner(s.succ[k])).Pass?;
    var w, b' := Written(b, AsMatch(Some(k), Partner(s.succ[k]))), Built(s, k + 1);
    forall x | 0 <= x < |s.succ|
      ensures w.succ[x] == b'.succ[x] && w.pred[x] == b'.pred[x]
    {
      BuiltAt(s, k, x);
      BuiltAt(s, k + 1, x);
    }
    assert w.succ == b'.succ && w.pred == b'.pred;
  }

  /** Visiting a pending return of the slice sets it. */
  lemma BuiltPendingReturnStep(s: Matching, k: nat)
    requires WellMatched(s) && k < |s.succ| && !CallAt(s, k) && s.pred[k] == Pending
    ensures SetMatched(Built(s, k), None, Some(k)) == Success(Built(s, k + 1))
  {
    var b := Built(s, k);
    BuiltAgrees(s, k);
    AgreesNoCrossing(b, s, k);
    assert MatchOf(s, k) == AsMatch(None, Some(k));
    BuiltAt(s, k, k);
    assert RolesFree(b, AsMatch(None, Some(k)));
    assert Check(b, None, Some(k)).Pass?;
    var w, b' := Written(b, AsMatch(None, Some(k))), Built(s, k + 1);
    forall x | 0 <= x < |s.succ|
      ensures w.succ[x] == b'.succ[x] && w.pred[x] == b'.pred[x]
    {
      BuiltAt(s, k, x);
      BuiltAt(s, k + 1, x);
    }
    assert w.succ == b'.succ && w.pred == b'.pred;
  }

  /** Visiting an internal position, or a return whose call lies in the
      slice, sets nothing new. */
  lemma BuiltQuietStep(s: Matching, k: nat)
    requires Consistent(s) && k < |s.succ| && !CallAt(s, k) && s.pred[k] != Pending
    ensures Built(s, k + 1) == Built(s, k)
  {
    var b, b' := Built(s, k), Built(s, k + 1);
    forall x | 0 <= x < |s.succ|
      ensures b.succ[x] == b'.succ[x] && b.pred[x] == b'.pred[x]
    {
      BuiltAt(s, k, x);
      BuiltAt(s, k + 1, x);
      if s.pred[x].At? && s.pred[x].pos == k {
        assert s.succ[k] == At(x);
      }
    }
  }

  /** `MatchingRelation(length, matching)`: the pairs are set one after the
      other, and the first that `set_match` rejects makes the constructor
      raise. Python iterates a set, so the model takes the pairs in a given order. */
  function FromMatches(n: nat, pairs: seq<(Option<int>, Option<int>)>): (r: Result<Matching>)
    ensures r.Success? ==> Sized(r.value) && |r.value.succ| == n
    decreases |pairs|
  {
    if pairs == [] then Success(Empty(n))
    else
      var m :- FromMatches(n, pairs[..|pairs| - 1]);
      SetMatched(m, pairs[|pairs| - 1].0, pairs[|pairs| - 1].1)
  }

  /** Every relation the constructor builds is well matched. */
  lemma {:induction false} FromMatchesWellMatched(n: nat, pairs: seq<(Option<int>, Option<int>)>)
    requires FromMatches(n, pairs).Success?
    ensures WellMatched(FromMatches(n, pairs).value)
    decreases |pairs|
  {
    if pairs == [] {
      EmptyWellMatched(n);
    } else {
      var init := pairs[..|pairs| - 1];
      FromMatchesWellMatched(n, init);
      SetMatchedKeepsWellMatched(FromMatches(n, init).value, pairs[|pairs| - 1].0, pairs[|pairs| - 1].1);
    }
  }

  /** Once a pair is rejected, the constructor raises that error. */
  lemma {:induction false} FromMatchesFailureStays(n: nat, pairs: seq<(Option<int>, Option<int>)>, k: nat)
    requires k <= |pairs| && FromMatches(n, pairs[..k]).Failure?
    ensures FromMatches(n, pairs) == FromMatches(n, pairs[..k])
    decreases |pairs| - k
  {
    if k < |pairs| {
      assert pairs[..k + 1][..k] == pairs[..k];
      FromMatchesFailureStays(n, pairs, k + 1);
    } else {
      assert pairs[..k] == pairs;
    }
  }

  class MatchingRelation {
    /** `_return_successors`. */
    var succ: seq<Link>
    /** `_call_predecessors`. */
    var pred: seq<Link>

    function Value(): Matching
      reads this
    {
      Matching(succ, pred)
    }

    predicate Valid()
      reads this
    {
      WellMatched(Value())
    }

    /** `MatchingRelation(length)`. */
    constructor (length: nat)
      ensures Valid() && Value() == Empty(length)
    {
      succ := seq(length, _ => Unset);
      pred := seq(length, _ => Unset);
      EmptyWellMatched(length);
    }

    /** `MatchingRelation(length, matching)`, raising when a pair is rejected. */
    static method Create(length: nat, matching: seq<(Option<int>, Option<int>)>) returns (r: Result<MatchingRelation>)
      ensures r.Success? <==> FromMatches(length, matching).Success?
      ensures r.Success? ==> fresh(r.value) && r.value.Valid() && r.value.Value() == FromMatches(length, matching).value
      ensures r.Failure? ==> r.error == FromMatches(length, matching).error
    {
      var mr := new MatchingRelation(length);
      for k := 0 to |matching|
        invariant fresh(mr) && mr.Valid()
        invariant FromMatches(length, matching[..k]) == Success(mr.Value())
      {
        assert matching[..k + 1][..k] == matching[..k];
        var res := mr.SetMatch(matching[k].0, matching[k].1);
        if res.Failure? {
          FromMatchesFailureStays(length, matching, k + 1);
          return Failure(res.error);
        }
      }
      assert matching[..|matching|] == matching;
      return Success(mr);
    }

    /** `__len__`. */
    function Length(): nat
      reads this
    {
      |succ|
    }

    predicate IsCall(i: nat)
      reads this
      requires Valid() && i < |succ|
    {
      CallAt(Value(), i)
    }

    predicate IsReturn(i: nat)
      reads this
      requires Valid() && i < |succ|
    {
      ReturnAt(Value(), i)
    }

    predicate IsInternal(i: nat)
      reads this
      requires Valid() && i < |succ|
    {
      InternalAt(Value(), i)
    }

    predicate IsPending(i: nat)
      reads this
      requires Valid() && i < |succ|
    {
      PendingAt(Value(), i)
    }

    /** `set_match(call, ret)`: on success the pair is returned. */
    method SetMatch(call: Option<int>, ret: Option<int>) returns (r: Result<(Option<int>, Option<int>)>)
      requires Valid()
      modifies this
      ensures Valid()
      ensures r.Success? <==> SetMatched(old(Value()), call, ret).Success?
      ensures r.Success? ==> r.value == (call, ret) && Value() == SetMatched(old(Value()), call, ret).value
      ensures r.Failure? ==> r.error == SetMatched(old(Value()), call, ret).error && Value() == old(Value())
    {
      var check := Check(Value(), call, ret);
      if check.Fail? {
        return Failure(check.error);
      }
      SetMatchedKeepsWellMatched(Value(), call, ret);
      var p := AsMatch(call, ret);
      if p.call.Some? {
        succ := succ[p.call.value := LinkTo(p.ret)];
      }
      if p.ret.Some? {
        pred := pred[p.ret.value := LinkTo(p.call)];
      }
      return Success((call, ret));
    }

    /** `get_match(i)`, also `self[i]`. */
    function GetMatch(i: int): Result<Option<Match>>
      reads this
      requires Valid()
    {
      ReportedMatch(Value(), i)
    }

    /** `get_matches`. */
    function GetMatches(): set<Match>
      reads this
      requires Valid()
    {
      Matches(Value())
    }

    /** `get_pending`. */
    function GetPending(): set<Match>
      reads this
      requires Valid()
    {
      PendingMatches(Value())
    }

    /** `get_pending_calls`. */
    function GetPendingCalls(): set<nat>
      reads this
      requires Valid()
    {
      PendingCalls(Value())
    }

    /** `get_pending_returns`. */
    function GetPendingReturns(): set<nat>
      reads this
      requires Valid()
    {
      PendingReturns(Value())
    }

    /** `remove_match(i)`. */
    method RemoveMatch(i: int) returns (r: Outcome)
      requires Valid()
      modifies this
      ensures Valid()
      ensures r.Pass? <==> RemovedMatch(old(Value()), i).Success?
      ensures r.Pass? ==> Value() == RemovedMatch(old(Value()), i).value
      ensures r.Fail? ==> r.error == RemovedMatch(old(Value()), i).error && Value() == old(Value())
    {
      var n := |succ|;
      if !(-n <= i < n) {
        return Fail(IndexError("list index out of range"));
      }
      if i < 0 {
        if InternalAt(Value(), i + n) {
          return Fail(ValueError("position is an internal position"));
        }
        return Fail(ValueError("position is out of bounds"));
      }
      if InternalAt(Value(), i) {
        return Fail(ValueError("position is an internal position"));
      }
      RemovedMatchEffect(Value(), i);
      var q := MatchOf(Value(), i);
      if q.call.Some? && q.call.value < n {
        succ := succ[q.call.value := Unset];
      }
      if q.ret.Some? && q.ret.value < n {
        pred := pred[q.ret.value := Unset];
      }
      return Pass;
    }

    /** `extend(length)`. */
    method Extend(length: nat)
      requires Valid()
      modifies this
      ensures Valid() && Value() == Extended(old(Value()), length)
    {
      ExtendedKeepsMatches(Value(), length);
      succ := succ + seq(length, _ => Unset);
      pred := pred + seq(length, _ => Unset);
    }

    /** `__eq__` between two matching relations: the same two lists, that
        is, the same relation. */
    predicate Equals(other: MatchingRelation): (r: bool)
      reads this, other
      ensures r <==> Value() == other.Value()
    {
      succ == other.succ && pred == other.pred
    }

    /** `self[start:stop]`: a fresh relation for the positions [start, stop). */
    method Slice(start: Option<int>, stop: Option<int>) returns (r: Result<MatchingRelation>)
      requires Valid()
      ensures r.Success? <==> SliceBounds(|succ|, start, stop).Success?
      ensures r.Failure? ==> r.error == SliceBounds(|succ|, start, stop).error
      ensures r.Success? ==>
        fresh(r.value) && r.value.Valid() &&
        r.value.Value() == Sliced(Value(), SliceBounds(|succ|, start, stop).value.0, SliceBounds(|succ|, start, stop).value.1)
    {
      var bounds := SliceBounds(|succ|, start, stop);
      if bounds.Failure? {
        return Failure(bounds.error);
      }
      var (a, b) := bounds.value;
      ghost var s := Sliced(Value(), a, b);
      SlicedWellMatched(Value(), a, b);
      BuiltEnds(s);
      var sub := new MatchingRelation(b - a);
      for k := 0 to b - a
        invariant fresh(sub) && sub.Valid() && sub.Value() == Built(s, k)
      {
        CopyPosition(Value(), a, b, sub, k);
      }
      return Success(sub);
    }

    /** One turn of the loop in `__getitem__` with a slice: position `a + k` of `m`
        is copied into `sub` when it is a call, or a return whose call lies
        before the slice or is pending. */
    static method CopyPosition(m: Matching, a: nat, b: nat, sub: MatchingRelation, k: nat)
      requires Consistent(m) && a + k < b <= |m.succ| && WellMatched(Sliced(m, a, b))
      requires sub.Valid() && sub.Value() == Built(Sliced(m, a, b), k)
      modifies sub
      ensures sub.Valid() && sub.Value() == Built(Sliced(m, a, b), k + 1)
    {
      ghost var s := Sliced(m, a, b);
      var pos := a + k;
      SlicedRolesAt(m, a, b, k);
      if CallAt(m, pos) {
        var ret: Option<int>;
        if m.succ[pos] == Pending {
          ret := None;
        } else {
          var returnPos := m.succ[pos].pos - a;
          ret := if returnPos >= b - a then None else Some(returnPos);
        }
        BuiltCallStep(s, k);
        var _ := sub.SetMatch(Some(k), ret);
      } else if ReturnAt(m, pos) {
        var call: Option<int>;
        if m.pred[pos] == Pending {
          call := None;
        } else {
          var callPos := m.pred[pos].pos - a;
          call := if callPos < 0 then None else Some(callPos);
        }
        if call == None {
          BuiltPendingReturnStep(s, k);
          var _ := sub.SetMatch(None, Some(k));
        } else {
          BuiltQuietStep(s, k);
        }
      } else {
        BuiltQuietStep(s, k);
      }
    }
  }
}
