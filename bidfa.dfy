/** Bidirectional deterministic finite automata
    (src/pbsf/utils/acceptors/bidfa.py): a DFA whose states are split into
    left states, which consume the first symbol of what remains of the
    sequence, and right states, which consume the last. */
module BiAutomata {
  import opened Wrappers
  import opened Automata

  /** The sequence read back to front. */
  function Reversed<T>(s: seq<T>): (r: seq<T>)
    ensures |r| == |s|
    ensures forall k :: 0 <= k < |s| ==> r[k] == s[|s| - 1 - k]
    decreases |s|
  {
    if s == [] then [] else [s[|s| - 1]] + Reversed(s[..|s| - 1])
  }

  /** Reading a sequence back to front twice gives it back. */
  lemma {:induction false} ReversedTwice<T>(s: seq<T>)
    ensures Reversed(Reversed(s)) == s
  {
    var r := Reversed(s);
    assert |Reversed(r)| == |s|;
    forall k | 0 <= k < |s|
      ensures Reversed(r)[k] == s[k]
    {
      assert Reversed(r)[k] == r[|s| - 1 - k];
    }
  }

  /** `swap` on the pair (left, right); a state on neither side is refused. */
  function SwapSides(sides: (set<int>, set<int>), state: int): (r: Result<(set<int>, set<int>)>)
    ensures r.Success? <==> state in sides.0 + sides.1
    ensures r.Failure? ==> r.error.ValueError?
  {
    if state in sides.0 then Success((sides.0 - {state}, sides.1 + {state}))
    else if state in sides.1 then Success((sides.0 + {state}, sides.1 - {state}))
    else Failure(ValueError("not a valid state identifier"))
  }

  /** A swap keeps the two sides a partition of the same states and moves
      exactly the swapped state across. */
  lemma SwapKeepsPartition(sides: (set<int>, set<int>), state: int)
    requires sides.0 !! sides.1
    ensures var r := SwapSides(sides, state);
      r.Success? ==>
        r.value.0 !! r.value.1 && r.value.0 + r.value.1 == sides.0 + sides.1 &&
        (state in sides.0 <==> state in r.value.1) &&
        (forall q :: q != state ==> (q in r.value.0 <==> q in sides.0))
  {
  }

  /** Swapping a state twice restores both sides. */
  lemma SwapTwice(sides: (set<int>, set<int>), state: int)
    requires sides.0 !! sides.1
    requires state in sides.0 + sides.1
    ensures SwapSides(sides, state).Success?
    ensures SwapSides(SwapSides(sides, state).value, state) == Success(sides)
  {
    var r := SwapSides(sides, state).value;
    if state in sides.0 {
      assert r.0 + {state} == sides.0 && r.1 - {state} == sides.1;
    } else {
      assert r.0 - {state} == sides.0 && r.1 + {state} == sides.1;
    }
  }

  class BiDFA {
    /** The automaton the biDFA extends. */
    const dfa: DFA
    var left: set<int>
    var right: set<int>

    /** The underlying DFA is coherent, its initial state exists, and the
        left and right states partition its states. */
    ghost predicate Valid()
      reads this, dfa
    {
      dfa.Valid() && dfa.initial in dfa.states.inv &&
      left !! right && left + right == dfa.states.inv.Keys
    }

    /** `__init__`: the DFA's initial state 0 is a left state. */
    constructor (name: Option<string>)
      ensures Valid() && fresh(dfa)
      ensures left == {0} && right == {}
      ensures dfa.name == name && dfa.initial == 0 && dfa.final == {} && dfa.transitions == map[]
      ensures dfa.states == Bidict(map[NoneObj := 0], map[0 := NoneObj])
      ensures dfa.alphabet == Bidict(map[], map[])
    {
      dfa := new DFA(name);
      left := {0};
      right := {};
    }

    /** `add_left` (and `add_state`, which is the same call): a new state of
        the DFA, placed on the left. */
    method AddLeft(state: Obj) returns (r: Result<int>)
      requires Valid()
      modifies this, dfa
      ensures Valid() && right == old(right)
      ensures dfa.alphabet == old(dfa.alphabet) && dfa.initial == old(dfa.initial)
      ensures dfa.final == old(dfa.final) && dfa.transitions == old(dfa.transitions)
      ensures var key := if state == NoneObj then IntObj(dfa.freeIdentifier) else state;
        r.Success? <==> key !in old(dfa.states).fwd
      ensures r.Failure? ==> r.error.ValueError? && dfa.states == old(dfa.states) && left == old(left)
      ensures r.Success? ==>
        r.value !in old(dfa.states).inv && left == old(left) + {r.value} &&
        Extends(old(dfa.states), dfa.states) &&
        dfa.states.inv.Keys == old(dfa.states).inv.Keys + {r.value} &&
        dfa.states.fwd.Keys == old(dfa.states).fwd.Keys + {if state == NoneObj then IntObj(r.value) else state} &&
        (state != NoneObj ==> state in dfa.states.fwd && dfa.states.fwd[state] == r.value)
    {
      ghost var before := dfa.states;
      r := dfa.AddState(state);
      if r.Success? {
        PutFresh(before, if state == NoneObj then IntObj(r.value) else state, r.value);
        left := left + {r.value};
      }
    }

    /** `add_right`: a new state of the DFA, placed on the right. */
    method AddRight(state: Obj) returns (r: Result<int>)
      requires Valid()
      modifies this, dfa
      ensures Valid() && left == old(left)
      ensures dfa.alphabet == old(dfa.alphabet) && dfa.initial == old(dfa.initial)
      ensures dfa.final == old(dfa.final) && dfa.transitions == old(dfa.transitions)
      ensures var key := if state == NoneObj then IntObj(dfa.freeIdentifier) else state;
        r.Success? <==> key !in old(dfa.states).fwd
      ensures r.Failure? ==> r.error.ValueError? && dfa.states == old(dfa.states) && right == old(right)
      ensures r.Success? ==>
        r.value !in old(dfa.states).inv && right == old(right) + {r.value} &&
        Extends(old(dfa.states), dfa.states) &&
        dfa.states.inv.Keys == old(dfa.states).inv.Keys + {r.value} &&
        dfa.states.fwd.Keys == old(dfa.states).fwd.Keys + {if state == NoneObj then IntObj(r.value) else state} &&
        (state != NoneObj ==> state in dfa.states.fwd && dfa.states.fwd[state] == r.value)
    {
      ghost var before := dfa.states;
      r := dfa.AddState(state);
      if r.Success? {
        PutFresh(before, if state == NoneObj then IntObj(r.value) else state, r.value);
        right := right + {r.value};
      }
    }

    /** `add_states`: refuses the whole list if one object is already a
        state; otherwise adds them in order as left states. */
    method AddStates(objs: seq<Obj>) returns (r: Result<seq<int>>)
      requires Valid()
      modifies this, dfa
      ensures Valid() && right == old(right)
      ensures dfa.alphabet == old(dfa.alphabet) && dfa.initial == old(dfa.initial)
      ensures dfa.final == old(dfa.final) && dfa.transitions == old(dfa.transitions)
      ensures (exists k :: 0 <= k < |objs| && objs[k] in old(dfa.states).fwd) ==>
        r.Failure? && dfa.states == old(dfa.states) && left == old(left)
      ensures r.Failure? ==> r.error.ValueError?
      ensures (forall k :: 0 <= k < |objs| ==> objs[k] != NoneObj) ==>
        (r.Success? <==>
          (forall k :: 0 <= k < |objs| ==> objs[k] !in old(dfa.states).fwd) &&
          (forall j, k :: 0 <= j < k < |objs| ==> objs[j] != objs[k]))
      ensures r.Success? ==>
        |r.value| == |objs| && (forall q :: q in left <==> q in old(left) || q in r.value) &&
        (forall k :: 0 <= k < |objs| ==> r.value[k] !in old(dfa.states).inv) &&
        (forall j, k :: 0 <= j < k < |objs| ==> r.value[j] != r.value[k]) &&
        (forall k :: 0 <= k < |objs| && objs[k] != NoneObj ==>
          objs[k] in dfa.states.fwd && dfa.states.fwd[objs[k]] == r.value[k])
    {
      for k := 0 to |objs|
        invariant forall j :: 0 <= j < k ==> objs[j] !in dfa.states.fwd
      {
        if objs[k] in dfa.states.fwd {
          return Failure(ValueError("already associated to a state"));
        }
      }
      r := AddEachLeft(objs);
    }

    /** The list comprehension of `add_states`: one `add_state` per object. */
    method AddEachLeft(objs: seq<Obj>) returns (r: Result<seq<int>>)
      requires Valid()
      requires forall k :: 0 <= k < |objs| ==> objs[k] !in dfa.states.fwd
      modifies this, dfa
      ensures Valid() && right == old(right)
      ensures dfa.alphabet == old(dfa.alphabet) && dfa.initial == old(dfa.initial)
      ensures dfa.final == old(dfa.final) && dfa.transitions == old(dfa.transitions)
      ensures r.Failure? ==> r.error.ValueError?
      ensures (forall k :: 0 <= k < |objs| ==> objs[k] != NoneObj) ==>
        (r.Success? <==> forall j, k :: 0 <= j < k < |objs| ==> objs[j] != objs[k])
      ensures r.Success? ==>
        |r.value| == |objs| && (forall q :: q in left <==> q in old(left) || q in r.value) &&
        (forall k :: 0 <= k < |objs| ==> r.value[k] !in old(dfa.states).inv) &&
        (forall j, k :: 0 <= j < k < |objs| ==> r.value[j] != r.value[k]) &&
        (forall k :: 0 <= k < |objs| && objs[k] != NoneObj ==>
          objs[k] in dfa.states.fwd && dfa.states.fwd[objs[k]] == r.value[k])
    {
      ghost var before := dfa.states;
      var ids: seq<int> := [];
      for k := 0 to |objs|
        invariant Valid() && right == old(right)
        invariant dfa.alphabet == old(dfa.alphabet) && dfa.initial == old(dfa.initial)
        invariant dfa.final == old(dfa.final) && dfa.transitions == old(dfa.transitions)
        invariant |ids| == k && AddedLeft(objs, ids, before, old(left), dfa.states, left)
      {
        var next := AddNextLeft(objs, ids, before, old(left));
        if next.Failure? {
          return Failure(next.error);
        }
        ids := next.value;
      }
      return Success(ids);
    }

    /** One call of the comprehension of `add_states`: the next object is
        refused only when the objects are named and it repeats an earlier one. */
    method AddNextLeft(objs: seq<Obj>, ids: seq<int>, ghost before: Bidict, ghost left0: set<int>)
      returns (r: Result<seq<int>>)
      requires Valid() && |ids| < |objs| && AddedLeft(objs, ids, before, left0, dfa.states, left)
      requires objs[|ids|] !in before.fwd
      modifies this, dfa
      ensures Valid() && right == old(right)
      ensures dfa.alphabet == old(dfa.alphabet) && dfa.initial == old(dfa.initial)
      ensures dfa.final == old(dfa.final) && dfa.transitions == old(dfa.transitions)
      ensures r.Failure? ==> r.error.ValueError?
      ensures r.Failure? && (forall j :: 0 <= j < |objs| ==> objs[j] != NoneObj) ==>
        objs[|ids|] in objs[..|ids|]
      ensures r.Success? ==>
        |r.value| == |ids| + 1 && AddedLeft(objs, r.value, before, left0, dfa.states, left)
    {
      ghost var current := dfa.states;
      ghost var sides := left;
      var id := AddLeft(objs[|ids|]);
      if id.Failure? {
        AddedLeftRefused(objs, ids, before, left0, current, sides);
        return Failure(id.error);
      }
      AddedLeftStep(objs, ids, before, left0, current, sides, id.value, dfa.states, left);
      r := Success(ids + [id.value]);
    }

    /** `swap`: a left state becomes a right state and vice versa. */
    method Swap(state: int) returns (r: Outcome)
      requires Valid()
      modifies this`left, this`right
      ensures Valid()
      ensures var s := SwapSides((old(left), old(right)), state);
        (r.Pass? <==> s.Success?) &&
        (r.Pass? ==> (left, right) == s.value) &&
        (r.Fail? ==> r.error == s.error && left == old(left) && right == old(right))
    {
      SwapKeepsPartition((left, right), state);
      if state in left {
        left := left - {state};
        right := right + {state};
      } else if state in right {
        right := right - {state};
        left := left + {state};
      } else {
        return Fail(ValueError("not a valid state identifier"));
      }
      return Pass;
    }

    /** `add_symbol`, inherited with the correction of `Automata.DFA.AddSymbol`:
        the biDFA's states and sides are untouched. */
    method AddSymbol(symbol: Obj) returns (r: Result<int>)
      requires Valid()
      modifies dfa
      ensures Valid()
      ensures dfa.states == old(dfa.states) && dfa.initial == old(dfa.initial)
      ensures dfa.final == old(dfa.final) && dfa.transitions == old(dfa.transitions)
      ensures var key := if symbol == NoneObj then IntObj(dfa.freeIdentifier) else symbol;
        (r.Success? <==> key !in old(dfa.alphabet).fwd) &&
        (r.Success? ==>
           r.value !in old(dfa.alphabet).inv && r.value !in dfa.states.inv &&
           dfa.alphabet == Put(old(dfa.alphabet), key, r.value))
      ensures r.Failure? ==> r.error.ValueError? && dfa.alphabet == old(dfa.alphabet)
    {
      r := dfa.AddSymbol(symbol);
    }

    /** `set_transition`, inherited. */
    method SetTransition(s1: int, s2: int, symbol: int) returns (r: Outcome)
      requires Valid()
      modifies dfa`transitions
      ensures Valid()
      ensures r.Pass? <==>
        s1 in dfa.states.inv && s2 in dfa.states.inv && symbol in dfa.alphabet.inv &&
        (s1, symbol) !in old(dfa.transitions)
      ensures r.Fail? ==> r.error.ValueError? && dfa.transitions == old(dfa.transitions)
      ensures r.Pass? ==> dfa.transitions == old(dfa.transitions)[(s1, symbol) := s2]
    {
      r := dfa.SetTransition(s1, s2, symbol);
    }

    /** The behaviour of `follow`: a left state consumes the first remaining
        symbol and any other state the last one; the walk stops with the
        empty set at the first missing transition. An empty sequence gives
        the start state back without looking it up. */
    function BiRun(state: int, symbols: seq<int>): (r: Result<set<int>>)
      reads this, dfa
      decreases |symbols|
    {
      if symbols == [] then Success({state})
      else
        var fromLeft := state in left;
        var current := if fromLeft then symbols[0] else symbols[|symbols| - 1];
        var rest := if fromLeft then symbols[1..] else symbols[..|symbols| - 1];
        var reached :- dfa.Step(state, current);
        if reached == {} then Success({})
        else BiRun(dfa.transitions[(state, current)], rest)
    }

    /** `follow`. */
    method Follow(state: int, sequence: seq<int>) returns (r: Result<set<int>>)
      requires Valid()
      ensures r == BiRun(state, sequence)
    {
      var symbols := sequence;
      var q := state;
      while |symbols| > 0
        invariant BiRun(state, sequence) == BiRun(q, symbols)
        decreases |symbols|
      {
        var current;
        if q in left {
          current := symbols[0];
          symbols := symbols[1..];
        } else {
          current := symbols[|symbols| - 1];
          symbols := symbols[..|symbols| - 1];
        }
        var stateSet := dfa.Step(q, current);
        if stateSet.Failure? {
          return Failure(stateSet.error);
        }
        if stateSet.value == {} {
          return Success({});
        }
        q := dfa.transitions[(q, current)];
      }
      return Success({q});
    }

    /** The DFA's own walk over symbol identifiers, first symbol first. */
    function Forward(state: int, symbols: seq<int>): (r: Result<set<int>>)
      reads this, dfa
      decreases |symbols|
    {
      if symbols == [] then Success({state})
      else
        var reached :- dfa.Step(state, symbols[0]);
        if reached == {} then Success({})
        else Forward(dfa.transitions[(state, symbols[0])], symbols[1..])
    }

    /** The verdict of `accept`: a sequence with an identifier outside the
        alphabet is rejected outright, otherwise it is followed from the
        initial state. */
    function Accepts(sequence: seq<int>): (r: bool)
      reads this, dfa
    {
      if exists k :: 0 <= k < |sequence| && sequence[k] !in dfa.alphabet.inv then false
      else
        match BiRun(dfa.initial, sequence)
        case Failure(_) => false
        case Success(reached) => exists q :: q in reached && q in dfa.final
    }

    /** `accept`. */
    method Accept(sequence: seq<int>) returns (r: bool)
      requires Valid()
      ensures r == Accepts(sequence)
    {
      for k := 0 to |sequence|
        invariant forall j :: 0 <= j < k ==> sequence[j] in dfa.alphabet.inv
      {
        if sequence[k] !in dfa.alphabet.inv {
          return false;
        }
      }
      var stateSet := Follow(dfa.initial, sequence);
      if stateSet.Failure? || stateSet.value == {} {
        return false;
      }
      return exists q :: q in stateSet.value && q in dfa.final;
    }
  }

  /** What the first |ids| calls of `add_states` have done, starting from the
      states `before` and the left side `left0` and reaching `states` and
      `left`: each call added a fresh left state named by its object. */
  ghost predicate AddedLeft(objs: seq<Obj>, ids: seq<int>, before: Bidict, left0: set<int>,
                            states: Bidict, left: set<int>)
  {
    |ids| <= |objs| && Extends(before, states) &&
    (forall q :: q in left <==> q in left0 || q in ids) &&
    (forall j :: 0 <= j < |ids| ==> ids[j] !in before.inv && ids[j] in states.inv) &&
    (forall i, j :: 0 <= i < j < |ids| ==> ids[i] != ids[j]) &&
    (forall j :: 0 <= j < |ids| && objs[j] != NoneObj ==>
      objs[j] in states.fwd && states.fwd[objs[j]] == ids[j]) &&
    ((forall j :: 0 <= j < |objs| ==> objs[j] != NoneObj) ==>
      (forall o :: o in states.fwd ==> o in before.fwd || o in objs[..|ids|]) &&
      (forall i, j :: 0 <= i < j < |ids| ==> objs[i] != objs[j]))
  }

  /** A further fresh left state, named by the next object, extends the
      record of `add_states`. */
  lemma AddedLeftStep(objs: seq<Obj>, ids: seq<int>, before: Bidict, left0: set<int>,
                      states: Bidict, left: set<int>, id: int, states2: Bidict, left2: set<int>)
    requires |ids| < |objs| && AddedLeft(objs, ids, before, left0, states, left)
    requires id !in states.inv && left2 == left + {id} && Extends(states, states2)
    requires states2.inv.Keys == states.inv.Keys + {id}
    requires states2.fwd.Keys ==
      states.fwd.Keys + {if objs[|ids|] == NoneObj then IntObj(id) else objs[|ids|]}
    requires objs[|ids|] != NoneObj ==>
      objs[|ids|] in states2.fwd && states2.fwd[objs[|ids|]] == id
    ensures AddedLeft(objs, ids + [id], before, left0, states2, left2)
  {
    var k := |ids|;
    var grown := ids + [id];
    assert forall j :: 0 <= j < k ==> ids[j] in states.inv;
    assert objs[..k + 1] == objs[..k] + [objs[k]];
    assert forall j :: 0 <= j <= k ==> grown[j] !in before.inv && grown[j] in states2.inv;
  }

  /** `add_state` refuses the next object only when it names a state; for
      named objects that are new at the start, it must repeat an earlier one. */
  lemma AddedLeftRefused(objs: seq<Obj>, ids: seq<int>, before: Bidict, left0: set<int>,
                         states: Bidict, left: set<int>)
    requires |ids| < |objs| && AddedLeft(objs, ids, before, left0, states, left)
    requires objs[|ids|] !in before.fwd && (objs[|ids|] != NoneObj ==> objs[|ids|] in states.fwd)
    ensures (forall j :: 0 <= j < |objs| ==> objs[j] != NoneObj) ==> objs[|ids|] in objs[..|ids|]
  {
  }

  /** At most one state is reached, and after at least one symbol it is a
      state of the automaton. */
  lemma {:induction false} BiRunDeterministic(b: BiDFA, q: int, w: seq<int>)
    requires b.Valid()
    ensures b.BiRun(q, w).Success? ==>
      b.BiRun(q, w).value == {} ||
      exists p :: b.BiRun(q, w).value == {p} && (p in b.dfa.states.inv || (w == [] && p == q))
    decreases |w|
  {
    if w != [] {
      var current := if q in b.left then w[0] else w[|w| - 1];
      var rest := if q in b.left then w[1..] else w[..|w| - 1];
      if q in b.dfa.states.inv && current in b.dfa.alphabet.inv && (q, current) in b.dfa.transitions {
        var p := b.dfa.transitions[(q, current)];
        BiRunDeterministic(b, p, rest);
      }
    }
  }

  /** The walk fails exactly when it is about to read through an invalid
      state or an identifier outside the alphabet; from a state of the
      automaton, a sequence of symbols of the alphabet is always followed. */
  lemma {:induction false} BiRunTotal(b: BiDFA, q: int, w: seq<int>)
    requires b.Valid()
    ensures b.BiRun(q, w).Failure? ==> w != [] && b.BiRun(q, w).error.ValueError?
    ensures ((q in b.dfa.states.inv || w == []) &&
             (forall k :: 0 <= k < |w| ==> w[k] in b.dfa.alphabet.inv)) ==>
      b.BiRun(q, w).Success?
    decreases |w|
  {
    if w != [] {
      var current := if q in b.left then w[0] else w[|w| - 1];
      var rest := if q in b.left then w[1..] else w[..|w| - 1];
      if q in b.dfa.states.inv && current in b.dfa.alphabet.inv && (q, current) in b.dfa.transitions {
        var p := b.dfa.transitions[(q, current)];
        BiRunTotal(b, p, rest);
        assert forall k :: 0 <= k < |rest| ==> rest[k] in w;
      }
    }
  }

  /** With no right states, the biDFA reads like a DFA, first symbol first. */
  lemma {:induction false} AllLeftReadsForward(b: BiDFA, q: int, w: seq<int>)
    requires b.Valid() && b.right == {}
    ensures b.BiRun(q, w) == b.Forward(q, w)
    decreases |w|
  {
    if w != [] && q in b.dfa.states.inv {
      assert q in b.left;
      if w[0] in b.dfa.alphabet.inv && (q, w[0]) in b.dfa.transitions {
        AllLeftReadsForward(b, b.dfa.transitions[(q, w[0])], w[1..]);
      }
    }
  }

  /** With no left states, the biDFA reads the sequence last symbol first,
      that is, like a DFA reading the reversed sequence. */
  lemma {:induction false} AllRightReadsBackward(b: BiDFA, q: int, w: seq<int>)
    requires b.Valid() && b.left == {}
    ensures b.BiRun(q, w) == b.Forward(q, Reversed(w))
    decreases |w|
  {
    if w != [] {
      var r := Reversed(w);
      assert r[0] == w[|w| - 1];
      assert r[1..] == Reversed(w[..|w| - 1]);
      if q in b.dfa.states.inv && r[0] in b.dfa.alphabet.inv && (q, r[0]) in b.dfa.transitions {
        AllRightReadsBackward(b, b.dfa.transitions[(q, r[0])], w[..|w| - 1]);
      }
    }
  }

  /** `accept` holds exactly when every identifier is in the alphabet and the
      walk from the initial state ends in a final state. */
  lemma AcceptsMeans(b: BiDFA, w: seq<int>)
    requires b.Valid()
    ensures b.Accepts(w) <==>
      (forall k :: 0 <= k < |w| ==> w[k] in b.dfa.alphabet.inv) &&
      exists q :: b.BiRun(b.dfa.initial, w) == Success({q}) && q in b.dfa.final
  {
    BiRunDeterministic(b, b.dfa.initial, w);
    BiRunTotal(b, b.dfa.initial, w);
  }
}
