/** Deterministic finite automata (src/pbsf/utils/acceptors/dfa.py). */
module Automata {
  import opened Wrappers
  import opened Words
  import opened Text

  /** The Python objects states and symbols are named by. */
  datatype Obj = NoneObj | IntObj(i: int) | StrObj(s: string)

  /** A `bidict` from objects to identifiers, stored as the forward map and
      its inverse. */
  datatype Bidict = Bidict(fwd: map<Obj, int>, inv: map<int, Obj>)

  ghost predicate Inverse(b: Bidict)
  {
    (forall k :: k in b.fwd ==> b.fwd[k] in b.inv && b.inv[b.fwd[k]] == k) &&
    (forall v :: v in b.inv ==> b.inv[v] in b.fwd && b.fwd[b.inv[v]] == v)
  }

  /** `b[k] = v` for a value v not yet present: an existing entry for the
      key k is dropped, as bidict does by default. */
  function Put(b: Bidict, k: Obj, v: int): (r: Bidict)
    requires v !in b.inv
    ensures r.fwd == b.fwd[k := v] && v in r.inv && r.inv[v] == k
  {
    var inv := if k in b.fwd then b.inv - {b.fwd[k]} else b.inv;
    Bidict(b.fwd[k := v], inv[v := k])
  }

  lemma PutKeepsInverse(b: Bidict, k: Obj, v: int)
    requires Inverse(b) && v !in b.inv
    ensures Inverse(Put(b, k, v))
  {
  }

  /** Putting a new key adds exactly one entry and keeps all others. */
  lemma PutFresh(b: Bidict, k: Obj, v: int)
    requires Inverse(b) && v !in b.inv && k !in b.fwd
    ensures var r := Put(b, k, v);
      Inverse(r) && r.fwd.Keys == b.fwd.Keys + {k} && r.inv.Keys == b.inv.Keys + {v} &&
      (forall i :: i in b.inv ==> r.inv[i] == b.inv[i]) &&
      |r.fwd| == |b.fwd| + 1 && Extends(b, r)
  {
    PutKeepsInverse(b, k, v);
    var r := Put(b, k, v);
    assert r.inv == b.inv[v := k];
    assert r.fwd.Keys == b.fwd.Keys + {k};
    assert r.inv.Keys == b.inv.Keys + {v};
    assert |r.fwd.Keys| == |b.fwd.Keys| + 1;
  }

  /** `after` keeps every entry of `before`. */
  ghost predicate Extends(before: Bidict, after: Bidict)
  {
    (forall o :: o in before.fwd ==> o in after.fwd && after.fwd[o] == before.fwd[o]) &&
    (forall i :: i in before.inv ==> i in after.inv && after.inv[i] == before.inv[i])
  }

  /** The bidicts are consistent, states and symbols never share an
      identifier, and transitions connect states by symbols. */
  ghost predicate Coherent(states: Bidict, alphabet: Bidict, transitions: map<(int, int), int>)
  {
    Inverse(states) && Inverse(alphabet) &&
    (forall i :: i in states.inv ==> i !in alphabet.inv) &&
    (forall key :: key in transitions ==>
      key.0 in states.inv && key.1 in alphabet.inv && transitions[key] in states.inv)
  }

  /** A fresh state or symbol keeps the automaton coherent. */
  lemma PutStateCoherent(states: Bidict, alphabet: Bidict, transitions: map<(int, int), int>, k: Obj, v: int)
    requires Coherent(states, alphabet, transitions)
    requires v !in states.inv && v !in alphabet.inv && k !in states.fwd
    ensures Coherent(Put(states, k, v), alphabet, transitions)
  {
    PutFresh(states, k, v);
  }

  lemma PutSymbolCoherent(states: Bidict, alphabet: Bidict, transitions: map<(int, int), int>, k: Obj, v: int)
    requires Coherent(states, alphabet, transitions)
    requires v !in states.inv && v !in alphabet.inv && k !in alphabet.fwd
    ensures Coherent(states, Put(alphabet, k, v), transitions)
  {
    PutFresh(alphabet, k, v);
  }

  /** The identifiers in use at or above `from`. */
  ghost function UsedFrom(states: Bidict, alphabet: Bidict, from: int): set<int>
  {
    set k | k in states.inv.Keys + alphabet.inv.Keys && k >= from
  }

  /** The least identifier from `from` on that names neither a state nor a symbol. */
  ghost function FirstFree(states: Bidict, alphabet: Bidict, from: int): (id: int)
    ensures id >= from && id !in states.inv && id !in alphabet.inv
    decreases UsedFrom(states, alphabet, from)
  {
    if from in states.inv || from in alphabet.inv then
      assert UsedFrom(states, alphabet, from + 1) < UsedFrom(states, alphabet, from) by {
        assert from in UsedFrom(states, alphabet, from);
      }
      FirstFree(states, alphabet, from + 1)
    else from
  }

  /** Every identifier skipped by `FirstFree` is in use. */
  lemma {:induction false} FirstFreeLeast(states: Bidict, alphabet: Bidict, from: int)
    ensures forall k :: from <= k < FirstFree(states, alphabet, from) ==> k in states.inv || k in alphabet.inv
    decreases UsedFrom(states, alphabet, from)
  {
    if from in states.inv || from in alphabet.inv {
      assert UsedFrom(states, alphabet, from + 1) < UsedFrom(states, alphabet, from) by {
        assert from in UsedFrom(states, alphabet, from);
      }
      FirstFreeLeast(states, alphabet, from + 1);
    }
  }

  /** Anonymous `states[identifier] = identifier` as written, and its twin
      `alphabet[identifier] = identifier`: the key `identifier` now names the
      new identifier, and every other key keeps the entry it named. */
  function AnonymousEntryAsWritten(b: Bidict, id: int): (r: Bidict)
    requires id !in b.inv
    ensures IntObj(id) in r.fwd && r.fwd[IntObj(id)] == id && id in r.inv && r.inv[id] == IntObj(id)
    ensures forall o :: o in b.fwd && o != IntObj(id) ==> o in r.fwd && r.fwd[o] == b.fwd[o]
  {
    Put(b, IntObj(id), id)
  }

  /** The key `identifier` may already name another state, which is then
      overwritten: that state is gone and the number of states grows only
      when the key was free. */
  lemma AnonymousEntryOverwritten(b: Bidict, id: int)
    requires Inverse(b) && id !in b.inv
    ensures var r := AnonymousEntryAsWritten(b, id);
      Inverse(r) && (IntObj(id) in b.fwd ==> b.fwd[IntObj(id)] !in r.inv) &&
      |r.fwd| == if IntObj(id) in b.fwd then |b.fwd| else |b.fwd| + 1
  {
    var r := AnonymousEntryAsWritten(b, id);
    PutKeepsInverse(b, IntObj(id), id);
    if IntObj(id) in b.fwd {
      assert r.fwd.Keys == b.fwd.Keys;
    } else {
      assert r.fwd.Keys == b.fwd.Keys + {IntObj(id)};
    }
  }

  /** The state named by the integer 2 gets identifier 1; the next
      anonymous state gets identifier 2 and takes over the key 2, so state 1
      disappears and the number of states does not grow. */
  lemma AnonymousEntryOverwrites()
    ensures var b := Put(Bidict(map[NoneObj := 0], map[0 := NoneObj]), IntObj(2), 1);
      Inverse(b) && 1 in b.inv &&
      var r := AnonymousEntryAsWritten(b, 2);
      1 !in r.inv && |r.fwd| == |b.fwd|
  {
    var b0 := Bidict(map[NoneObj := 0], map[0 := NoneObj]);
    assert Inverse(b0);
    var b := Put(b0, IntObj(2), 1);
    PutKeepsInverse(b0, IntObj(2), 1);
    assert IntObj(2) in b.fwd && b.fwd[IntObj(2)] == 1;
    AnonymousEntryOverwritten(b, 2);
  }

  /** The same entry in `add_symbol`: on a new automaton the symbol named by
      the integer 2 gets identifier 1, since 0 is the initial state; the next
      anonymous symbol gets identifier 2 and takes over the key 2, so symbol 1
      disappears and the alphabet does not grow. */
  lemma AnonymousSymbolOverwrites()
    ensures var s := Bidict(map[NoneObj := 0], map[0 := NoneObj]);
      var a0 := Bidict(map[], map[]);
      FirstFree(s, a0, 0) == 1 &&
      var a := Put(a0, IntObj(2), 1);
      Inverse(a) && FirstFree(s, a, 1) == 2 &&
      var r := AnonymousEntryAsWritten(a, 2);
      1 !in r.inv && |r.fwd| == |a.fwd|
  {
    var s := Bidict(map[NoneObj := 0], map[0 := NoneObj]);
    var a0: Bidict := Bidict(map[], map[]);
    assert 0 in s.inv && 1 !in s.inv && 1 !in a0.inv;
    assert FirstFree(s, a0, 0) == FirstFree(s, a0, 1) == 1;
    assert Inverse(a0);
    PutKeepsInverse(a0, IntObj(2), 1);
    var a := Put(a0, IntObj(2), 1);
    assert a.inv == map[1 := IntObj(2)];
    assert FirstFree(s, a, 1) == FirstFree(s, a, 2) == 2;
    AnonymousEntryOverwritten(a, 2);
  }

  /** How `from_description` reads a line, by its whitespace-separated parts,
      in the order the source tests them. */
  datatype LineKind = Blank | InitialLine | FinalLine | TransitionLine | Unrecognised

  function KindOf(parts: seq<string>): LineKind
  {
    if parts == [] then Blank
    else if parts[0] == "initial" then InitialLine
    else if parts[0] == "final" then FinalLine
    else if |parts| == 3 then TransitionLine
    else Unrecognised
  }

  /** What the lines read so far declare, by name: states, symbols, final
      states, the initial state and the transitions (source, target, symbol). */
  datatype Parsed = Parsed(
    stateNames: set<string>,
    symbolNames: set<string>,
    finalNames: set<string>,
    initialName: Option<string>,
    triples: set<(string, string, string)>)

  /** The effect of one line on what has been read: an `initial` line needs
      exactly one state and may appear once, a transition may not repeat a
      (source, symbol) pair, and an unrecognised line is an error. */
  function ApplyLine(p: Parsed, parts: seq<string>): (r: Result<Parsed>)
    ensures r.Failure? ==> r.error.ValueError?
  {
    match KindOf(parts)
    case Blank => Success(p)
    case InitialLine =>
      if |parts| == 1 then Failure(ValueError("State expected after 'initial'."))
      else if |parts| > 2 then Failure(ValueError("DFA can only have one initial state."))
      else if p.initialName.Some? then Failure(ValueError("multiple 'initial' lines not allowed."))
      else Success(p.(stateNames := p.stateNames + {parts[1]}, initialName := Some(parts[1])))
    case FinalLine =>
      var names := Elements(parts[1..]);
      Success(p.(stateNames := p.stateNames + names, finalNames := p.finalNames + names))
    case TransitionLine =>
      if exists t :: t in p.triples && t.0 == parts[0] && t.2 == parts[2] then
        Failure(ValueError("There already exists a transition"))
      else
        Success(p.(stateNames := p.stateNames + {parts[0], parts[1]},
                   symbolNames := p.symbolNames + {parts[2]},
                   triples := p.triples + {(parts[0], parts[1], parts[2])}))
    case Unrecognised => Failure(ValueError("Unrecognised line"))
  }

  /** The set of the strings in `s`. */
  function Elements(s: seq<string>): (r: set<string>)
    ensures forall k :: 0 <= k < |s| ==> s[k] in r
  {
    if s == [] then {} else Elements(s[..|s| - 1]) + {s[|s| - 1]}
  }

  /** What a transition line `q1 q2 a` does to what has been read. */
  lemma ApplyTransitionLine(p: Parsed, parts: seq<string>)
    requires KindOf(parts) == TransitionLine
    ensures ApplyLine(p, parts).Success? <==> !exists t :: t in p.triples && t.0 == parts[0] && t.2 == parts[2]
    ensures ApplyLine(p, parts).Success? ==>
      ApplyLine(p, parts).value ==
        p.(stateNames := p.stateNames + {parts[0]} + {parts[1]}, symbolNames := p.symbolNames + {parts[2]},
           triples := p.triples + {(parts[0], parts[1], parts[2])})
  {
    assert {parts[0], parts[1]} == {parts[0]} + {parts[1]};
  }

  /** What a `final` line does to what has been read. */
  lemma ApplyFinalLine(p: Parsed, parts: seq<string>)
    requires parts != [] && parts[0] == "final"
    ensures ApplyLine(p, parts) ==
      Success(p.(stateNames := p.stateNames + Elements(parts[1..]), finalNames := p.finalNames + Elements(parts[1..])))
  {
  }

  const NothingParsed := Parsed({}, {}, {}, None, {})

  /** Reading the lines in order, stopping at the first error. */
  function ParseLines(ts: seq<seq<string>>): (r: Result<Parsed>)
  {
    if ts == [] then Success(NothingParsed)
    else
      var p :- ParseLines(ts[..|ts| - 1]);
      ApplyLine(p, ts[|ts| - 1])
  }

  /** The parts of every line after the first (which names the automaton). */
  function LineParts(description: string): (ts: seq<seq<string>>)
  {
    var lines := SplitOn(Strip(description), '\n');
    seq(|lines| - 1, i requires 0 <= i < |lines| - 1 => Tokens(lines[i + 1]))
  }

  /** What a description declares, or why it is refused; there must be an
      initial state. */
  function Describe(description: string): (r: Result<Parsed>)
  {
    var p :- ParseLines(LineParts(description));
    if p.initialName.None? then Failure(ValueError("DFA expects exactly one initial state."))
    else Success(p)
  }

  /** The lines a description may consist of, stated outright: no
      unrecognised line, `initial` with exactly one state and at most once,
      no (source, symbol) pair twice. */
  ghost predicate LinesAccepted(ts: seq<seq<string>>)
  {
    (forall i :: 0 <= i < |ts| ==> KindOf(ts[i]) != Unrecognised) &&
    (forall i :: 0 <= i < |ts| && KindOf(ts[i]) == InitialLine ==> |ts[i]| == 2) &&
    (forall i, j :: 0 <= i < j < |ts| && KindOf(ts[i]) == InitialLine ==> KindOf(ts[j]) != InitialLine) &&
    (forall i, j :: 0 <= i < j < |ts| && KindOf(ts[i]) == TransitionLine && KindOf(ts[j]) == TransitionLine ==>
      ts[i][0] != ts[j][0] || ts[i][2] != ts[j][2])
  }

  ghost function Triples(ts: seq<seq<string>>): set<(string, string, string)>
  {
    set i | 0 <= i < |ts| && KindOf(ts[i]) == TransitionLine :: (ts[i][0], ts[i][1], ts[i][2])
  }

  lemma TriplesSnoc(ts: seq<seq<string>>)
    requires ts != []
    ensures var last := ts[|ts| - 1];
      Triples(ts) == Triples(ts[..|ts| - 1]) +
        (if KindOf(last) == TransitionLine then {(last[0], last[1], last[2])} else {})
  {
    var front, last, n := ts[..|ts| - 1], ts[|ts| - 1], |ts| - 1;
    assert forall i :: 0 <= i < n ==> ts[i] == front[i];
    forall t | t in Triples(ts)
      ensures t in Triples(front) + (if KindOf(last) == TransitionLine then {(last[0], last[1], last[2])} else {})
    {
      var i :| 0 <= i < |ts| && KindOf(ts[i]) == TransitionLine && t == (ts[i][0], ts[i][1], ts[i][2]);
      if i < n { assert t in Triples(front); }
    }
  }

  /** After a successful read the transitions are those of the transition
      lines, and the initial state is the one of the `initial` line. */
  lemma {:induction false} ParseLinesFacts(ts: seq<seq<string>>)
    requires ParseLines(ts).Success?
    ensures ParseLines(ts).value.triples == Triples(ts)
    ensures ParseLines(ts).value.initialName.Some? <==>
      exists i :: 0 <= i < |ts| && KindOf(ts[i]) == InitialLine
    ensures forall i :: 0 <= i < |ts| && KindOf(ts[i]) == InitialLine ==>
      |ts[i]| == 2 && ParseLines(ts).value.initialName == Some(ts[i][1])
  {
    if ts != [] {
      var front, n := ts[..|ts| - 1], |ts| - 1;
      ParseLinesFacts(front);
      TriplesSnoc(ts);
      assert forall i :: 0 <= i < n ==> ts[i] == front[i];
    }
  }

  /** Whether `last` may follow the lines `front`. */
  ghost predicate AcceptedAfter(front: seq<seq<string>>, last: seq<string>)
  {
    KindOf(last) != Unrecognised &&
    (KindOf(last) == InitialLine ==>
      |last| == 2 && forall i :: 0 <= i < |front| ==> KindOf(front[i]) != InitialLine) &&
    (KindOf(last) == TransitionLine ==>
      forall i :: 0 <= i < |front| && KindOf(front[i]) == TransitionLine ==>
        front[i][0] != last[0] || front[i][2] != last[2])
  }

  lemma AcceptedSnoc(ts: seq<seq<string>>)
    requires ts != []
    ensures LinesAccepted(ts) <==>
      LinesAccepted(ts[..|ts| - 1]) && AcceptedAfter(ts[..|ts| - 1], ts[|ts| - 1])
  {
    var front, n := ts[..|ts| - 1], |ts| - 1;
    assert forall i :: 0 <= i < n ==> ts[i] == front[i];
    if LinesAccepted(front) && AcceptedAfter(front, ts[n]) {
      forall i, j | 0 <= i < j < |ts| && KindOf(ts[i]) == InitialLine
        ensures KindOf(ts[j]) != InitialLine
      {
        if j < n { assert KindOf(front[i]) == InitialLine; }
      }
    }
  }

  /** One line more is read without error exactly when it may follow the
      lines before it. */
  lemma ApplyLineAccepted(front: seq<seq<string>>, last: seq<string>)
    requires ParseLines(front).Success?
    ensures ApplyLine(ParseLines(front).value, last).Success? <==> AcceptedAfter(front, last)
  {
    ParseLinesFacts(front);
    var p := ParseLines(front).value;
    if KindOf(last) == TransitionLine && (exists t :: t in p.triples && t.0 == last[0] && t.2 == last[2]) {
      var t :| t in p.triples && t.0 == last[0] && t.2 == last[2];
      var i :| 0 <= i < |front| && KindOf(front[i]) == TransitionLine && t == (front[i][0], front[i][1], front[i][2]);
      assert !AcceptedAfter(front, last);
    }
    if KindOf(last) == TransitionLine && !AcceptedAfter(front, last) {
      var i :| 0 <= i < |front| && KindOf(front[i]) == TransitionLine &&
        front[i][0] == last[0] && front[i][2] == last[2];
      assert (front[i][0], front[i][1], front[i][2]) in p.triples;
    }
  }

  /** Reading succeeds exactly on the accepted lines. */
  lemma {:induction false} ParseLinesMeans(ts: seq<seq<string>>)
    ensures ParseLines(ts).Success? <==> LinesAccepted(ts)
  {
    if ts != [] {
      var front := ts[..|ts| - 1];
      ParseLinesMeans(front);
      AcceptedSnoc(ts);
      if ParseLines(front).Success? {
        ApplyLineAccepted(front, ts[|ts| - 1]);
      }
    }
  }

  /** The DFA fields hold exactly what has been read: every name is a
      string, and identifiers are looked up through the bidicts. */
  ghost predicate NamesRepresented(states: Bidict, alphabet: Bidict, p: Parsed)
  {
    (forall o :: o in states.fwd ==> o.StrObj? && o.s in p.stateNames) &&
    (forall n :: n in p.stateNames ==> StrObj(n) in states.fwd) &&
    (forall o :: o in alphabet.fwd ==> o.StrObj? && o.s in p.symbolNames) &&
    (forall n :: n in p.symbolNames ==> StrObj(n) in alphabet.fwd) &&
    p.finalNames <= p.stateNames &&
    (p.initialName.Some? ==> p.initialName.value in p.stateNames) &&
    (forall t :: t in p.triples ==> t.0 in p.stateNames && t.1 in p.stateNames && t.2 in p.symbolNames)
  }

  ghost predicate FinalRepresented(states: Bidict, final: set<int>, p: Parsed)
  {
    (forall id :: id in final ==>
      id in states.inv && states.inv[id].StrObj? && states.inv[id].s in p.finalNames) &&
    (forall n :: n in p.finalNames ==> StrObj(n) in states.fwd && states.fwd[StrObj(n)] in final)
  }

  ghost predicate InitialRepresented(states: Bidict, initial: Option<int>, p: Parsed)
  {
    (initial.Some? <==> p.initialName.Some?) &&
    (initial.Some? ==> initial.value in states.inv && states.inv[initial.value] == StrObj(p.initialName.value))
  }

  /** Every transition line read is a transition of the automaton. */
  ghost predicate TriplesPresent(states: Bidict, alphabet: Bidict,
                                 transitions: map<(int, int), int>, p: Parsed)
    requires NamesRepresented(states, alphabet, p)
  {
    forall t :: t in p.triples ==>
      (states.fwd[StrObj(t.0)], alphabet.fwd[StrObj(t.2)]) in transitions &&
      transitions[(states.fwd[StrObj(t.0)], alphabet.fwd[StrObj(t.2)])] == states.fwd[StrObj(t.1)]
  }

  /** Every transition of the automaton comes from a transition line read. */
  ghost predicate TransitionsRead(states: Bidict, alphabet: Bidict,
                                  transitions: map<(int, int), int>, p: Parsed)
  {
    forall key :: key in transitions ==>
      key.0 in states.inv && key.1 in alphabet.inv && transitions[key] in states.inv &&
      states.inv[key.0].StrObj? && states.inv[transitions[key]].StrObj? && alphabet.inv[key.1].StrObj? &&
      (states.inv[key.0].s, states.inv[transitions[key]].s, alphabet.inv[key.1].s) in p.triples
  }

  ghost predicate TransitionsRepresented(states: Bidict, alphabet: Bidict,
                                         transitions: map<(int, int), int>, p: Parsed)
    requires NamesRepresented(states, alphabet, p)
  {
    TriplesPresent(states, alphabet, transitions, p) && TransitionsRead(states, alphabet, transitions, p)
  }

  ghost predicate Represents(states: Bidict, alphabet: Bidict, final: set<int>,
                             transitions: map<(int, int), int>, initial: Option<int>, p: Parsed)
  {
    NamesRepresented(states, alphabet, p) && FinalRepresented(states, final, p) &&
    InitialRepresented(states, initial, p) && TransitionsRepresented(states, alphabet, transitions, p)
  }

  /** A read that has failed stays failed whatever follows. */
  lemma {:induction false} ParseLinesPrefixFailure(ts: seq<seq<string>>, k: nat)
    requires k <= |ts| && ParseLines(ts[..k]).Failure?
    ensures ParseLines(ts).Failure?
    decreases |ts| - k
  {
    if k < |ts| {
      assert ts[..k + 1][..k] == ts[..k];
      ParseLinesPrefixFailure(ts, k + 1);
    } else {
      assert ts[..k] == ts;
    }
  }

  /** The transitions stay in step with the lines read when the bidicts
      only gain entries and no transition line is added. */
  lemma TransitionsExtended(states: Bidict, alphabet: Bidict, s2: Bidict, a2: Bidict,
                            transitions: map<(int, int), int>, p: Parsed, p2: Parsed)
    requires NamesRepresented(states, alphabet, p) && TransitionsRepresented(states, alphabet, transitions, p)
    requires Extends(states, s2) && Extends(alphabet, a2) && NamesRepresented(s2, a2, p2)
    requires p2.triples == p.triples
    ensures TransitionsRepresented(s2, a2, transitions, p2)
  {
    TriplesExtended(states, alphabet, s2, a2, transitions, p, p2);
    ReadExtended(states, alphabet, s2, a2, transitions, p, p2);
  }

  lemma TriplesExtended(states: Bidict, alphabet: Bidict, s2: Bidict, a2: Bidict,
                        transitions: map<(int, int), int>, p: Parsed, p2: Parsed)
    requires NamesRepresented(states, alphabet, p) && TriplesPresent(states, alphabet, transitions, p)
    requires Extends(states, s2) && Extends(alphabet, a2) && NamesRepresented(s2, a2, p2)
    requires p2.triples == p.triples
    ensures TriplesPresent(s2, a2, transitions, p2)
  {
    forall t | t in p2.triples
      ensures (s2.fwd[StrObj(t.0)], a2.fwd[StrObj(t.2)]) in transitions &&
        transitions[(s2.fwd[StrObj(t.0)], a2.fwd[StrObj(t.2)])] == s2.fwd[StrObj(t.1)]
    {
      assert StrObj(t.0) in states.fwd && StrObj(t.1) in states.fwd && StrObj(t.2) in alphabet.fwd;
    }
  }

  lemma ReadExtended(states: Bidict, alphabet: Bidict, s2: Bidict, a2: Bidict,
                     transitions: map<(int, int), int>, p: Parsed, p2: Parsed)
    requires TransitionsRead(states, alphabet, transitions, p)
    requires Extends(states, s2) && Extends(alphabet, a2) && p2.triples == p.triples
    ensures TransitionsRead(s2, a2, transitions, p2)
  {
    forall key | key in transitions
      ensures key.0 in s2.inv && key.1 in a2.inv && transitions[key] in s2.inv &&
        s2.inv[key.0].StrObj? && s2.inv[transitions[key]].StrObj? && a2.inv[key.1].StrObj? &&
        (s2.inv[key.0].s, s2.inv[transitions[key]].s, a2.inv[key.1].s) in p2.triples
    {
      var k0, k1, t := key.0, key.1, transitions[key];
      assert k0 in states.inv && k1 in alphabet.inv && t in states.inv;
      assert s2.inv[k0] == states.inv[k0] && s2.inv[t] == states.inv[t] && a2.inv[k1] == alphabet.inv[k1];
    }
  }

  /** Adding a state named `n` keeps the fields in step with what has been
      read, once `n` counts as a state name. */
  lemma StateNameAdded(states: Bidict, alphabet: Bidict, final: set<int>, transitions: map<(int, int), int>,
                       initial: Option<int>, p: Parsed, n: string, id: int)
    requires Coherent(states, alphabet, transitions) && Represents(states, alphabet, final, transitions, initial, p)
    requires StrObj(n) !in states.fwd && id !in states.inv && id !in alphabet.inv
    ensures Represents(Put(states, StrObj(n), id), alphabet, final, transitions, initial,
                       p.(stateNames := p.stateNames + {n}))
  {
    PutFresh(states, StrObj(n), id);
    var s2, p2 := Put(states, StrObj(n), id), p.(stateNames := p.stateNames + {n});
    assert NamesRepresented(s2, alphabet, p2);
    assert FinalRepresented(s2, final, p2) by {
      forall i | i in s2.inv
        ensures i in final <==> s2.inv[i].StrObj? && s2.inv[i].s in p.finalNames
      {
        if i == id { assert s2.inv[i] == StrObj(n); }
      }
    }
    TransitionsExtended(states, alphabet, s2, alphabet, transitions, p, p2);
  }

  lemma SymbolNameAdded(states: Bidict, alphabet: Bidict, final: set<int>, transitions: map<(int, int), int>,
                        initial: Option<int>, p: Parsed, n: string, id: int)
    requires Coherent(states, alphabet, transitions) && Represents(states, alphabet, final, transitions, initial, p)
    requires StrObj(n) !in alphabet.fwd && id !in states.inv && id !in alphabet.inv
    ensures Represents(states, Put(alphabet, StrObj(n), id), final, transitions, initial,
                       p.(symbolNames := p.symbolNames + {n}))
  {
    PutFresh(alphabet, StrObj(n), id);
    var a2, p2 := Put(alphabet, StrObj(n), id), p.(symbolNames := p.symbolNames + {n});
    assert NamesRepresented(states, a2, p2);
    TransitionsExtended(states, alphabet, states, a2, transitions, p, p2);
  }

  /** Marking the state named `n` final. */
  lemma FinalNameAdded(states: Bidict, alphabet: Bidict, final: set<int>, transitions: map<(int, int), int>,
                       initial: Option<int>, p: Parsed, n: string)
    requires Coherent(states, alphabet, transitions) && Represents(states, alphabet, final, transitions, initial, p)
    requires StrObj(n) in states.fwd
    ensures Represents(states, alphabet, final + {states.fwd[StrObj(n)]}, transitions, initial,
                       p.(finalNames := p.finalNames + {n}))
  {
  }

  /** Setting the initial state to the state named `n`. */
  lemma InitialNameSet(states: Bidict, alphabet: Bidict, final: set<int>, transitions: map<(int, int), int>,
                       p: Parsed, n: string)
    requires Coherent(states, alphabet, transitions) && Represents(states, alphabet, final, transitions, None, p)
    requires StrObj(n) in states.fwd
    ensures Represents(states, alphabet, final, transitions, Some(states.fwd[StrObj(n)]),
                       p.(initialName := Some(n)))
  {
  }

  /** With the names of a transition line present, the (source, symbol)
      pair is taken exactly when a transition line read before has the same
      source and symbol; when it is free, setting it records the line. */
  lemma TransitionNamesAdded(states: Bidict, alphabet: Bidict, final: set<int>, transitions: map<(int, int), int>,
                             initial: Option<int>, p: Parsed, q1: string, q2: string, a: string)
    requires Coherent(states, alphabet, transitions) && Represents(states, alphabet, final, transitions, initial, p)
    requires StrObj(q1) in states.fwd && StrObj(q2) in states.fwd && StrObj(a) in alphabet.fwd
    ensures var key := (states.fwd[StrObj(q1)], alphabet.fwd[StrObj(a)]);
      (key in transitions <==> exists t :: t in p.triples && t.0 == q1 && t.2 == a) &&
      (key !in transitions ==>
        Coherent(states, alphabet, transitions[key := states.fwd[StrObj(q2)]]) &&
        Represents(states, alphabet, final, transitions[key := states.fwd[StrObj(q2)]], initial,
                   p.(triples := p.triples + {(q1, q2, a)})))
  {
    var key := (states.fwd[StrObj(q1)], alphabet.fwd[StrObj(a)]);
    if key in transitions {
      var t := (states.inv[key.0].s, states.inv[transitions[key]].s, alphabet.inv[key.1].s);
      assert t in p.triples && t.0 == q1 && t.2 == a;
    }
  }

  /** The step `if q not in d: add q`: when the name `n` is taken, its
      identifier is `id` and the bidict `b` stays; otherwise `n` is put
      under the identifier `id`, which `b` and `other` do not use. */
  ghost predicate Ensured(b: Bidict, b2: Bidict, other: Bidict, n: string, id: int)
  {
    if StrObj(n) in b.fwd then b2 == b && id == b.fwd[StrObj(n)]
    else id !in b.inv && id !in other.inv && b2 == Put(b, StrObj(n), id)
  }

  lemma StateEnsured(s: Bidict, s2: Bidict, a: Bidict, f: set<int>, t: map<(int, int), int>,
                     i: Option<int>, p: Parsed, n: string, id: int)
    requires Coherent(s, a, t) && Represents(s, a, f, t, i, p) && Ensured(s, s2, a, n, id)
    ensures Coherent(s2, a, t) && Extends(s, s2) && StrObj(n) in s2.fwd && s2.fwd[StrObj(n)] == id
    ensures Represents(s2, a, f, t, i, p.(stateNames := p.stateNames + {n}))
  {
    if StrObj(n) in s.fwd {
      assert p.(stateNames := p.stateNames + {n}) == p;
    } else {
      PutFresh(s, StrObj(n), id);
      PutStateCoherent(s, a, t, StrObj(n), id);
      StateNameAdded(s, a, f, t, i, p, n, id);
    }
  }

  lemma SymbolEnsured(s: Bidict, a: Bidict, a2: Bidict, f: set<int>, t: map<(int, int), int>,
                      i: Option<int>, p: Parsed, n: string, id: int)
    requires Coherent(s, a, t) && Represents(s, a, f, t, i, p) && Ensured(a, a2, s, n, id)
    ensures Coherent(s, a2, t) && Extends(a, a2) && StrObj(n) in a2.fwd && a2.fwd[StrObj(n)] == id
    ensures Represents(s, a2, f, t, i, p.(symbolNames := p.symbolNames + {n}))
  {
    if StrObj(n) in a.fwd {
      assert p.(symbolNames := p.symbolNames + {n}) == p;
    } else {
      PutFresh(a, StrObj(n), id);
      PutSymbolCoherent(s, a, t, StrObj(n), id);
      SymbolNameAdded(s, a, f, t, i, p, n, id);
    }
  }

  /** The fields `from_description` fills in: the bidicts, the final
      states, the transitions and the next identifier to try. */
  datatype Fields = Fields(states: Bidict, alphabet: Bidict, final: set<int>,
                           transitions: map<(int, int), int>, free: int)

  /** The fields of a fresh automaton after `dfa.states.clear()`. */
  const Cleared := Fields(Bidict(map[], map[]), Bidict(map[], map[]), {}, map[], 0)

  /** `if q not in dfa.states: dfa.add_state(q)`, then `dfa.states[q]`. */
  ghost function WithState(f: Fields, n: string): (Fields, int)
  {
    if StrObj(n) in f.states.fwd then (f, f.states.fwd[StrObj(n)])
    else
      var id := FirstFree(f.states, f.alphabet, f.free);
      (f.(states := Put(f.states, StrObj(n), id), free := id), id)
  }

  /** The alphabet counterpart of `WithState`. */
  ghost function WithSymbol(f: Fields, n: string): (Fields, int)
  {
    if StrObj(n) in f.alphabet.fwd then (f, f.alphabet.fwd[StrObj(n)])
    else
      var id := FirstFree(f.states, f.alphabet, f.free);
      (f.(alphabet := Put(f.alphabet, StrObj(n), id), free := id), id)
  }

  /** The source, the target and the symbol of a transition line, each
      added when missing, in that order. */
  ghost function WithTransitionNames(f: Fields, q1: string, q2: string, a: string): (Fields, int, int, int)
  {
    var (g1, id1) := WithState(f, q1);
    var (g2, id2) := WithState(g1, q2);
    var (g3, sid) := WithSymbol(g2, a);
    (g3, id1, id2, sid)
  }

  /** One state of a `final` line, added when missing and marked final. */
  ghost function WithFinal(f: Fields, n: string): Fields
  {
    var (g, id) := WithState(f, n);
    g.(final := g.final + {id})
  }

  /** The states of a `final` line, added when missing and marked final in order. */
  ghost function WithFinals(f: Fields, names: seq<string>): Fields
  {
    if names == [] then f
    else WithFinal(WithFinals(f, names[..|names| - 1]), names[|names| - 1])
  }

  /** What one line of `from_description` does to the fields and to the
      initial state set so far, or the error it raises. */
  ghost function LineRead(f: Fields, init: Option<int>, parts: seq<string>): Result<(Fields, Option<int>)>
  {
    match KindOf(parts)
    case Blank => Success((f, init))
    case InitialLine =>
      if |parts| == 1 then Failure(ValueError("State expected after 'initial'."))
      else if |parts| > 2 then Failure(ValueError("DFA can only have one initial state."))
      else if init.Some? then Failure(ValueError("multiple 'initial' lines not allowed."))
      else var (g, id) := WithState(f, parts[1]); Success((g, Some(id)))
    case FinalLine => Success((WithFinals(f, parts[1..]), init))
    case TransitionLine =>
      var (g, id1, id2, sid) := WithTransitionNames(f, parts[0], parts[1], parts[2]);
      if (id1, sid) in g.transitions then Failure(ValueError("There already exists a transition"))
      else Success((g.(transitions := g.transitions[(id1, sid) := id2]), init))
    case Unrecognised => Failure(ValueError("Unrecognised line"))
  }

  /** The lines of `from_description` read in order from the cleared fields. */
  ghost function LinesRead(ts: seq<seq<string>>): Result<(Fields, Option<int>)>
  {
    if ts == [] then Success((Cleared, None))
    else
      var (f, init) :- LinesRead(ts[..|ts| - 1]);
      LineRead(f, init, ts[|ts| - 1])
  }

  /** A read that has failed stays failed whatever follows. */
  lemma {:induction false} LinesReadPrefixFailure(ts: seq<seq<string>>, k: nat)
    requires k <= |ts| && LinesRead(ts[..k]).Failure?
    ensures LinesRead(ts).Failure? && LinesRead(ts).error == LinesRead(ts[..k]).error
    decreases |ts| - k
  {
    if k < |ts| {
      assert ts[..k + 1][..k] == ts[..k];
      LinesReadPrefixFailure(ts, k + 1);
    } else {
      assert ts[..k] == ts;
    }
  }

  /** The identifiers a transition line looks up are those of states and
      a symbol, and the bidicts stay coherent. */
  lemma WithTransitionNamesSteps(f: Fields, q1: string, q2: string, a: string)
    requires Coherent(f.states, f.alphabet, f.transitions)
    ensures var (g, id1, id2, sid) := WithTransitionNames(f, q1, q2, a);
      Coherent(g.states, g.alphabet, g.transitions) &&
      id1 in g.states.inv && id2 in g.states.inv && sid in g.alphabet.inv
  {
    WithStateSteps(f, q1);
    WithStateSteps(WithState(f, q1).0, q2);
    WithSymbolSteps(WithState(WithState(f, q1).0, q2).0, a);
  }

  /** `WithState` keeps the bidicts coherent, returns an identifier of a
      state, and changes only the states and the next identifier. */
  lemma WithStateSteps(f: Fields, n: string)
    requires Coherent(f.states, f.alphabet, f.transitions)
    ensures var (g, id) := WithState(f, n);
      Coherent(g.states, g.alphabet, g.transitions) && Extends(f.states, g.states) &&
      id in g.states.inv && g.alphabet == f.alphabet && g.final == f.final && g.transitions == f.transitions
  {
    if StrObj(n) !in f.states.fwd {
      var id := FirstFree(f.states, f.alphabet, f.free);
      PutFresh(f.states, StrObj(n), id);
      PutStateCoherent(f.states, f.alphabet, f.transitions, StrObj(n), id);
    }
  }

  lemma WithSymbolSteps(f: Fields, n: string)
    requires Coherent(f.states, f.alphabet, f.transitions)
    ensures var (g, id) := WithSymbol(f, n);
      Coherent(g.states, g.alphabet, g.transitions) && Extends(f.alphabet, g.alphabet) &&
      id in g.alphabet.inv && g.states == f.states && g.final == f.final && g.transitions == f.transitions
  {
    if StrObj(n) !in f.alphabet.fwd {
      var id := FirstFree(f.states, f.alphabet, f.free);
      PutFresh(f.alphabet, StrObj(n), id);
      PutSymbolCoherent(f.states, f.alphabet, f.transitions, StrObj(n), id);
    }
  }

  /** The fields hold what has been read, and the bidicts are coherent. */
  ghost predicate Holds(f: Fields, init: Option<int>, p: Parsed)
  {
    Coherent(f.states, f.alphabet, f.transitions) &&
    Represents(f.states, f.alphabet, f.final, f.transitions, init, p)
  }

  lemma WithStateEnsured(f: Fields, n: string)
    requires Coherent(f.states, f.alphabet, f.transitions)
    ensures Ensured(f.states, WithState(f, n).0.states, f.alphabet, n, WithState(f, n).1)
  {
  }

  lemma WithSymbolEnsured(f: Fields, n: string)
    requires Coherent(f.states, f.alphabet, f.transitions)
    ensures Ensured(f.alphabet, WithSymbol(f, n).0.alphabet, f.states, n, WithSymbol(f, n).1)
  {
  }

  /** A `final` line read into the fields. */
  lemma {:induction false} WithFinalsHolds(f: Fields, init: Option<int>, p: Parsed, names: seq<string>)
    requires Holds(f, init, p)
    ensures Holds(WithFinals(f, names), init,
                  p.(stateNames := p.stateNames + Elements(names), finalNames := p.finalNames + Elements(names)))
  {
    if names != [] {
      var front, n := names[..|names| - 1], names[|names| - 1];
      WithFinalsHolds(f, init, p, front);
      var g := WithFinals(f, front);
      var q := p.(stateNames := p.stateNames + Elements(front), finalNames := p.finalNames + Elements(front));
      WithStateEnsured(g, n);
      StateEnsured(g.states, WithState(g, n).0.states, g.alphabet, g.final, g.transitions, init, q, n, WithState(g, n).1);
      FinalNameAdded(WithState(g, n).0.states, g.alphabet, g.final, g.transitions, init,
                     q.(stateNames := q.stateNames + {n}), n);
    }
  }

  /** The fields follow `ApplyLine`: a line is refused exactly when
      `ApplyLine` refuses it, and otherwise the fields hold its effect. */
  lemma LineReadHolds(f: Fields, init: Option<int>, p: Parsed, parts: seq<string>)
    requires Holds(f, init, p)
    ensures LineRead(f, init, parts).Success? <==> ApplyLine(p, parts).Success?
    ensures LineRead(f, init, parts).Success? ==>
      Holds(LineRead(f, init, parts).value.0, LineRead(f, init, parts).value.1, ApplyLine(p, parts).value)
    ensures LineRead(f, init, parts).Failure? ==> LineRead(f, init, parts).error.ValueError?
  {
    match KindOf(parts)
    case Blank =>
    case InitialLine =>
      if |parts| == 2 && init.None? {
        WithStateEnsured(f, parts[1]);
        var (g, id) := WithState(f, parts[1]);
        StateEnsured(f.states, g.states, f.alphabet, f.final, f.transitions, None, p, parts[1], id);
        InitialNameSet(g.states, f.alphabet, f.final, f.transitions, p.(stateNames := p.stateNames + {parts[1]}), parts[1]);
      }
    case FinalLine =>
      ApplyFinalLine(p, parts);
      WithFinalsHolds(f, init, p, parts[1..]);
    case TransitionLine =>
      TransitionLineHolds(f, init, p, parts);
    case Unrecognised =>
  }

  /** Looking up a state name keeps the fields holding what was parsed,
      with the name added. */
  lemma WithStateHolds(f: Fields, init: Option<int>, p: Parsed, n: string)
    requires Holds(f, init, p)
    ensures var (g, id) := WithState(f, n);
      Holds(g, init, p.(stateNames := p.stateNames + {n})) && Extends(f.states, g.states) &&
      StrObj(n) in g.states.fwd && g.states.fwd[StrObj(n)] == id &&
      g.alphabet == f.alphabet && g.final == f.final && g.transitions == f.transitions
  {
    WithStateEnsured(f, n);
    StateEnsured(f.states, WithState(f, n).0.states, f.alphabet, f.final, f.transitions, init, p, n, WithState(f, n).1);
  }

  /** Looking up a symbol name keeps the fields holding what was parsed,
      with the name added. */
  lemma WithSymbolHolds(f: Fields, init: Option<int>, p: Parsed, n: string)
    requires Holds(f, init, p)
    ensures var (g, id) := WithSymbol(f, n);
      Holds(g, init, p.(symbolNames := p.symbolNames + {n})) &&
      StrObj(n) in g.alphabet.fwd && g.alphabet.fwd[StrObj(n)] == id &&
      g.states == f.states && g.final == f.final && g.transitions == f.transitions
  {
    WithSymbolEnsured(f, n);
    SymbolEnsured(f.states, f.alphabet, WithSymbol(f, n).0.alphabet, f.final, f.transitions, init, p, n, WithSymbol(f, n).1);
  }

  /** The three lookups of a transition line keep the fields holding what
      was parsed, with its names added. */
  lemma TransitionNamesHold(f: Fields, init: Option<int>, p: Parsed, q1: string, q2: string, a: string)
    requires Holds(f, init, p)
    ensures var (g, id1, id2, sid) := WithTransitionNames(f, q1, q2, a);
      Holds(g, init, p.(stateNames := p.stateNames + {q1} + {q2}, symbolNames := p.symbolNames + {a})) &&
      StrObj(q1) in g.states.fwd && g.states.fwd[StrObj(q1)] == id1 &&
      StrObj(q2) in g.states.fwd && g.states.fwd[StrObj(q2)] == id2 &&
      StrObj(a) in g.alphabet.fwd && g.alphabet.fwd[StrObj(a)] == sid &&
      g.final == f.final && g.transitions == f.transitions
  {
    var (g1, id1) := WithState(f, q1);
    var (g2, id2) := WithState(g1, q2);
    var p1 := p.(stateNames := p.stateNames + {q1});
    var p2 := p1.(stateNames := p1.stateNames + {q2});
    WithStateHolds(f, init, p, q1);
    WithStateHolds(g1, init, p1, q2);
    WithSymbolHolds(g2, init, p2, a);
    assert p2.(symbolNames := p2.symbolNames + {a}) ==
      p.(stateNames := p.stateNames + {q1} + {q2}, symbolNames := p.symbolNames + {a});
  }

  /** A transition line read into fields holding what was parsed: the
      transition is taken exactly when the parsed triples have one from the
      same state by the same symbol, and otherwise adding it keeps the
      fields holding what was parsed, with the triple added. */
  lemma TransitionAdded(f: Fields, init: Option<int>, p: Parsed, q1: string, q2: string, a: string)
    requires Holds(f, init, p)
    ensures var (g, id1, id2, sid) := WithTransitionNames(f, q1, q2, a);
      ((id1, sid) in g.transitions <==> exists t :: t in p.triples && t.0 == q1 && t.2 == a) &&
      ((id1, sid) !in g.transitions ==>
        Holds(g.(transitions := g.transitions[(id1, sid) := id2]), init,
              p.(stateNames := p.stateNames + {q1} + {q2}, symbolNames := p.symbolNames + {a},
                 triples := p.triples + {(q1, q2, a)})))
  {
    var (g, id1, id2, sid) := WithTransitionNames(f, q1, q2, a);
    var q := p.(stateNames := p.stateNames + {q1} + {q2}, symbolNames := p.symbolNames + {a});
    TransitionNamesHold(f, init, p, q1, q2, a);
    TransitionNamesAdded(g.states, g.alphabet, g.final, g.transitions, init, q, q1, q2, a);
  }

  lemma TransitionLineHolds(f: Fields, init: Option<int>, p: Parsed, parts: seq<string>)
    requires Holds(f, init, p) && KindOf(parts) == TransitionLine
    ensures LineRead(f, init, parts).Success? <==> ApplyLine(p, parts).Success?
    ensures LineRead(f, init, parts).Success? ==>
      Holds(LineRead(f, init, parts).value.0, LineRead(f, init, parts).value.1, ApplyLine(p, parts).value)
  {
    TransitionAdded(f, init, p, parts[0], parts[1], parts[2]);
    ApplyTransitionLine(p, parts);
  }

  /** Reading the lines from the cleared fields fails exactly when
      `ParseLines` does, with a `ValueError`, and otherwise the fields hold
      what `ParseLines` reads. */
  lemma {:induction false} LinesReadHolds(ts: seq<seq<string>>)
    ensures LinesRead(ts).Success? <==> ParseLines(ts).Success?
    ensures LinesRead(ts).Failure? ==> LinesRead(ts).error.ValueError?
    ensures LinesRead(ts).Success? ==> Holds(LinesRead(ts).value.0, LinesRead(ts).value.1, ParseLines(ts).value)
  {
    if ts != [] {
      var front := ts[..|ts| - 1];
      LinesReadHolds(front);
      if LinesRead(front).Success? {
        var (f, init) := LinesRead(front).value;
        LineReadHolds(f, init, ParseLines(front).value, ts[|ts| - 1]);
      }
    }
  }

  /** A description is accepted exactly when its lines are read without
      error and name an initial state, and then the fields read hold what
      it declares. */
  lemma DescriptionRead(description: string)
    ensures var ts := LineParts(description);
      (Describe(description).Success? <==> LinesRead(ts).Success? && LinesRead(ts).value.1.Some?) &&
      (Describe(description).Success? ==>
        Holds(LinesRead(ts).value.0, LinesRead(ts).value.1, Describe(description).value))
  {
    LinesReadHolds(LineParts(description));
  }

  /** Where adding objects one at a time has got to: the bidict, the
      identifiers handed out, the last identifier searched for, and whether
      every object so far was accepted. */
  datatype Additions = Additions(b: Bidict, ids: seq<int>, free: int, ok: bool)

  /** `__next_free_identifier` from `from` on, while `own` grows beside
      `other`; `ownFirst` says whether `own` holds the states. */
  ghost function NextFree(own: Bidict, other: Bidict, ownFirst: bool, from: int): (id: int)
    ensures id >= from && id !in own.inv && id !in other.inv
  {
    if ownFirst then FirstFree(own, other, from) else FirstFree(other, own, from)
  }

  /** `[self.add_state(s) for s in objs]`, or its `add_symbol` counterpart,
      on values: each object takes the next free identifier, and the first
      object whose key is taken raises, leaving the objects before it added. */
  ghost function Added(own: Bidict, other: Bidict, ownFirst: bool, free: int, objs: seq<Obj>): (r: Additions)
    decreases |objs|
  {
    if objs == [] then Additions(own, [], free, true)
    else
      var a := Added(own, other, ownFirst, free, objs[..|objs| - 1]);
      if !a.ok then a
      else
        var id := NextFree(a.b, other, ownFirst, a.free);
        var key := if objs[|objs| - 1] == NoneObj then IntObj(id) else objs[|objs| - 1];
        if key in a.b.fwd then Additions(a.b, a.ids, id, false)
        else Additions(Put(a.b, key, id), a.ids + [id], id, true)
  }

  /** When every object is accepted, each adds one entry, and the
      identifiers are handed out in increasing order from `free` on, each
      one unused before. */
  lemma {:induction false} AddedGrows(own: Bidict, other: Bidict, ownFirst: bool, free: int, objs: seq<Obj>)
    ensures var a := Added(own, other, ownFirst, free, objs);
      a.ok ==> GrownBy(own, other, free, |objs|, a)
    decreases |objs|
  {
    var a := Added(own, other, ownFirst, free, objs);
    if objs == [] {
      assert own.inv.Keys <= a.b.inv.Keys;
    } else if a.ok {
      var init := objs[..|objs| - 1];
      var p := Added(own, other, ownFirst, free, init);
      AddedGrows(own, other, ownFirst, free, init);
      var id := NextFree(p.b, other, ownFirst, p.free);
      var key := if objs[|objs| - 1] == NoneObj then IntObj(id) else objs[|objs| - 1];
      assert p.ok && key !in p.b.fwd && a == Additions(Put(p.b, key, id), p.ids + [id], id, true);
      GrownStep(own, other, free, |init|, p, key, id);
    }
  }

  /** What `AddedGrows` promises after n accepted objects. */
  ghost predicate GrownBy(own: Bidict, other: Bidict, free: int, n: nat, a: Additions)
  {
    |a.ids| == n && |a.b.fwd| == |own.fwd| + n && own.inv.Keys <= a.b.inv.Keys &&
    (forall k :: 0 <= k < n ==> a.ids[k] !in own.inv && a.ids[k] !in other.inv && a.ids[k] in a.b.inv) &&
    (forall j, k :: 0 <= j < k < n ==> a.ids[j] < a.ids[k]) &&
    (n > 0 ==> free <= a.ids[0] && a.free == a.ids[n - 1])
  }

  lemma GrownStep(own: Bidict, other: Bidict, free: int, n: nat, p: Additions, key: Obj, id: int)
    requires GrownBy(own, other, free, n, p)
    requires key !in p.b.fwd && id !in p.b.inv && id !in other.inv && id >= p.free
    requires n == 0 ==> p.free == free
    ensures GrownBy(own, other, free, n + 1, Additions(Put(p.b, key, id), p.ids + [id], id, true))
  {
    var b := Put(p.b, key, id);
    var ids := p.ids + [id];
    GrownIds(own, other, n, p.b, p.ids, key, id);
    GrownOrder(n, p.b, p.ids, p.free, id);
    assert |b.fwd.Keys| == |p.b.fwd.Keys + {key}| == |p.b.fwd.Keys| + 1;
  }

  lemma GrownIds(own: Bidict, other: Bidict, n: nat, b: Bidict, ids: seq<int>, key: Obj, id: int)
    requires |ids| == n && own.inv.Keys <= b.inv.Keys
    requires forall k :: 0 <= k < n ==> ids[k] !in own.inv && ids[k] !in other.inv && ids[k] in b.inv
    requires key !in b.fwd && id !in b.inv && id !in other.inv
    ensures var b', ids' := Put(b, key, id), ids + [id];
      own.inv.Keys <= b'.inv.Keys &&
      forall k :: 0 <= k < n + 1 ==> ids'[k] !in own.inv && ids'[k] !in other.inv && ids'[k] in b'.inv
  {
    var b', ids' := Put(b, key, id), ids + [id];
    assert b'.inv == b.inv[id := key];
    forall k | 0 <= k < n + 1
      ensures ids'[k] !in own.inv && ids'[k] !in other.inv && ids'[k] in b'.inv
    {
      if k < n {
        assert ids'[k] == ids[k];
      }
    }
  }

  lemma GrownOrder(n: nat, b: Bidict, ids: seq<int>, free: int, id: int)
    requires |ids| == n && (n > 0 ==> free == ids[n - 1] && free in b.inv)
    requires forall j, k :: 0 <= j < k < n ==> ids[j] < ids[k]
    requires id !in b.inv && id >= free
    ensures var ids' := ids + [id];
      forall j, k :: 0 <= j < k < n + 1 ==> ids'[j] < ids'[k]
  {
    var ids' := ids + [id];
    forall j, k | 0 <= j < k < n + 1
      ensures ids'[j] < ids'[k]
    {
      if k == n {
        assert ids'[j] == ids[j] <= free < id;
      } else {
        assert ids'[j] == ids[j] && ids'[k] == ids[k];
      }
    }
  }


  /** A refused object stops the list: the objects before it were all
      accepted, the bidict is theirs, and the refused object's key was
      already present. */
  lemma {:induction false} AddedStops(own: Bidict, other: Bidict, ownFirst: bool, free: int, objs: seq<Obj>)
    ensures var a := Added(own, other, ownFirst, free, objs);
      !a.ok ==> exists j :: 0 <= j < |objs| && StoppedAt(own, other, ownFirst, free, objs, j, a)
    decreases |objs|
  {
    var a := Added(own, other, ownFirst, free, objs);
    if objs != [] && !a.ok {
      var init := objs[..|objs| - 1];
      var p := Added(own, other, ownFirst, free, init);
      if p.ok {
        assert init == objs[..|objs| - 1];
        assert StoppedAt(own, other, ownFirst, free, objs, |objs| - 1, a);
      } else {
        AddedStops(own, other, ownFirst, free, init);
        var j :| 0 <= j < |init| && StoppedAt(own, other, ownFirst, free, init, j, p);
        assert init[..j] == objs[..j] && init[j] == objs[j];
        assert StoppedAt(own, other, ownFirst, free, objs, j, a);
      }
    }
  }

  /** Adding objects keeps every entry already there. */
  lemma {:induction false} AddedExtends(own: Bidict, other: Bidict, ownFirst: bool, free: int, objs: seq<Obj>)
    ensures Extends(own, Added(own, other, ownFirst, free, objs).b)
    decreases |objs|
  {
    if objs != [] {
      var init := objs[..|objs| - 1];
      var p := Added(own, other, ownFirst, free, init);
      AddedExtends(own, other, ownFirst, free, init);
      if p.ok {
        var id := NextFree(p.b, other, ownFirst, p.free);
        var key := if objs[|objs| - 1] == NoneObj then IntObj(id) else objs[|objs| - 1];
        if key !in p.b.fwd {
          assert Put(p.b, key, id).inv == p.b.inv[id := key];
        }
      }
    }
  }

  /** Every accepted named object is a key for its own identifier. */
  lemma {:induction false} AddedMaps(own: Bidict, other: Bidict, ownFirst: bool, free: int, objs: seq<Obj>)
    ensures var a := Added(own, other, ownFirst, free, objs);
      a.ok ==> (
        |a.ids| == |objs| &&
        forall k :: 0 <= k < |objs| && objs[k] != NoneObj ==> objs[k] in a.b.fwd && a.b.fwd[objs[k]] == a.ids[k])
    decreases |objs|
  {
    var a := Added(own, other, ownFirst, free, objs);
    if objs != [] && a.ok {
      var init := objs[..|objs| - 1];
      var p := Added(own, other, ownFirst, free, init);
      AddedMaps(own, other, ownFirst, free, init);
      var id := NextFree(p.b, other, ownFirst, p.free);
      var key := if objs[|objs| - 1] == NoneObj then IntObj(id) else objs[|objs| - 1];
      assert p.ok && key !in p.b.fwd && a == Additions(Put(p.b, key, id), p.ids + [id], id, true);
      forall k | 0 <= k < |objs| && objs[k] != NoneObj
        ensures objs[k] in a.b.fwd && a.b.fwd[objs[k]] == a.ids[k]
      {
        if k < |init| {
          assert objs[k] == init[k] && a.ids[k] == p.ids[k];
          assert objs[k] in p.b.fwd && objs[k] != key;
        }
      }
    }
  }

  /** No object occurs twice. */
  predicate Distinct(objs: seq<Obj>)
  {
    forall j, k :: 0 <= j < k < |objs| ==> objs[j] != objs[k]
  }

  /** Named objects that are not yet keys are all accepted exactly when
      none of them occurs twice, and then the keys are the old ones and the
      objects. */
  lemma {:induction false} AddedNamed(own: Bidict, other: Bidict, ownFirst: bool, free: int, objs: seq<Obj>)
    requires forall k :: 0 <= k < |objs| ==> objs[k] != NoneObj && objs[k] !in own.fwd
    ensures var a := Added(own, other, ownFirst, free, objs);
      (a.ok <==> Distinct(objs)) &&
      (a.ok ==> forall o :: o in a.b.fwd <==> o in own.fwd || o in objs)
    decreases |objs|
  {
    var a := Added(own, other, ownFirst, free, objs);
    if objs != [] {
      var init := objs[..|objs| - 1];
      var last := objs[|objs| - 1];
      var p := Added(own, other, ownFirst, free, init);
      AddedNamed(own, other, ownFirst, free, init);
      assert forall k :: 0 <= k < |init| ==> init[k] == objs[k];
      assert Distinct(objs) <==> Distinct(init) && last !in init;
      if p.ok {
        var id := NextFree(p.b, other, ownFirst, p.free);
        assert last in p.b.fwd <==> last in init;
        if last !in p.b.fwd {
          assert forall o :: o in objs <==> o in init || o == last;
        }
      }
    }
  }

  /** One more object: the step of the fold. */
  lemma AddedNext(own: Bidict, other: Bidict, ownFirst: bool, free: int, objs: seq<Obj>, k: nat)
    requires k < |objs|
    ensures var a := Added(own, other, ownFirst, free, objs[..k]);
      var id := NextFree(a.b, other, ownFirst, a.free);
      var key := if objs[k] == NoneObj then IntObj(id) else objs[k];
      Added(own, other, ownFirst, free, objs[..k + 1]) ==
        if !a.ok then a
        else if key in a.b.fwd then Additions(a.b, a.ids, id, false)
        else Additions(Put(a.b, key, id), a.ids + [id], id, true)
  {
    assert objs[..k + 1][..k] == objs[..k];
  }

  /** Once an object is refused, the later ones are never tried. */
  lemma {:induction false} AddedSettled(own: Bidict, other: Bidict, ownFirst: bool, free: int, objs: seq<Obj>, k: nat)
    requires k <= |objs| && !Added(own, other, ownFirst, free, objs[..k]).ok
    ensures Added(own, other, ownFirst, free, objs) == Added(own, other, ownFirst, free, objs[..k])
    decreases |objs|
  {
    if k == |objs| {
      assert objs[..k] == objs;
    } else {
      var init := objs[..|objs| - 1];
      assert init[..k] == objs[..k];
      AddedSettled(own, other, ownFirst, free, init, k);
    }
  }

  /** Object j is the first refused one and `a` is where the list stopped. */
  ghost predicate StoppedAt(own: Bidict, other: Bidict, ownFirst: bool, free: int, objs: seq<Obj>, j: nat, a: Additions)
    requires j < |objs|
  {
    var p := Added(own, other, ownFirst, free, objs[..j]);
    p.ok && a.b == p.b && a.ids == p.ids && !a.ok &&
    (objs[j] != NoneObj ==> objs[j] in p.b.fwd)
  }

  /** A bidict has as many keys as values. */
  lemma {:induction false} InverseSize(b: Bidict)
    requires Inverse(b)
    ensures |b.fwd| == |b.inv|
    decreases |b.fwd|
  {
    if b.fwd == map[] {
      assert forall v :: v !in b.inv;
      assert b.inv.Keys == {};
    } else {
      var k :| k in b.fwd;
      var v := b.fwd[k];
      var b' := Bidict(b.fwd - {k}, b.inv - {v});
      assert b'.fwd.Keys == b.fwd.Keys - {k} && b'.inv.Keys == b.inv.Keys - {v};
      InverseSize(b');
    }
  }

  /** A set of (state, symbol) pairs holds at most one pair per state and symbol. */
  lemma {:induction false} PairsBound(keys: set<(int, int)>, xs: set<int>, ys: set<int>)
    requires forall p :: p in keys ==> p.0 in xs && p.1 in ys
    ensures |keys| <= |xs| * |ys|
    decreases |keys|
  {
    if keys != {} {
      var p :| p in keys;
      var x := p.0;
      var row := set q | q in keys && q.0 == x;
      var rest := set q | q in keys && q.0 != x;
      assert keys == row + rest && row * rest == {};
      assert p in row;
      RowBound(row, x, ys);
      PairsBound(rest, xs - {x}, ys);
      assert |xs - {x}| == |xs| - 1;
      assert (|xs| - 1) * |ys| + |ys| == |xs| * |ys|;
    }
  }

  /** In a coherent automaton there are as many states as identifiers of
      states, and at most one transition per state and symbol. */
  lemma SizeBound(states: Bidict, alphabet: Bidict, transitions: map<(int, int), int>)
    ensures Coherent(states, alphabet, transitions) ==>
      |states.fwd| == |states.inv| && |transitions| <= |states.inv| * |alphabet.inv|
  {
    if Coherent(states, alphabet, transitions) {
      InverseSize(states);
      PairsBound(transitions.Keys, states.inv.Keys, alphabet.inv.Keys);
    }
  }

  lemma {:induction false} RowBound(row: set<(int, int)>, x: int, ys: set<int>)
    requires forall p :: p in row ==> p.0 == x && p.1 in ys
    ensures |row| <= |ys|
    decreases |row|
  {
    if row != {} {
      var p :| p in row;
      RowBound(row - {p}, x, ys - {p.1});
      assert forall q :: q in row - {p} ==> q.1 != p.1;
    }
  }


  class DFA {
    var name: Option<string>
    var states: Bidict
    var alphabet: Bidict
    var initial: int
    var final: set<int>
    /** `transitions[s1][symbol] = {s2}`, flattened: one entry per state and symbol. */
    var transitions: map<(int, int), int>
    var freeIdentifier: int

    /** The bidicts are consistent, states and symbols never share an
        identifier, and transitions connect states by symbols. */
    ghost predicate Valid()
      reads this
    {
      Coherent(states, alphabet, transitions)
    }

    constructor (name: Option<string>)
      ensures Valid()
      ensures this.name == name && initial == 0 && final == {} && transitions == map[]
      ensures states == Bidict(map[NoneObj := 0], map[0 := NoneObj]) && alphabet == Bidict(map[], map[])
      ensures freeIdentifier == 0
    {
      this.name := name;
      states := Bidict(map[NoneObj := 0], map[0 := NoneObj]);
      alphabet := Bidict(map[], map[]);
      initial := 0;
      final := {};
      transitions := map[];
      freeIdentifier := 0;
    }

    /** `__next_free_identifier`: the least unused identifier from the last
        one handed out on. */
    method NextFreeIdentifier() returns (id: int)
      modifies this`freeIdentifier
      ensures id == FirstFree(states, alphabet, old(freeIdentifier)) && freeIdentifier == id
    {
      id := freeIdentifier;
      while id in states.inv || id in alphabet.inv
        invariant id >= freeIdentifier
        invariant FirstFree(states, alphabet, id) == FirstFree(states, alphabet, freeIdentifier)
        decreases UsedFrom(states, alphabet, id)
      {
        assert UsedFrom(states, alphabet, id + 1) < UsedFrom(states, alphabet, id) by {
          assert id in UsedFrom(states, alphabet, id);
        }
        id := id + 1;
      }
      freeIdentifier := id;
    }

    /** `add_state`: a named state, or an anonymous one named by its own
        identifier; refused when the name is taken (for an anonymous state
        this check is the correction of the source). */
    method AddState(state: Obj) returns (r: Result<int>)
      requires Valid()
      modifies this
      ensures Valid()
      ensures name == old(name) && alphabet == old(alphabet) && initial == old(initial)
      ensures final == old(final) && transitions == old(transitions)
      ensures freeIdentifier == FirstFree(old(states), old(alphabet), old(freeIdentifier))
      ensures var key := if state == NoneObj then IntObj(freeIdentifier) else state;
        (r.Success? <==> key !in old(states).fwd) &&
        (r.Success? ==> r.value == freeIdentifier && states == Put(old(states), key, r.value)) &&
        (r.Failure? ==> r.error.ValueError? && states == old(states))
      ensures r.Success? ==>
        Extends(old(states), states) && r.value !in old(states).inv && r.value !in alphabet.inv &&
        r.value in states.inv && states.fwd.Keys == old(states).fwd.Keys + {if state == NoneObj then IntObj(r.value) else state} &&
        (state != NoneObj ==> states.fwd[state] == r.value)
    {
      var id := NextFreeIdentifier();
      var key := if state == NoneObj then IntObj(id) else state;
      if key in states.fwd {
        return Failure(ValueError("already associated to a state"));
      }
      PutFresh(states, key, id);
      PutStateCoherent(states, alphabet, transitions, key, id);
      states := Put(states, key, id);
      return Success(id);
    }

    /** `add_symbol`: the alphabet counterpart of `AddState`; refusing an
        anonymous symbol whose key is taken is again the correction of the
        source. */
    method AddSymbol(symbol: Obj) returns (r: Result<int>)
      requires Valid()
      modifies this
      ensures Valid()
      ensures name == old(name) && states == old(states) && initial == old(initial)
      ensures final == old(final) && transitions == old(transitions)
      ensures freeIdentifier == FirstFree(old(states), old(alphabet), old(freeIdentifier))
      ensures var key := if symbol == NoneObj then IntObj(freeIdentifier) else symbol;
        (r.Success? <==> key !in old(alphabet).fwd) &&
        (r.Success? ==> r.value == freeIdentifier && alphabet == Put(old(alphabet), key, r.value)) &&
        (r.Failure? ==> r.error.ValueError? && alphabet == old(alphabet))
      ensures r.Success? ==>
        Extends(old(alphabet), alphabet) && r.value !in old(alphabet).inv && r.value !in states.inv &&
        r.value in alphabet.inv && alphabet.fwd.Keys == old(alphabet).fwd.Keys + {if symbol == NoneObj then IntObj(r.value) else symbol} &&
        (symbol != NoneObj ==> alphabet.fwd[symbol] == r.value)
    {
      var id := NextFreeIdentifier();
      var key := if symbol == NoneObj then IntObj(id) else symbol;
      if key in alphabet.fwd {
        return Failure(ValueError("already part of the alphabet"));
      }
      PutFresh(alphabet, key, id);
      PutSymbolCoherent(states, alphabet, transitions, key, id);
      alphabet := Put(alphabet, key, id);
      return Success(id);
    }

    /** `add_states`: refuses the whole list if one object is already taken;
        otherwise adds them in order, stopping at the first refusal (a
        repeated object), so the list is not added atomically. */
    method AddStates(objs: seq<Obj>) returns (r: Result<seq<int>>)
      requires Valid()
      modifies this
      ensures Valid()
      ensures name == old(name) && alphabet == old(alphabet) && initial == old(initial)
      ensures final == old(final) && transitions == old(transitions)
      ensures (exists k :: 0 <= k < |objs| && objs[k] in old(states).fwd) ==>
        r.Failure? && states == old(states) && freeIdentifier == old(freeIdentifier)
      ensures (forall k :: 0 <= k < |objs| ==> objs[k] !in old(states).fwd) ==>
        var a := Added(old(states), alphabet, true, old(freeIdentifier), objs);
        states == a.b && freeIdentifier == a.free && (r.Success? <==> a.ok) && (r.Success? ==> r.value == a.ids)
      ensures r.Failure? && (forall k :: 0 <= k < |objs| ==> objs[k] !in old(states).fwd) ==>
        exists j :: 0 <= j < |objs| &&
          StoppedAt(old(states), alphabet, true, old(freeIdentifier), objs, j, Added(old(states), alphabet, true, old(freeIdentifier), objs))
      ensures r.Failure? ==> r.error.ValueError?
      ensures (forall k :: 0 <= k < |objs| ==> objs[k] != NoneObj) ==>
        (r.Success? <==>
          (forall k :: 0 <= k < |objs| ==> objs[k] !in old(states).fwd) &&
          (forall j, k :: 0 <= j < k < |objs| ==> objs[j] != objs[k]))
      ensures r.Success? ==>
        |r.value| == |objs| && Extends(old(states), states) &&
        (forall k :: 0 <= k < |objs| ==> r.value[k] !in old(states).inv && r.value[k] in states.inv) &&
        (forall j, k :: 0 <= j < k < |objs| ==> r.value[j] != r.value[k]) &&
        (forall k :: 0 <= k < |objs| && objs[k] != NoneObj ==>
          objs[k] in states.fwd && states.fwd[objs[k]] == r.value[k])
    {
      for k := 0 to |objs|
        invariant forall j :: 0 <= j < k ==> objs[j] !in states.fwd
      {
        if objs[k] in states.fwd {
          return Failure(ValueError("already associated to a state"));
        }
      }
      AddedStops(states, alphabet, true, freeIdentifier, objs);
      r := AddEachState(objs);
    }

    /** The list comprehension of `add_states`: one call per object, in order. */
    method AddEachState(objs: seq<Obj>) returns (r: Result<seq<int>>)
      requires Valid()
      requires forall k :: 0 <= k < |objs| ==> objs[k] !in states.fwd
      modifies this
      ensures Valid()
      ensures name == old(name) && alphabet == old(alphabet) && initial == old(initial)
      ensures final == old(final) && transitions == old(transitions)
      ensures r.Failure? ==> r.error.ValueError?
      ensures var a := Added(old(states), alphabet, true, old(freeIdentifier), objs);
        states == a.b && freeIdentifier == a.free && (r.Success? <==> a.ok) && (r.Success? ==> r.value == a.ids)
      ensures (forall k :: 0 <= k < |objs| ==> objs[k] != NoneObj) ==>
        (r.Success? <==> forall j, k :: 0 <= j < k < |objs| ==> objs[j] != objs[k])
      ensures r.Success? ==>
        |r.value| == |objs| && Extends(old(states), states) &&
        (forall k :: 0 <= k < |objs| ==> r.value[k] !in old(states).inv && r.value[k] in states.inv) &&
        (forall j, k :: 0 <= j < k < |objs| ==> r.value[j] != r.value[k]) &&
        (forall k :: 0 <= k < |objs| && objs[k] != NoneObj ==>
          objs[k] in states.fwd && states.fwd[objs[k]] == r.value[k])
    {
      ghost var before, free0 := states, freeIdentifier;
      var ids: seq<int> := [];
      for k := 0 to |objs|
        invariant Valid()
        invariant name == old(name) && alphabet == old(alphabet) && initial == old(initial)
        invariant final == old(final) && transitions == old(transitions)
        invariant var a := Added(before, alphabet, true, free0, objs[..k]);
          a.ok && states == a.b && ids == a.ids && freeIdentifier == a.free
      {
        var id := AddState(objs[k]);
        AddedNext(before, alphabet, true, free0, objs, k);
        if id.Failure? {
          AddedSettled(before, alphabet, true, free0, objs, k + 1);
          if forall j :: 0 <= j < |objs| ==> objs[j] != NoneObj {
            AddedNamed(before, alphabet, true, free0, objs);
          }
          return Failure(id.error);
        }
        ids := ids + [id.value];
      }
      assert objs[..|objs|] == objs;
      AddedGrows(before, alphabet, true, free0, objs);
      AddedExtends(before, alphabet, true, free0, objs);
      AddedMaps(before, alphabet, true, free0, objs);
      if forall j :: 0 <= j < |objs| ==> objs[j] != NoneObj {
        AddedNamed(before, alphabet, true, free0, objs);
      }
      return Success(ids);
    }

    /** `add_symbols`: refuses the whole list if one object is already taken;
        otherwise adds them in order, stopping at the first refusal (a
        repeated object), so the list is not added atomically. */
    method AddSymbols(objs: seq<Obj>) returns (r: Result<seq<int>>)
      requires Valid()
      modifies this
      ensures Valid()
      ensures name == old(name) && states == old(states) && initial == old(initial)
      ensures final == old(final) && transitions == old(transitions)
      ensures (exists k :: 0 <= k < |objs| && objs[k] in old(alphabet).fwd) ==>
        r.Failure? && alphabet == old(alphabet) && freeIdentifier == old(freeIdentifier)
      ensures (forall k :: 0 <= k < |objs| ==> objs[k] !in old(alphabet).fwd) ==>
        var a := Added(old(alphabet), states, false, old(freeIdentifier), objs);
        alphabet == a.b && freeIdentifier == a.free && (r.Success? <==> a.ok) && (r.Success? ==> r.value == a.ids)
      ensures r.Failure? && (forall k :: 0 <= k < |objs| ==> objs[k] !in old(alphabet).fwd) ==>
        exists j :: 0 <= j < |objs| &&
          StoppedAt(old(alphabet), states, false, old(freeIdentifier), objs, j, Added(old(alphabet), states, false, old(freeIdentifier), objs))
      ensures r.Failure? ==> r.error.ValueError?
      ensures (forall k :: 0 <= k < |objs| ==> objs[k] != NoneObj) ==>
        (r.Success? <==>
          (forall k :: 0 <= k < |objs| ==> objs[k] !in old(alphabet).fwd) &&
          (forall j, k :: 0 <= j < k < |objs| ==> objs[j] != objs[k]))
      ensures r.Success? ==>
        |r.value| == |objs| && Extends(old(alphabet), alphabet) &&
        (forall k :: 0 <= k < |objs| ==> r.value[k] !in old(alphabet).inv && r.value[k] in alphabet.inv) &&
        (forall j, k :: 0 <= j < k < |objs| ==> r.value[j] != r.value[k]) &&
        (forall k :: 0 <= k < |objs| && objs[k] != NoneObj ==>
          objs[k] in alphabet.fwd && alphabet.fwd[objs[k]] == r.value[k])
    {
      for k := 0 to |objs|
        invariant forall j :: 0 <= j < k ==> objs[j] !in alphabet.fwd
      {
        if objs[k] in alphabet.fwd {
          return Failure(ValueError("already in alphabet"));
        }
      }
      AddedStops(alphabet, states, false, freeIdentifier, objs);
      r := AddEachSymbol(objs);
    }

    /** The list comprehension of `add_symbols`: one call per object, in order. */
    method AddEachSymbol(objs: seq<Obj>) returns (r: Result<seq<int>>)
      requires Valid()
      requires forall k :: 0 <= k < |objs| ==> objs[k] !in alphabet.fwd
      modifies this
      ensures Valid()
      ensures name == old(name) && states == old(states) && initial == old(initial)
      ensures final == old(final) && transitions == old(transitions)
      ensures r.Failure? ==> r.error.ValueError?
      ensures var a := Added(old(alphabet), states, false, old(freeIdentifier), objs);
        alphabet == a.b && freeIdentifier == a.free && (r.Success? <==> a.ok) && (r.Success? ==> r.value == a.ids)
      ensures (forall k :: 0 <= k < |objs| ==> objs[k] != NoneObj) ==>
        (r.Success? <==> forall j, k :: 0 <= j < k < |objs| ==> objs[j] != objs[k])
      ensures r.Success? ==>
        |r.value| == |objs| && Extends(old(alphabet), alphabet) &&
        (forall k :: 0 <= k < |objs| ==> r.value[k] !in old(alphabet).inv && r.value[k] in alphabet.inv) &&
        (forall j, k :: 0 <= j < k < |objs| ==> r.value[j] != r.value[k]) &&
        (forall k :: 0 <= k < |objs| && objs[k] != NoneObj ==>
          objs[k] in alphabet.fwd && alphabet.fwd[objs[k]] == r.value[k])
    {
      ghost var before, free0 := alphabet, freeIdentifier;
      var ids: seq<int> := [];
      for k := 0 to |objs|
        invariant Valid()
        invariant name == old(name) && states == old(states) && initial == old(initial)
        invariant final == old(final) && transitions == old(transitions)
        invariant var a := Added(before, states, false, free0, objs[..k]);
          a.ok && alphabet == a.b && ids == a.ids && freeIdentifier == a.free
      {
        var id := AddSymbol(objs[k]);
        AddedNext(before, states, false, free0, objs, k);
        if id.Failure? {
          AddedSettled(before, states, false, free0, objs, k + 1);
          if forall j :: 0 <= j < |objs| ==> objs[j] != NoneObj {
            AddedNamed(before, states, false, free0, objs);
          }
          return Failure(id.error);
        }
        ids := ids + [id.value];
      }
      assert objs[..|objs|] == objs;
      AddedGrows(before, states, false, free0, objs);
      AddedExtends(before, states, false, free0, objs);
      AddedMaps(before, states, false, free0, objs);
      if forall j :: 0 <= j < |objs| ==> objs[j] != NoneObj {
        AddedNamed(before, states, false, free0, objs);
      }
      return Success(ids);
    }

    /** `size`: the number of states and of transitions. States and
        identifiers are in one-to-one correspondence, and a deterministic
        automaton has at most one transition per state and symbol. */
    function Size(): (r: (int, int))
      reads this
      ensures Valid() ==> r.0 == |states.inv| && r.1 <= r.0 * |alphabet.inv|
    {
      SizeBound(states, alphabet, transitions);
      (|states.fwd|, |transitions|)
    }

    /** `set_transition`: both states and the symbol must exist and the
        state may not yet have a transition for the symbol. */
    method SetTransition(s1: int, s2: int, symbol: int) returns (r: Outcome)
      requires Valid()
      modifies this`transitions
      ensures Valid()
      ensures r.Pass? <==>
        s1 in states.inv && s2 in states.inv && symbol in alphabet.inv &&
        (s1, symbol) !in old(transitions)
      ensures r.Fail? ==> r.error.ValueError? && transitions == old(transitions)
      ensures r.Pass? ==>
        transitions == old(transitions)[(s1, symbol) := s2] && Size().1 == old(Size().1) + 1
    {
      if s1 !in states.inv || s2 !in states.inv {
        return Fail(ValueError("not a valid state"));
      }
      if symbol !in alphabet.inv {
        return Fail(ValueError("not in the alphabet"));
      }
      if (s1, symbol) in transitions {
        return Fail(ValueError("There already exists a transition"));
      }
      transitions := transitions[(s1, symbol) := s2];
      return Pass;
    }

    /** The fields `from_description` fills in, as a value. */
    function Snapshot(): (f: Fields)
      reads this
      ensures f.states == states && f.alphabet == alphabet && f.final == final
      ensures f.transitions == transitions && f.free == freeIdentifier
    {
      Fields(states, alphabet, final, transitions, freeIdentifier)
    }

    /** The `if q not in dfa.states: dfa.add_state(q)` step of
        `from_description`, returning `dfa.states[q]`. */
    method EnsureState(n: string) returns (id: int)
      requires Valid()
      modifies this
      ensures Valid() && name == old(name) && initial == old(initial)
      ensures Snapshot() == WithState(old(Snapshot()), n).0 && id == WithState(old(Snapshot()), n).1
    {
      if StrObj(n) in states.fwd {
        return states.fwd[StrObj(n)];
      }
      var r := AddState(StrObj(n));
      return r.value;
    }

    /** The alphabet counterpart of `EnsureState`. */
    method EnsureSymbol(n: string) returns (id: int)
      requires Valid()
      modifies this
      ensures Valid() && name == old(name) && initial == old(initial)
      ensures Snapshot() == WithSymbol(old(Snapshot()), n).0 && id == WithSymbol(old(Snapshot()), n).1
    {
      if StrObj(n) in alphabet.fwd {
        return alphabet.fwd[StrObj(n)];
      }
      var r := AddSymbol(StrObj(n));
      return r.value;
    }

    /** An `initial` line of `from_description`. */
    method ReadInitial(parts: seq<string>, init: Option<int>) returns (r: Result<Option<int>>)
      requires Valid() && parts != [] && parts[0] == "initial"
      modifies this
      ensures Valid() && name == old(name) && initial == old(initial)
      ensures r.Success? <==> LineRead(old(Snapshot()), init, parts).Success?
      ensures r.Failure? ==> r.error == LineRead(old(Snapshot()), init, parts).error
      ensures r.Success? ==> (Snapshot(), r.value) == LineRead(old(Snapshot()), init, parts).value
    {
      if |parts| == 1 {
        return Failure(ValueError("State expected after 'initial'."));
      }
      if |parts| > 2 {
        return Failure(ValueError("DFA can only have one initial state."));
      }
      if init.Some? {
        return Failure(ValueError("multiple 'initial' lines not allowed."));
      }
      var id := EnsureState(parts[1]);
      return Success(Some(id));
    }

    /** A `final` line of `from_description`: each named state is added
        when missing and marked final. */
    method ReadFinal(parts: seq<string>)
      requires Valid() && parts != [] && parts[0] == "final"
      modifies this
      ensures Valid() && name == old(name) && initial == old(initial)
      ensures Snapshot() == WithFinals(old(Snapshot()), parts[1..])
    {
      for k := 1 to |parts|
        invariant Valid() && name == old(name) && initial == old(initial)
        invariant Snapshot() == WithFinals(old(Snapshot()), parts[1..k])
      {
        MarkFinal(parts[k]);
        assert parts[1..k + 1][..k - 1] == parts[1..k];
      }
      assert parts[1..|parts|] == parts[1..];
    }

    /** One state of a `final` line: added when missing, then made final. */
    method MarkFinal(n: string)
      requires Valid()
      modifies this
      ensures Valid() && name == old(name) && initial == old(initial)
      ensures Snapshot() == WithFinal(old(Snapshot()), n)
    {
      var id := EnsureState(n);
      ghost var h := Snapshot();
      final := final + {id};
      assert Snapshot() == h.(final := h.final + {id});
    }

    /** A transition line `q1 q2 a` of `from_description`: the states and
        the symbol are added when missing, then the transition is set. */
    method ReadTransition(parts: seq<string>, init: Option<int>) returns (r: Outcome)
      requires Valid() && KindOf(parts) == TransitionLine
      modifies this
      ensures Valid() && name == old(name) && initial == old(initial)
      ensures r.Pass? <==> LineRead(old(Snapshot()), init, parts).Success?
      ensures r.Fail? ==> r.error.ValueError?
      ensures r.Pass? ==> Snapshot() == LineRead(old(Snapshot()), init, parts).value.0
    {
      var id1, id2, sid := EnsureTransitionNames(parts[0], parts[1], parts[2]);
      r := SetTransition(id1, id2, sid);
    }

    /** The lookups of a transition line, each name added when missing. */
    method EnsureTransitionNames(q1: string, q2: string, a: string) returns (id1: int, id2: int, sid: int)
      requires Valid()
      modifies this
      ensures Valid() && name == old(name) && initial == old(initial)
      ensures var t := WithTransitionNames(old(Snapshot()), q1, q2, a);
        Snapshot() == t.0 && id1 == t.1 && id2 == t.2 && sid == t.3
      ensures id1 in states.inv && id2 in states.inv && sid in alphabet.inv
    {
      WithTransitionNamesSteps(Snapshot(), q1, q2, a);
      id1 := EnsureState(q1);
      id2 := EnsureState(q2);
      sid := EnsureSymbol(a);
    }

    /** One line of `from_description`, given by its parts; `init` is the
        initial state set so far, and the result is the new one. */
    method ReadLine(parts: seq<string>, init: Option<int>) returns (r: Result<Option<int>>)
      requires Valid()
      modifies this
      ensures Valid() && name == old(name) && initial == old(initial)
      ensures r.Success? <==> LineRead(old(Snapshot()), init, parts).Success?
      ensures r.Failure? ==> r.error.ValueError?
      ensures r.Success? ==> (Snapshot(), r.value) == LineRead(old(Snapshot()), init, parts).value
    {
      if parts == [] {
        return Success(init);
      } else if parts[0] == "initial" {
        r := ReadInitial(parts, init);
      } else if parts[0] == "final" {
        ReadFinal(parts);
        return Success(init);
      } else if |parts| == 3 {
        var o := ReadTransition(parts, init);
        if o.Fail? {
          return Failure(o.error);
        }
        return Success(init);
      } else {
        return Failure(ValueError("Unrecognised line"));
      }
    }

    /** `from_description`: the first line names the automaton, the others
        are read in order; the result is refused exactly when the
        description is, and otherwise holds what it declares. */
    static method FromDescription(description: string) returns (r: Result<DFA>)
      ensures r.Success? <==> Describe(description).Success?
      ensures r.Failure? ==> r.error.ValueError?
      ensures r.Success? ==>
        fresh(r.value) && r.value.Valid() && r.value.name == Some(SplitOn(Strip(description), '\n')[0]) &&
        Represents(r.value.states, r.value.alphabet, r.value.final, r.value.transitions,
                   Some(r.value.initial), Describe(description).value)
    {
      var lines := SplitOn(Strip(description), '\n');
      var dfa := new DFA(Some(lines[0]));
      dfa.states := Bidict(map[], map[]);
      var ts := LineParts(description);
      var read := dfa.ReadLines(ts);
      DescriptionRead(description);
      if read.Failure? {
        return Failure(read.error);
      }
      if read.value.None? {
        return Failure(ValueError("DFA expects exactly one initial state."));
      }
      ghost var f := dfa.Snapshot();
      dfa.initial := read.value.value;
      assert dfa.Snapshot() == f;
      return Success(dfa);
    }

    /** The line loop of `from_description` on cleared fields: the lines
        are read in order, and reading stops at the first refused one. */
    method ReadLines(ts: seq<seq<string>>) returns (r: Result<Option<int>>)
      requires Valid() && Snapshot() == Cleared
      modifies this
      ensures Valid() && name == old(name)
      ensures r.Success? <==> LinesRead(ts).Success?
      ensures r.Failure? ==> r.error.ValueError?
      ensures r.Success? ==> LinesRead(ts).value == (Snapshot(), r.value)
    {
      var initial: Option<int> := None;
      for k := 0 to |ts|
        invariant Valid() && name == old(name)
        invariant LinesRead(ts[..k]) == Success((Snapshot(), initial))
      {
        assert ts[..k + 1][..k] == ts[..k];
        var step := ReadLine(ts[k], initial);
        if step.Failure? {
          LinesReadPrefixFailure(ts, k + 1);
          return Failure(step.error);
        }
        initial := step.value;
      }
      assert ts[..|ts|] == ts;
      return Success(initial);
    }

    /** `step`: the state reached by one symbol, as an empty or singleton set. */
    function Step(state: int, symbol: int): (r: Result<set<int>>)
      reads this
      ensures r.Success? <==> state in states.inv && symbol in alphabet.inv
      ensures r.Failure? ==> r.error.ValueError?
      ensures r.Success? ==>
        ((state, symbol) in transitions ==> r.value == {transitions[(state, symbol)]}) &&
        ((state, symbol) !in transitions ==> r.value == {})
    {
      if state !in states.inv then Failure(ValueError("not a valid state"))
      else if symbol !in alphabet.inv then Failure(ValueError("not in the alphabet"))
      else if (state, symbol) in transitions then Success({transitions[(state, symbol)]})
      else Success({})
    }

    /** The behaviour of `follow` from a state: the symbols are looked up
        one by one, and the walk stops with the empty set at the first
        missing transition, before the remaining symbols are looked up. */
    function Run(state: int, word: seq<Obj>): (r: Result<set<int>>)
      reads this
      decreases |word|
    {
      if state !in states.inv then Failure(ValueError("not a valid state"))
      else if word == [] then Success({state})
      else if word[0] !in alphabet.fwd then Failure(ValueError("Symbol is not in the alphabet"))
      else
        var symbol := alphabet.fwd[word[0]];
        var next :- Step(state, symbol);
        if (state, symbol) !in transitions then Success({})
        else Run(transitions[(state, symbol)], word[1..])
    }

    /** `follow`. */
    method Follow(state: int, word: Word<Obj>) returns (r: Result<set<int>>)
      requires Valid()
      ensures r == Run(state, word.symbols)
    {
      if state !in states.inv {
        return Failure(ValueError("not a valid state"));
      }
      var q := state;
      var k := 0;
      while k < |word.symbols|
        invariant 0 <= k <= |word.symbols| && q in states.inv
        invariant Run(state, word.symbols) == Run(q, word.symbols[k..])
      {
        var symbol := word.symbols[k];
        if symbol !in alphabet.fwd {
          return Failure(ValueError("Symbol is not in the alphabet"));
        }
        var sid := alphabet.fwd[symbol];
        if (q, sid) !in transitions {
          return Success({});
        }
        q := transitions[(q, sid)];
        assert word.symbols[k..][1..] == word.symbols[k + 1..];
        k := k + 1;
      }
      return Success({q});
    }

    /** The verdict of `accept`: a word with a symbol outside the alphabet is
        rejected outright, otherwise it is followed from the initial state. */
    function Accepts(word: seq<Obj>): (r: Result<bool>)
      reads this
    {
      if exists k :: 0 <= k < |word| && word[k] !in alphabet.fwd then Success(false)
      else
        var reached :- Run(initial, word);
        Success(exists q :: q in reached && q in final)
    }

    /** `accept`. */
    method Accept(word: Word<Obj>) returns (r: Result<bool>)
      requires Valid()
      ensures r == Accepts(word.symbols)
    {
      for k := 0 to |word.symbols|
        invariant forall j :: 0 <= j < k ==> word.symbols[j] in alphabet.fwd
      {
        if word.symbols[k] !in alphabet.fwd {
          return Success(false);
        }
      }
      var reached := Follow(initial, word);
      if reached.Failure? {
        return Failure(reached.error);
      }
      if reached.value == {} {
        return Success(false);
      }
      return Success(exists q :: q in reached.value && q in final);
    }
  }

  /** A word is followed deterministically: at most one state is reached,
      and any reached state is a state of the automaton. */
  lemma {:induction false} RunDeterministic(d: DFA, q: int, w: seq<Obj>)
    requires d.Valid()
    ensures d.Run(q, w).Success? ==>
      d.Run(q, w).value == {} ||
      exists p :: d.Run(q, w).value == {p} && p in d.states.inv
    decreases |w|
  {
    if q in d.states.inv && w != [] && w[0] in d.alphabet.fwd {
      var symbol := d.alphabet.fwd[w[0]];
      if (q, symbol) in d.transitions {
        RunDeterministic(d, d.transitions[(q, symbol)], w[1..]);
      }
    }
  }

  /** Following u then v is following their concatenation; when u runs into
      a missing transition, the symbols of v are never looked up. */
  lemma {:induction false} RunConcat(d: DFA, q: int, u: seq<Obj>, v: seq<Obj>)
    requires d.Valid()
    ensures d.Run(q, u).Success? && d.Run(q, u).value == {} ==> d.Run(q, u + v) == Success({})
    ensures d.Run(q, u).Failure? ==> d.Run(q, u + v) == d.Run(q, u)
    ensures forall p :: d.Run(q, u) == Success({p}) ==> d.Run(q, u + v) == d.Run(p, v)
    decreases |u|
  {
    if q in d.states.inv {
      if u == [] {
        assert u + v == v;
      } else {
        assert (u + v)[0] == u[0] && (u + v)[1..] == u[1..] + v;
        if u[0] in d.alphabet.fwd {
          var symbol := d.alphabet.fwd[u[0]];
          if (q, symbol) in d.transitions {
            RunConcat(d, d.transitions[(q, symbol)], u[1..], v);
          }
        }
      }
    }
  }

  /** `accept` holds exactly when every symbol is in the alphabet and the
      walk from the initial state ends in a final state. */
  lemma AcceptsMeans(d: DFA, w: seq<Obj>)
    requires d.Valid()
    ensures d.Accepts(w) == Success(true) <==>
      (forall k :: 0 <= k < |w| ==> w[k] in d.alphabet.fwd) &&
      exists q :: d.Run(d.initial, w) == Success({q}) && q in d.final
  {
    RunDeterministic(d, d.initial, w);
  }
}
