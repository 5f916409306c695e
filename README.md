# pbsf core, modelled in Dafny

pbsf is a pattern-learning library for time series. A series is cut into
subsequences by a segmenter. A discretiser turns each subsequence into a
*chain*: one node per depth, from coarse to fine. A pattern model learns
chains and later answers whether it has seen a chain.

The pattern models are:

- a set per depth (`PatternSet`);
- a tree of matched nodes (`PatternTree`);
- a layered graph shared between chains (`PatternGraph`);
- a set of *nested words*, each built from a window of consecutive chains
  (`NestedWordSet`).

The library also has words and deterministic automata that read them
(`DFA`), and automata that read from both ends (`biDFA`).

This project models that core in Dafny and proves what each operation
promises. It has one module per source file:

| module | file | models |
|---|---|---|
| `Words` | `words.dfy` | `Word`: construction, equality, indexing, slicing, `+` and `*` |
| `Automata` | `dfa.dfy` | the `DFA` class: bidict-based states and alphabet, `from_description`, `follow`, `accept` |
| `BiAutomata` | `bidfa.dfy` | the `biDFA` class: left and right states over a `DFA` |
| `Digraphs` | `digraph.dfy` | `Digraph`, and `LayeredDigraph` with its layer invariant |
| `MatchingRelations` | `matching_relation.dfy` | `MatchingRelation`: two lists of links, `set_match`, `remove_match`, slicing, `extend` |
| `NestedWords` | `nested_word.dfy` | `NestedWord`: the tagged form and its round trip, `add_calls`, `add_returns`, concatenation |
| `SlopeSign` | `slope_sign_node.dfy` | `SlopeSignNode`: `distance`, `__eq__`, `__hash__` |
| `Discretisers` | `discretisers.dfy` | `_divide` and `Summation.discretise` |
| `Segmenters` | `sliding_window.dfy` | `SlidingWindow`: its configuration and `segment` |
| `PatternNodes` | `pattern_nodes.dfy` | what the models assume about node equality |
| `PatternSets` | `pattern_set.dfy` | `PatternSet` |
| `PatternTrees` | `pattern_tree.dfy` | `PatternTree` |
| `PatternGraphs` | `pattern_graph.dfy` | `PatternGraph` |
| `NestedWordSets` | `nw_set.dfy` | `NestedWordSet` |
| `Text`, `Arith`, `Wrappers` | | helpers: Python string built-ins, small arithmetic facts, `Option`/`Result` |

## How the model is organised

The classes the library mutates are Dafny classes, with the same fields,
and their methods carry `modifies` clauses. Where a property relates several
calls, the class also has a value-level view. For example,
`MatchingRelation.Value()` is a `Matching`, and `NestedWord.Value()` is an
`NW`. Each method is proved against a function on that view:

- `set_match` against `SetMatched`;
- `from_tagged_sequence` against `FromTagged`;
- `_combine_nws` against `Combined`.

The lemmas are stated about those functions.

Error handling is explicit:

- A Python exception is a `Failure` carrying the exception class and message.
- `None` is `Option.None`.
- The `None` and `-1` of the matching lists become `Link = Pending | Unset`.

Nodes are kept abstract. Each pattern model is generic over the node type
and receives the node's `__eq__` (and `distance`, where it is used) as
function-valued fields. The properties of a model hold when that equality is
an equivalence relation (`PatternNodes.IsEquivalence`).
`SlopeSignNode` is modelled on its own, and it shows when this assumption
fails (see Findings).

Python's integers are unbounded, as Dafny's are. Python's `int(x)` truncates
toward zero (`Discretisers.Trunc`). `_divide` applies it to
`begin + k * step`, where `step = (end - begin) / number` is a double, so
the product can land just below an integer. The model takes that evaluation
as a parameter `fl: Discretisers.Rounding` and assumes only what double
arithmetic guarantees for moderate sizes (`Discretisers.Admissible`):
- bound 0 is `begin`;
- bounds keep their order;
- each bound is the exact truncation `Discretisers.Cut`, except that it may
  be one step toward zero when the exact value is an integer and the step
  is not.

`Discretisers.ExactRounding` is exact arithmetic. `Discretisers.ShortLast`
is the rounding that `_divide(0, 15, 11)` really meets: its last bound is
14, not 15 (see Findings).

The model follows the code where the library's prose says otherwise. The
documentation describes a chain of `max_depth + 1` nodes, but
`Summation.discretise` loops over `range(max_depth(segment))`. The model
therefore yields `max_depth(segment)` nodes.

## Model

| member | source | states |
|---|---|---|
| Words.MakeWord | src/pbsf/utils/words/word.py:15-25 | no sequence gives the empty word; otherwise the word holds exactly the given symbols |
| Words.EqualsMeansSameSymbols | src/pbsf/utils/words/word.py:35-39 | two words are equal exactly when their symbol sequences are; a word never equals a non-word |
| Words.At | src/pbsf/utils/words/word.py:49-50 | an index in [-len, len) gives the symbol, counted from the end when negative; any other index raises IndexError |
| Words.AtNegative | src/pbsf/utils/words/word.py:49-50 | a negative index reaches the same symbol as its non-negative twin |
| Words.Slice | src/pbsf/utils/words/word.py:47-48 | a slice without a step never fails. Bounds are normalised as Python does; the result has `hi - lo` symbols when `lo < hi` and none otherwise, and symbol k is symbol `lo + k` of the word |
| Words.SliceInRange | src/pbsf/utils/words/word.py:47-48 | with in-range bounds the slice is exactly the subsequence between them |
| Words.SliceSplit | src/pbsf/utils/words/word.py:45-50 | `w[:k] + w[k:] == w` for every integer k, including negative ones and ones beyond the end |
| Words.Concat | src/pbsf/utils/words/word.py:56-58 | the concatenation holds the first word's symbols, then the second's |
| Words.ConcatMonoid | src/pbsf/utils/words/word.py:56-58 | the empty word is the identity of `+`, and `+` is associative |
| Words.Repeat | src/pbsf/utils/words/word.py:60-66 | `w * n` has `n * len(w)` symbols for positive n and none otherwise |
| Words.RepeatAt | src/pbsf/utils/words/word.py:60-66 | symbol j of copy i of `w * n` is symbol j of w |
| Words.RepeatAdd | src/pbsf/utils/words/word.py:60-66 | `w * (m + n) == w * m + w * n` for non-negative m and n |
| Automata.PutFresh | src/pbsf/utils/acceptors/dfa.py:242 | putting a new key under a new value into a bidict adds exactly that entry and keeps the inverse consistent |
| Automata.FirstFree | src/pbsf/utils/acceptors/dfa.py:125-131 | the identifier found is at least the starting one and names neither a state nor a symbol |
| Automata.FirstFreeLeast | src/pbsf/utils/acceptors/dfa.py:125-131 | every identifier skipped on the way is in use, so the one found is the least free one |
| Automata.DFA.constructor | src/pbsf/utils/acceptors/dfa.py:21-28 | a new DFA has only the anonymous initial state 0, no symbols, no final states and no transitions |
| Automata.DFA.NextFreeIdentifier | src/pbsf/utils/acceptors/dfa.py:125-131 | returns the least free identifier from the last one handed out and remembers it |
| Automata.DFA.AddState | src/pbsf/utils/acceptors/dfa.py:217-247 | a name already taken is refused with ValueError and nothing changes; otherwise exactly one state is added under the next free identifier and the automaton stays consistent |
| Automata.DFA.AddSymbol | src/pbsf/utils/acceptors/dfa.py:160-190 | the alphabet counterpart of `AddState`: a symbol already in the alphabet is refused with ValueError and nothing changes; otherwise exactly one symbol is added under the next free identifier. For an anonymous symbol whose integer key is taken the refusal is the correction of the Findings row for dfa.py:183-190, where the source overwrites the key |
| Automata.DFA.AddStates | src/pbsf/utils/acceptors/dfa.py:249-272 | refused without change, the free identifier included, when an object is already a state. Otherwise the new states, the free identifier and the returned identifiers are those of `Added`, adding the objects one at a time. A refusal leaves exactly the objects before the first repeated one added. Named objects succeed exactly when none repeats, and each then maps to its identifier |
| Automata.AddedGrows | src/pbsf/utils/acceptors/dfa.py:125-131 | when every object is accepted, the bidict gains exactly one entry per object. The identifiers are unused before, increase strictly and start at or above the free identifier |
| Automata.AddedStops | src/pbsf/utils/acceptors/dfa.py:272 | a refused list stops at some object j: the objects before j were all accepted and the bidict is theirs, and a named object j was already a key |
| Automata.AddedNamed | src/pbsf/utils/acceptors/dfa.py:249-272 | named objects that are not yet keys are all accepted exactly when none occurs twice, and then the keys are the old keys plus the objects |
| Automata.AddedMaps | src/pbsf/utils/acceptors/dfa.py:239-243 | after an accepted list every named object maps to the identifier handed out for it |
| Automata.AddedExtends | src/pbsf/utils/acceptors/dfa.py:239-246 | adding objects never changes or removes an entry already present |
| Automata.DFA.AddSymbols | src/pbsf/utils/acceptors/dfa.py:192-215 | the alphabet counterpart of `AddStates`, with the same fold, stop and count guarantees; each step is the corrected `AddSymbol`, so an anonymous entry whose integer key is taken stops the fold where the source overwrites the key |
| Automata.DFA.Size | src/pbsf/utils/acceptors/dfa.py:147-158 | the number of states equals the number of state identifiers, and there are at most as many transitions as states times symbols, so at most one per state and symbol |
| Automata.SizeBound | src/pbsf/utils/acceptors/dfa.py:147-158 | in a coherent automaton the states are as many as their identifiers, and the transitions are bounded by states times symbols |
| Automata.InverseSize | src/pbsf/utils/acceptors/dfa.py:147-158 | a bidict has as many keys as values |
| Automata.DFA.SetTransition | src/pbsf/utils/acceptors/dfa.py:274-302 | fails with ValueError exactly when a state or the symbol is unknown or the (state, symbol) pair already has a transition; otherwise adds exactly that transition |
| Automata.ApplyLine | src/pbsf/utils/acceptors/dfa.py:73-118 | what one description line declares; a misplaced or repeated `initial`, a repeated (source, symbol) pair and an unrecognised line are ValueErrors |
| Automata.ParseLinesMeans | src/pbsf/utils/acceptors/dfa.py:72-118 | reading the lines succeeds exactly when they satisfy `LinesAccepted`: no unrecognised line, one state per `initial` line and at most one such line, no (source, symbol) pair twice |
| Automata.LinesReadHolds | src/pbsf/utils/acceptors/dfa.py:72-118 | reading the lines into the DFA's fields fails exactly when the declarative reading does, with ValueError, and otherwise the fields hold what it read |
| Automata.DescriptionRead | src/pbsf/utils/acceptors/dfa.py:31-123 | a description is accepted exactly when its lines read without error and name an initial state, and then the fields hold what it declares |
| Automata.DFA.ReadLine | src/pbsf/utils/acceptors/dfa.py:74-118 | one line of `from_description` on the object: its effect is `LineRead` of the fields before |
| Automata.DFA.ReadLines | src/pbsf/utils/acceptors/dfa.py:72-118 | the line loop on cleared fields equals `LinesRead`, stopping at the first refused line |
| Automata.DFA.FromDescription | src/pbsf/utils/acceptors/dfa.py:31-123 | refuses exactly the descriptions `Describe` refuses; otherwise the new DFA is consistent, is named by the first line and holds exactly the declared states, finals, initial state and transitions |
| Automata.DFA.Step | src/pbsf/utils/acceptors/dfa.py:304-335 | an unknown state or symbol raises ValueError; otherwise the result is the empty set or the single target of the transition |
| Automata.DFA.Follow | src/pbsf/utils/acceptors/dfa.py:337-377 | equals the walk `Run`, which stops at the first missing transition before looking up the remaining symbols |
| Automata.RunDeterministic | src/pbsf/utils/acceptors/dfa.py:337-377 | at most one state is reached, and it is a state of the automaton |
| Automata.RunConcat | src/pbsf/utils/acceptors/dfa.py:337-377 | following u and then v is following u + v |
| Automata.DFA.Accept | src/pbsf/utils/acceptors/dfa.py:379-409 | equals `Accepts`: a symbol outside the alphabet rejects, otherwise the walk from the initial state decides |
| Automata.AcceptsMeans | src/pbsf/utils/acceptors/dfa.py:379-409 | a word is accepted exactly when every symbol is in the alphabet and the walk from the initial state ends in a final state |
| Automata.AnonymousEntryAsWritten | src/pbsf/utils/acceptors/dfa.py:245-246 | the anonymous entry as written maps the key `identifier` to the new identifier and keeps every other key |
| Automata.AnonymousEntryOverwritten | src/pbsf/utils/acceptors/dfa.py:245-246 | after the anonymous entry as written, the state the key named before, if it named another identifier, is dropped. The number of states grows only when the key was free, and the bidict stays its own inverse |
| Automata.AnonymousEntryOverwrites | src/pbsf/utils/acceptors/dfa.py:239-247 | an instance of `AnonymousEntryAsWritten`: the state named by the integer 2 with identifier 1 is dropped when identifier 2 is handed out (see Findings) |
| Automata.AnonymousSymbolOverwrites | src/pbsf/utils/acceptors/dfa.py:183-190 | the anonymous entry of `add_symbol` as written, on a new automaton: the symbol named by the integer 2 gets identifier 1, the next anonymous symbol gets identifier 2 and takes over key 2, so symbol 1 is dropped and the alphabet does not grow (see Findings) |
| BiAutomata.BiDFA.constructor | src/pbsf/utils/acceptors/bidfa.py:17-20 | a new biDFA is a new DFA whose initial state is a left state |
| BiAutomata.BiDFA.AddLeft | src/pbsf/utils/acceptors/bidfa.py:100-124 | a new state of the DFA, added as the corrected `Automata.DFA.AddState` adds it, joins the left states; on refusal nothing changes |
| BiAutomata.BiDFA.AddRight | src/pbsf/utils/acceptors/bidfa.py:126-150 | the same for the right states |
| BiAutomata.BiDFA.AddStates | src/pbsf/utils/acceptors/bidfa.py:46-75 | refused without change when an object is already a state; otherwise the objects become left states in order |
| BiAutomata.BiDFA.Swap | src/pbsf/utils/acceptors/bidfa.py:77-98 | a state on neither side is refused; otherwise the state moves to the other side (`SwapSides`) |
| BiAutomata.SwapKeepsPartition | src/pbsf/utils/acceptors/bidfa.py:77-98 | a swap keeps left and right a partition of the same states and moves exactly the swapped state |
| BiAutomata.SwapTwice | src/pbsf/utils/acceptors/bidfa.py:77-98 | swapping a state twice restores both sides |
| BiAutomata.BiDFA.AddSymbol | src/pbsf/utils/acceptors/dfa.py:160-190 | the inherited `add_symbol`, with the correction of `Automata.DFA.AddSymbol` for a taken anonymous key, adds the symbol exactly as the DFA does and leaves the states and both sides unchanged |
| BiAutomata.BiDFA.SetTransition | src/pbsf/utils/acceptors/dfa.py:274-302 | the inherited `set_transition` leaves the states and both sides unchanged |
| BiAutomata.BiDFA.Follow | src/pbsf/utils/acceptors/bidfa.py:152-191 | equals `BiRun`: a left state consumes the first symbol and a right state the last |
| BiAutomata.BiRunDeterministic | src/pbsf/utils/acceptors/bidfa.py:152-191 | at most one state is reached, and after at least one symbol it is a state of the automaton |
| BiAutomata.BiRunTotal | src/pbsf/utils/acceptors/bidfa.py:152-191 | the walk fails exactly when it is about to read through an invalid state or an identifier outside the alphabet |
| BiAutomata.AllLeftReadsForward | src/pbsf/utils/acceptors/bidfa.py:152-191 | with only left states a biDFA reads like a DFA, first symbol first |
| BiAutomata.AllRightReadsBackward | src/pbsf/utils/acceptors/bidfa.py:152-191 | with only right states it reads like a DFA on the reversed sequence |
| BiAutomata.ReversedTwice | src/pbsf/utils/acceptors/bidfa.py:152-191 | reversing twice gives the sequence back |
| BiAutomata.BiDFA.Accept | src/pbsf/utils/acceptors/bidfa.py:193-224 | equals `Accepts`: an identifier outside the alphabet rejects, otherwise the walk from the initial state decides |
| BiAutomata.AcceptsMeans | src/pbsf/utils/acceptors/bidfa.py:193-224 | a sequence is accepted exactly when every identifier is in the alphabet and the walk from the initial state ends in a final state |
| Digraphs.Digraph.AddVertex | src/pbsf/utils/digraph.py:16-42 | the new vertex gets the next identifier, its properties and no edges; nothing else changes |
| Digraphs.Digraph.AddEdge | src/pbsf/utils/digraph.py:44-64 | fails with ValueError exactly when an end is missing; otherwise the source's targets gain the target (adding twice changes nothing) |
| Digraphs.Digraph.Outgoing | src/pbsf/utils/digraph.py:66-87 | an unknown vertex raises ValueError; otherwise the targets, which are all vertices |
| Digraphs.UpdateLayer | src/pbsf/utils/layered_digraph.py:25-46 | the vertex moves to the layer, the layer list grows by one exactly when the layer is new, and every other vertex keeps its layer |
| Digraphs.LayeredDigraph.MoveToLayer | src/pbsf/utils/layered_digraph.py:25-46 | the object's layered state becomes `UpdateLayer` of the old one, and `max_depth` is the number of layers |
| Digraphs.VertexAdded | src/pbsf/utils/layered_digraph.py:48-72 | a new vertex sits in the root layer |
| Digraphs.AddVertexPreserves | src/pbsf/utils/layered_digraph.py:48-72 | adding a vertex keeps the graph layered |
| Digraphs.LayeredDigraph.AddVertex | src/pbsf/utils/layered_digraph.py:48-72 | the new vertex is appended and its layered state is `VertexAdded` of the old one |
| Digraphs.EdgeAdded | src/pbsf/utils/layered_digraph.py:74-106 | a missing end raises IndexError; an edge into the root layer from a target with outgoing edges (or from itself), or one that skips a layer, raises ValueError; an accepted edge is added and its target moves one layer below the source |
| Digraphs.AddEdgePreserves | src/pbsf/utils/layered_digraph.py:74-106 | an accepted edge keeps the graph layered: every edge goes one layer deeper and no edge enters the root layer |
| Digraphs.UpdateLayerKeepsLayers | src/pbsf/utils/layered_digraph.py:25-46 | when one vertex moves, the layer sets stay exactly those the layer numbers name |
| Digraphs.LayeredDigraph.AddEdge | src/pbsf/utils/layered_digraph.py:74-106 | the object's layered state follows `EdgeAdded`; the graph stays layered |
| Digraphs.PathDescends | src/pbsf/utils/layered_digraph.py:4-19 | along any path of a layered graph each edge goes one layer deeper |
| Digraphs.Acyclic | src/pbsf/utils/layered_digraph.py:4-19 | a layered graph has no cycle |
| Digraphs.LayeredDigraph.Outgoing | src/pbsf/utils/layered_digraph.py:108-127 | an unknown vertex fails; otherwise the result is the vertex's own edge set, and every target lies one layer below the vertex |
| Digraphs.LayerAt | src/pbsf/utils/layered_digraph.py:129-150 | a layer in [-depth, depth) gives the vertices of that layer, counted from the deepest when negative; any other layer raises IndexError |
| Digraphs.EdgeAddedAsWritten | src/pbsf/utils/layered_digraph.py:93-106 | `add_edge` as written: accepts an edge from a root-layer vertex without outgoing edges to itself |
| Digraphs.SelfLoopBreaksLayering | src/pbsf/utils/layered_digraph.py:93-106 | concrete case: that self-loop moves the vertex to layer 1 and leaves an edge inside a layer (see Findings) |
| MatchingRelations.Empty | src/pbsf/utils/nested_word.py:43-64 | a new relation of length n has n internal positions |
| MatchingRelations.ReportedMatch | src/pbsf/utils/nested_word.py:209-240 | a position outside [0, length) raises ValueError; an internal position gives nothing; otherwise the position's match, with a call reported as a call |
| MatchingRelations.PendingCallsAre | src/pbsf/utils/nested_word.py:273-282 | the pending calls are exactly the positions whose successor is `None` |
| MatchingRelations.PendingReturnsAre | src/pbsf/utils/nested_word.py:284-293 | the pending returns are exactly the positions with a `None` predecessor that are not calls |
| MatchingRelations.CrossesSymmetric | src/pbsf/utils/nested_word.py:146-174 | the crossing test is symmetric in the two matches |
| MatchingRelations.ValidatePosition | src/pbsf/utils/nested_word.py:132-144 | a position is accepted exactly in [0, length), otherwise ValueError |
| MatchingRelations.CheckAsWritten | src/pbsf/utils/nested_word.py:176-182 | `_validate_properties` as written: no sides, an order violation, a position out of range or a crossing raise ValueError |
| MatchingRelations.Check | src/pbsf/utils/nested_word.py:176-182 | the same checks with the missing role check added (see Findings) |
| MatchingRelations.SetMatched | src/pbsf/utils/nested_word.py:184-207 | `set_match` with the role check: on success the two list entries are written and the pair returned |
| MatchingRelations.SetMatchedFails | src/pbsf/utils/nested_word.py:184-207 | `set_match` fails exactly when the indices, the order, a position, a crossing or the role check fails |
| MatchingRelations.SetMatchedEffect | src/pbsf/utils/nested_word.py:184-207 | afterwards the call side is a call, the return side a return, `get_match` reports the pair at both ends, a lone side is pending, and no other position changes |
| MatchingRelations.SetMatchedKeepsWellMatched | src/pbsf/utils/nested_word.py:184-207 | the corrected `set_match` keeps a relation well matched: lists consistent, one role per position, no crossing |
| MatchingRelations.SetMatchedAsWrittenBreaksConsistency | src/pbsf/utils/nested_word.py:184-207 | concrete case in which `set_match` as written leaves the two lists disagreeing (see Findings) |
| MatchingRelations.RemovedMatch | src/pbsf/utils/nested_word.py:295-316 | an index outside [-length, length) raises IndexError, an internal or negative position raises ValueError, otherwise both ends become internal |
| MatchingRelations.RemovedMatchFails | src/pbsf/utils/nested_word.py:295-316 | `remove_match` raises exactly outside [0, length) and at internal positions |
| MatchingRelations.RemovedMatchEffect | src/pbsf/utils/nested_word.py:295-316 | both ends of the match become internal, nothing else changes, and the relation stays well matched |
| MatchingRelations.SetThenRemove | src/pbsf/utils/nested_word.py:184-316 | removing a match just set restores the relation it was set in |
| MatchingRelations.Extended | src/pbsf/utils/nested_word.py:318-329 | `extend(k)` appends k internal positions |
| MatchingRelations.ExtendedKeepsMatches | src/pbsf/utils/nested_word.py:318-329 | extending keeps every match, adds none, and keeps the relation well matched |
| MatchingRelations.SliceBounds | src/pbsf/utils/nested_word.py:393-400 | missing bounds default to the whole relation; a negative start, a stop beyond the length or a start after the stop raise ValueError |
| MatchingRelations.Sliced | src/pbsf/utils/nested_word.py:374-423 | the relation `m[a:b]`, position by position, with the old matches seen from the slice |
| MatchingRelations.SlicedPositions | src/pbsf/utils/nested_word.py:401-421 | in `m[a:b]` a match inside keeps its partner, a match with one end outside becomes pending, and internal positions stay internal |
| MatchingRelations.SlicedWellMatched | src/pbsf/utils/nested_word.py:374-423 | a slice of a well-matched relation is well matched |
| MatchingRelations.JoinedWellMatched | src/pbsf/utils/nested_word.py:717-732 | two well-matched relations written one after the other stay well matched when the second has no pending return: the pending calls of the first stay pending and no match crosses the boundary |
| MatchingRelations.FromMatches | src/pbsf/utils/nested_word.py:43-64 | the constructor with pairs: the pairs are set in order, and the first rejected pair makes it raise that error |
| MatchingRelations.FromMatchesWellMatched | src/pbsf/utils/nested_word.py:43-64 | every relation the constructor builds is well matched |
| MatchingRelations.FromMatchesFailureStays | src/pbsf/utils/nested_word.py:62-64 | once a pair is rejected, the constructor raises that error whatever follows |
| MatchingRelations.MatchingRelation.constructor | src/pbsf/utils/nested_word.py:43-64 | `MatchingRelation(length)` is `Empty(length)` |
| MatchingRelations.MatchingRelation.Create | src/pbsf/utils/nested_word.py:43-64 | the object equals `FromMatches`, or the constructor raises its error |
| MatchingRelations.MatchingRelation.SetMatch | src/pbsf/utils/nested_word.py:184-207 | the object changes as `SetMatched` says and is unchanged on failure |
| MatchingRelations.MatchingRelation.RemoveMatch | src/pbsf/utils/nested_word.py:295-316 | the object changes as `RemovedMatch` says and is unchanged on failure |
| MatchingRelations.MatchingRelation.Extend | src/pbsf/utils/nested_word.py:318-329 | the object becomes `Extended` of the old one |
| MatchingRelations.MatchingRelation.Slice | src/pbsf/utils/nested_word.py:374-423 | bounds are checked as `SliceBounds` says; otherwise a fresh relation equal to `Sliced` |
| MatchingRelations.MatchingRelation.Equals | src/pbsf/utils/nested_word.py:354-372 | two relations are equal exactly when they are the same relation: the same successor and predecessor lists |
| MatchingRelations.MatchingRelation.CopyPosition | src/pbsf/utils/nested_word.py:401-421 | one turn of the slicing loop sets the matches `Built` says for one more position |
| NestedWords.Chunk | src/pbsf/utils/nested_word.py:525-530 | position i is emitted as its symbol, preceded by `<` at a call and followed by `>` at a return |
| NestedWords.FromTagged | src/pbsf/utils/nested_word.py:465-496 | the word is the symbols of the tags; the relation is read with a stack and the calls left open become pending; a rejected `set_match` raises |
| NestedWords.FromTaggedWellFormed | src/pbsf/utils/nested_word.py:465-496 | whatever `from_tagged_sequence` accepts is a well-formed nested word |
| NestedWords.ReadTagsFailureStays | src/pbsf/utils/nested_word.py:486-493 | once a `set_match` raises, the rest of the sequence raises the same error |
| NestedWords.SymbolsTagged | src/pbsf/utils/nested_word.py:515-531 | the symbols of the tagged form are the word |
| NestedWords.TaggedRoundTrip | src/pbsf/utils/nested_word.py:465-531 | `from_tagged_sequence(nw.to_tagged())` gives back every well-matched nested word |
| NestedWords.TaggedTextRoundTrip | src/pbsf/utils/nested_word.py:478-531 | a well-matched word of characters without `"<"` or `">"` comes back unchanged from `to_tagged` followed by `from_tagged_sequence` |
| NestedWords.MarkerSymbolBreaksRoundTrip | src/pbsf/utils/nested_word.py:478-531 | a symbol equal to `"<"` is read back as a call tag: the one-position word `"<"` does not come back |
| NestedWords.SelfMatchFails | src/pbsf/utils/nested_word.py:486-493 | the tags `< a >` do not read back: the call would be matched with its own position |
| NestedWords.DoubleRoleAccepted | src/pbsf/utils/nested_word.py:184-207 | concrete case: `set_match` as written gives one position two roles |
| NestedWords.DoubleRoleRoundTripFails | src/pbsf/utils/nested_word.py:465-531 | such a position has a tagged form that does not read back, and the role check rejects it |
| NestedWords.CallsAddedEffect | src/pbsf/utils/nested_word.py:545-557 | `add_calls` appends pending calls and changes no earlier position |
| NestedWords.CallsAddedWellMatched | src/pbsf/utils/nested_word.py:545-557 | `add_calls` keeps the relation well matched |
| NestedWords.PendingFromSorted | src/pbsf/utils/nested_word.py:572 | the list used by `add_returns` holds exactly the pending calls in decreasing order |
| NestedWords.ReturnsAddedEffect | src/pbsf/utils/nested_word.py:559-576 | the i-th new return closes the i-th most recent pending call; surplus returns are pending, unpaired pending calls stay pending, and nothing else changes |
| NestedWords.ReturnsUpToWellMatched | src/pbsf/utils/nested_word.py:573-576 | every relation on the way through `add_returns` is well matched |
| NestedWords.PendingAfterReturns | src/pbsf/utils/nested_word.py:559-576 | after `add_returns` of k symbols the pending calls are the original ones minus the k most recent |
| NestedWords.ReturnsAddedOneMore | src/pbsf/utils/nested_word.py:600-609 | `add_return` after k returns is `add_returns` of k + 1 symbols, while a pending call is left |
| NestedWords.PendingCount | src/pbsf/utils/nested_word.py:572 | the sorted list has as many entries as there are pending calls |
| NestedWords.ConcatenatedWord | src/pbsf/utils/nested_word.py:717-732 | the word of `nw1 + nw2` is the two words joined |
| NestedWords.TaggedJoined | src/pbsf/utils/nested_word.py:515-531 | the tagged form of two words written one after the other, each keeping its matches, is their tagged forms joined |
| NestedWords.ConcatenatedSucceeds | src/pbsf/utils/nested_word.py:717-732 | `nw1 + nw2` succeeds whenever nw2 has no pending return, and gives the two words joined with each keeping its own matches |
| NestedWords.ConcatenatedEmpty | src/pbsf/utils/nested_word.py:717-732 | the empty nested word is a unit of `+` on both sides |
| NestedWords.NestedWord.Create | src/pbsf/utils/nested_word.py:435-462 | no relation gives an empty one; lengths that differ raise ValueError |
| NestedWords.NestedWord.Equals | src/pbsf/utils/nested_word.py:667-687 | two nested words are equal exactly when they have the same word and the same relation |
| NestedWords.NestedWord.ToTagged | src/pbsf/utils/nested_word.py:515-531 | returns `Tagged` of the nested word, chunk by chunk |
| NestedWords.NestedWord.FromTaggedSequence | src/pbsf/utils/nested_word.py:465-496 | succeeds exactly when `FromTagged` does, with its error otherwise, and then holds its value |
| NestedWords.NestedWord.ReadEach | src/pbsf/utils/nested_word.py:486-493 | the first loop equals `ReadTags` |
| NestedWords.NestedWord.CloseEach | src/pbsf/utils/nested_word.py:494-495 | the final loop equals `CloseStack` |
| NestedWords.FromTaggedWord | src/pbsf/utils/nested_word.py:499-513 | `from_tagged_word` is `from_tagged_sequence` of the characters |
| NestedWords.NestedWord.AddInternals | src/pbsf/utils/nested_word.py:533-543 | the symbols are appended as internal positions |
| NestedWords.NestedWord.AddCalls | src/pbsf/utils/nested_word.py:545-557 | the nested word becomes `CallsAdded` of the old one |
| NestedWords.NestedWord.AddReturns | src/pbsf/utils/nested_word.py:559-576 | the nested word becomes `ReturnsAdded` of the old one |
| NestedWords.NestedWord.AddInternal | src/pbsf/utils/nested_word.py:578-587 | one internal position appended |
| NestedWords.NestedWord.AddCall | src/pbsf/utils/nested_word.py:589-598 | one pending call appended |
| NestedWords.NestedWord.AddReturn | src/pbsf/utils/nested_word.py:600-609 | one return appended, closing the most recent pending call if any |
| NestedWords.NestedWord.GetItem | src/pbsf/utils/nested_word.py:642-643 | the symbol and `get_match` at a position in [0, len); a negative index in range reaches `get_match` and raises ValueError, any other index raises IndexError |
| NestedWords.NestedWord.Slice | src/pbsf/utils/nested_word.py:640-641 | the slice of the word with the sliced relation |
| NestedWords.NestedWord.Concat | src/pbsf/utils/nested_word.py:717-732 | `self + other` is `from_tagged_sequence` of the joined tagged forms |
| SlopeSign.Distance | src/pbsf/nodes/slope_sign_node.py:78-100 | a different depth raises ValueError; otherwise the share of differing signs over this node's slopes, NaN for no slopes |
| SlopeSign.DistanceOnEqualLengths | src/pbsf/nodes/slope_sign_node.py:78-100 | for equally long slopes the distance is symmetric, lies in [0, 1], and is 0 exactly when all signs agree and 1 exactly when all differ |
| SlopeSign.Eq | src/pbsf/nodes/slope_sign_node.py:102-123 | a different depth gives false; otherwise whether the distance is exactly 0 |
| SlopeSign.EquivalentOnEqualLengths | src/pbsf/nodes/slope_sign_node.py:102-123 | among non-empty nodes of one length, equality is equality of depth and sign vector, an equivalence relation |
| SlopeSign.Hash | src/pbsf/nodes/slope_sign_node.py:136-145 | the hash key is the sign vector as +1 / -1 |
| SlopeSign.EmptySlopesNotReflexive | src/pbsf/nodes/slope_sign_node.py:100-123 | a node without slopes is not equal to itself |
| SlopeSign.BroadcastingAcrossLengths | src/pbsf/nodes/slope_sign_node.py:98-123 | broadcasting makes a one-slope node equal to nodes of other lengths that are not equal to each other |
| SlopeSign.BroadcastingBreaksHash | src/pbsf/nodes/slope_sign_node.py:102-145 | nodes equal through broadcasting have different hash keys |
| SlopeSign.BroadcastDistanceExceedsOne | src/pbsf/nodes/slope_sign_node.py:98-100 | broadcast against a longer node, the distance can exceed 1 |
| Discretisers.Divide | src/pbsf/discretisers/base.py:34-64 | fewer than one frame, or more frames than positions, raises ValueError; one frame is exactly [begin, end); otherwise `number` frames, the first starting at `begin`, each starting where the previous one ends, all ordered and inside the range, the last ending at `end` or one step toward zero from it |
| Discretisers.ExactAdmissible | src/pbsf/discretisers/base.py:63-64 | exact rational evaluation of `int(begin + k * step)` is an admissible rounding |
| Discretisers.DivideEqualSizes | src/pbsf/discretisers/base.py:63-64 | with a non-negative start, every frame holds `(end - begin) / number` positions or one more, under any admissible rounding |
| Discretisers.NegativeStartEmptyFrame | src/pbsf/discretisers/base.py:63-64 | with a negative start, truncation toward zero gives an empty frame: `_divide(-3, 3, 5)` has frame 2 equal to (0, 0) |
| Discretisers.FrameSumsCoverSegment | src/pbsf/discretisers/sum.py:69-70 | the frame sums of `_divide(0, len, n)` add up to the samples before the last bound, which is the segment length or one less |
| Discretisers.ExactCutsCoverSegment | src/pbsf/discretisers/sum.py:69-70 | in exact arithmetic the frame sums add up to the segment's total |
| Discretisers.ShortLastAdmissible | src/pbsf/discretisers/base.py:63-64 | the rounding whose bound 11 of (0, 15, 11) is 14, as the double `11 * (15 / 11)` gives, is admissible, and its bounds 10 and 11 are 13 and 14 |
| Discretisers.FloatCutsDropLastSample | src/pbsf/discretisers/sum.py:69-70 | under such a rounding the last frame of a 15-sample segment in 11 frames is (13, 14), and the frame sums miss sample 14 |
| Discretisers.Summation.Discretise | src/pbsf/discretisers/sum.py:45-78 | data that is not 1-D raises ValueError. Otherwise it fails exactly when some depth's frame count is out of range, and node d holds depth d and the frame sums of `_divide(0, len, frames(d))` under the given rounding |
| Segmenters.Configure | src/pbsf/segmenters/sliding_window.py:25-48 | construction succeeds exactly with a positive window size and a positive or missing step size; with autocorrelation the size becomes the fallback |
| Segmenters.SlidingWindow.Create | src/pbsf/segmenters/sliding_window.py:25-48 | the object is built exactly when `Configure` succeeds, with its fields |
| Segmenters.SlidingWindow.AcWindowSize | src/pbsf/segmenters/sliding_window.py:50-89 | a detected period gives lag + 1 + 10; otherwise the fallback size |
| Segmenters.Diff | src/pbsf/segmenters/sliding_window.py:125-126 | consecutive differences: one fewer element, each the step between neighbours |
| Segmenters.AllWindows | src/pbsf/segmenters/sliding_window.py:127-129 | every window of w consecutive samples, in order |
| Segmenters.WindowsShape | src/pbsf/segmenters/sliding_window.py:127-130 | window k of the result starts at k * step, and there are (n - w) / step + 1 windows |
| Segmenters.SlidingWindow.Segment | src/pbsf/segmenters/sliding_window.py:91-130 | data that is not 1-D raises; the window size is detected once and kept; too-short data raises; otherwise every step-th window of the (differentiated) data |
| PatternNodes.MatchIsUnique | src/pbsf/models/pattern_graph.py:39-62 | among pairwise distinct nodes at most one equals a given node |
| PatternSets.Updated | src/pbsf/models/pattern_set.py:40-67 | the depth list grows to the chain's length, and every node is in its depth's set |
| PatternSets.Flags | src/pbsf/models/pattern_set.py:59-67 | one flag per node: whether it was already known at its depth |
| PatternSets.UpdateAddsOnlyAbsent | src/pbsf/models/pattern_set.py:62-66 | a node is added at a depth exactly when it was reported absent there, and nothing else changes |
| PatternSets.UpdateRecognises | src/pbsf/models/pattern_set.py:40-123 | after `update(chain)`, `contains(chain)` holds and a second update reports every node present |
| PatternSets.UpdateKeepsRecognised | src/pbsf/models/pattern_set.py:40-123 | a recognised chain stays recognised after any update |
| PatternSets.LearnRecognisesAll | src/pbsf/models/pattern_set.py:69-123 | after `learn(chains)` every learned chain is recognised |
| PatternSets.PatternSet.Update | src/pbsf/models/pattern_set.py:40-67 | the sets become `Updated` and the flags returned are `Flags` |
| PatternSets.PatternSet.Learn | src/pbsf/models/pattern_set.py:69-99 | the sets become `Learned` and the flags are those of each update in turn |
| PatternSets.PatternSet.Contains | src/pbsf/models/pattern_set.py:101-123 | whether every node is in its depth's set, a missing depth counting as absent |
| PatternTrees.WalkIsMaximalPath | src/pbsf/models/pattern_tree.py:99-130 | the walk is a maximal path of vertices matching the chain's prefix |
| PatternTrees.MaximalPathIsWalk | src/pbsf/models/pattern_tree.py:99-130 | in a tree every maximal matched path from the root is the walk |
| PatternTrees.RecognisedIffFullPath | src/pbsf/models/pattern_tree.py:204-222 | the tree recognises a chain exactly when some path from the root matches all of it |
| PatternTrees.GrowsKeepsRecognised | src/pbsf/models/pattern_tree.py:132-168 | a recognised chain stays recognised when the tree grows |
| PatternTrees.AttachOneKeepsTree | src/pbsf/models/pattern_tree.py:163-166 | one fresh vertex below a stuck parent keeps the tree shape: the root first, every other vertex below exactly one earlier vertex, no two siblings holding equal nodes |
| PatternTrees.AttachedKeepsTree | src/pbsf/models/pattern_tree.py:159-167 | the vertices `update` attaches keep that tree shape, and the graph only grows |
| PatternTrees.AttachedCompletesPath | src/pbsf/models/pattern_tree.py:159-167 | below the end of the walk, the attached vertices complete it to a path over the whole chain |
| PatternTrees.PatternTree.constructor | src/pbsf/models/pattern_tree.py:35-43 | a new tree is the root alone |
| PatternTrees.PatternTree.FirstMatch | src/pbsf/models/pattern_tree.py:45-68 | a candidate holding an equal node, and none only when no candidate matches |
| PatternTrees.PatternTree.BestMatch | src/pbsf/models/pattern_tree.py:70-97 | a matching candidate at the least distance, and none only when no candidate matches |
| PatternTrees.PatternTree.ChainToVertices | src/pbsf/models/pattern_tree.py:99-130 | the root followed by the walk |
| PatternTrees.PatternTree.Update | src/pbsf/models/pattern_tree.py:132-168 | the tree becomes the old one with the rest of the chain hung below the walk; the result is a path over the whole chain; the tree shape is kept |
| PatternTrees.PatternTree.Hang | src/pbsf/models/pattern_tree.py:160-167 | the while loop hangs one fresh vertex per remaining node, each below the previous one |
| PatternTrees.PatternTree.Contains | src/pbsf/models/pattern_tree.py:204-222 | whether the walk covers the whole chain |
| PatternTrees.PatternTree.Learn | src/pbsf/models/pattern_tree.py:170-202 | one update per chain; each returned path is the root followed by the final tree's walk along its chain, covering all of it, so every learned chain is recognised |
| PatternTrees.LearnPathsStep | src/pbsf/models/pattern_tree.py:202 | after one more update, every path returned so far still follows its whole chain from the root |
| PatternTrees.FullPathIsWalk | src/pbsf/models/pattern_tree.py:99-130 | in a tree a path following a whole chain from the root is the walk, and the chain is recognised |
| PatternGraphs.Lookup | src/pbsf/models/pattern_graph.py:92-132 | the vertex of layer d holding a node equal to x, if there is one |
| PatternGraphs.LookupUnique | src/pbsf/models/pattern_graph.py:92-132 | in a well-shaped graph that vertex is unique |
| PatternGraphs.Traversal | src/pbsf/models/pattern_graph.py:156-191 | one answer per node: the matching vertex at its depth, or none |
| PatternGraphs.Connections | src/pbsf/models/pattern_graph.py:156-191 | one flag per step: whether both vertices exist and an edge joins them |
| PatternGraphs.Misses | src/pbsf/models/pattern_graph.py:222-226 | the depths at which the traversal found nothing, increasing: the depths `update` creates vertices for |
| PatternGraphs.RecognisesIffPath | src/pbsf/models/pattern_graph.py:267-286 | `contains` answers whether the chain is a layer-by-layer path of the graph |
| PatternGraphs.RecognisesIffFound | src/pbsf/models/pattern_graph.py:267-286 | `contains` answers exactly whether no node is missing and every connection flag is set |
| PatternGraphs.GrowsKeepsRecognised | src/pbsf/models/pattern_graph.py:193-234 | a recognised chain stays recognised as the graph grows |
| PatternGraphs.PathRecognised | src/pbsf/models/pattern_graph.py:193-234 | a graph holding the chain's vertices in their layers, joined by edges, recognises it through exactly those vertices |
| PatternGraphs.KnownChainMissesNothing | src/pbsf/models/pattern_graph.py:222-226 | a chain whose every node is known adds no vertex when updated again |
| PatternGraphs.OneNewDepth | src/pbsf/models/pattern_graph.py:222-226 | a chain new at exactly one depth adds exactly one vertex, for that depth |
| PatternGraphs.LearnStep | src/pbsf/models/pattern_graph.py:236-265 | after one more update, the chain just updated and every earlier one are recognised |
| PatternGraphs.GrowsKeepsChainPath | src/pbsf/models/pattern_graph.py:193-234 | a path through the layers along a chain stays one as the graph grows |
| PatternGraphs.LearnPathsStep | src/pbsf/models/pattern_graph.py:265 | after one more update, the ids it returned are a path of the new graph along its chain, and every earlier path stays one |
| PatternGraphs.PatternGraph.constructor | src/pbsf/models/pattern_graph.py:33-37 | a new pattern graph is an empty layered digraph |
| PatternGraphs.PatternGraph.FirstMatch | src/pbsf/models/pattern_graph.py:39-62 | a candidate holding an equal node, and none only when no candidate matches |
| PatternGraphs.PatternGraph.BestMatch | src/pbsf/models/pattern_graph.py:64-90 | a matching candidate at the least distance, and none only when no candidate matches |
| PatternGraphs.PatternGraph.FindMatchingVertex | src/pbsf/models/pattern_graph.py:92-132 | nothing below the deepest layer; otherwise the parent's children first, then the whole layer; in a well-shaped graph the answer is `Lookup` |
| PatternGraphs.PatternGraph.CheckConnection | src/pbsf/models/pattern_graph.py:134-154 | whether both vertices exist and an edge joins them |
| PatternGraphs.PatternGraph.ChainToVertices | src/pbsf/models/pattern_graph.py:156-191 | returns `Traversal` and `Connections` |
| PatternGraphs.PatternGraph.FillGaps | src/pbsf/models/pattern_graph.py:222-226 | the first loop of `update` gives each gap a fresh vertex holding the chain's node |
| PatternGraphs.PatternGraph.ConnectGaps | src/pbsf/models/pattern_graph.py:228-232 | the second loop adds an edge for each missing connection |
| PatternGraphs.PatternGraph.Update | src/pbsf/models/pattern_graph.py:193-234 | matched vertices are reused, each gap gets a fresh vertex, each missing step an edge; afterwards the chain is recognised through the returned vertices and the graph only grew |
| PatternGraphs.PatternGraph.Learn | src/pbsf/models/pattern_graph.py:236-265 | one update per chain in order; afterwards every chain is recognised, and each returned id list is a path of the final graph whose d-th vertex lies in layer d and holds the chain's d-th node |
| PatternGraphs.PatternGraph.Contains | src/pbsf/models/pattern_graph.py:267-286 | whether every node is matched at its depth and every step is an edge |
| NestedWordSets.ChainWord | src/pbsf/models/nw_set.py:182-186 | the vertices but the last as calls, then the last as an internal position; no vertices raises IndexError |
| NestedWordSets.ChainWordShaped | src/pbsf/models/nw_set.py:182-186 | that nested word is well formed: every position but the last is a pending call and the last is internal |
| NestedWordSets.SortedPendingSorted | src/pbsf/models/nw_set.py:87-89 | the sorted pending calls are increasing and hold exactly the pending calls |
| NestedWordSets.ClosedPositions | src/pbsf/models/nw_set.py:64-91 | a non-positive number, or more than the pending calls, raises ValueError; otherwise one `add_return` per closed call, most recent first, repeating its symbol |
| NestedWordSets.ClosedPositionsEffect | src/pbsf/models/nw_set.py:85-91 | the `number` most recent pending calls are matched in that order with the new positions, which repeat their symbols |
| NestedWordSets.ClosedPositionsWellFormed | src/pbsf/models/nw_set.py:64-91 | closing keeps the nested word well formed, and the old word as a prefix |
| NestedWordSets.ClosePositions | src/pbsf/models/nw_set.py:64-91 | the object changes exactly as `ClosedPositions` says, and not at all on failure |
| NestedWordSets.FirstMismatch | src/pbsf/models/nw_set.py:123-124 | the first depth at which the two pending-symbol lists differ, up to the shorter one |
| NestedWordSets.Tail | src/pbsf/models/nw_set.py:126 | `nw2[p2[d]:]` is never empty and ends with nw2's last symbol |
| NestedWordSets.Rebased | src/pbsf/models/nw_set.py:123-127 | at the first mismatch the calls of nw1 from that depth up are closed and the tail of nw2 is appended |
| NestedWordSets.RebasedWord | src/pbsf/models/nw_set.py:123-127 | the rebased word is nw1, the closing returns, then the tail of nw2 |
| NestedWordSets.WithLast | src/pbsf/models/nw_set.py:128-129 | the last symbol of nw2 is appended as an internal position unless the word already ends with it |
| NestedWordSets.Combined | src/pbsf/models/nw_set.py:93-131 | `_combine_nws` without its cache: nw2 when nw1 is empty, otherwise nw1 rebased at the first mismatch, then `WithLast` |
| NestedWordSets.CombinedAfterMismatch | src/pbsf/models/nw_set.py:123-131 | after a mismatch nothing is appended: the rebased word already ends with nw2's last symbol |
| NestedWordSets.CombinedWithoutMismatch | src/pbsf/models/nw_set.py:123-131 | without a mismatch nw1 is kept, with nw2's last symbol appended when it differs |
| NestedWordSets.CombinedKeeps | src/pbsf/models/nw_set.py:93-131 | the combination starts with nw1's word |
| NestedWordSets.CombinedLast | src/pbsf/models/nw_set.py:93-131 | the combination ends with nw2's last symbol |
| NestedWordSets.CombinedWellFormed | src/pbsf/models/nw_set.py:93-131 | when the combination succeeds (always, for the words of chains: `CombinedSucceeds`), combining well-formed nested words gives a well-formed one |
| NestedWordSets.RebasedSucceeds | src/pbsf/models/nw_set.py:123-127 | after a mismatch, closing nw1's calls and appending the tail of an nw2 without returns never fails |
| NestedWordSets.CombinedSucceeds | src/pbsf/models/nw_set.py:93-131 | for well-formed words, the second without returns as a chain's word is, `_combine_nws` fails exactly when nw2 is empty and nw1 is not |
| NestedWordSets.CombinedSelf | src/pbsf/models/nw_set.py:93-131 | a nested word combined with itself is itself |
| NestedWordSets.CombinedEmpty | src/pbsf/models/nw_set.py:113-114 | the empty nested word is a left unit of combination |
| NestedWordSets.CombinedAll | src/pbsf/models/nw_set.py:133-148 | the queue combined from left to right, starting from the empty nested word |
| NestedWordSets.CombinedAllSingle | src/pbsf/models/nw_set.py:133-148 | a queue of one word combines to that word |
| NestedWordSets.CombinedAllWellFormed | src/pbsf/models/nw_set.py:133-148 | when the queue combines (always, for chains' words: `CombinedAllSucceeds`), a queue of well-formed words combines to a well-formed word |
| NestedWordSets.CombinedAllSucceeds | src/pbsf/models/nw_set.py:133-148 | `_combine_queue` never fails on non-empty well-formed words without returns, which every queued chain's word is |
| NestedWordSets.CombinedAllPrefix | src/pbsf/models/nw_set.py:133-148 | the combination starts with the first word of the queue |
| NestedWordSets.CombinedAllLast | src/pbsf/models/nw_set.py:133-148 | the combination ends with the last symbol of the last word |
| NestedWordSets.CombinedAllFailure | src/pbsf/models/nw_set.py:146-147 | once a prefix of the queue fails to combine, the whole queue fails with the same error |
| NestedWordSets.FindMismatch | src/pbsf/models/nw_set.py:123-124 | the scan returns `FirstMismatch` |
| NestedWordSets.RebaseNW | src/pbsf/models/nw_set.py:125-126 | the object becomes `Rebased`; nw2 is left unchanged |
| NestedWordSets.WithLastNW | src/pbsf/models/nw_set.py:128-129 | the object becomes `WithLast`; nw2 is left unchanged |
| NestedWordSets.CombineNWs | src/pbsf/models/nw_set.py:93-131 | succeeds exactly when `Combined` does and holds its value; nw2 itself when nw1 is empty, a fresh nested word otherwise |
| NestedWordSets.CombineAll | src/pbsf/models/nw_set.py:145-148 | the loop returns `CombinedAll` of the words |
| NestedWordSets.VerticesToNW | src/pbsf/models/nw_set.py:182-186 | a fresh nested word equal to `ChainWord`, IndexError for no vertices |
| NestedWordSets.ChainNWStable | src/pbsf/models/nw_set.py:150-186 | a recognised chain keeps its nested word while the graph grows |
| NestedWordSets.WindowWordSucceeds | src/pbsf/models/nw_set.py:133-148 | the words of a window of chains combine exactly when none of the chains is empty |
| NestedWordSets.WindowWordStable | src/pbsf/models/nw_set.py:247-281 | a window of recognised chains keeps its nested word while the graph grows |
| NestedWordSets.Pushed | src/pbsf/models/nw_set.py:216-218 | the queue after one more entry: the oldest is dropped first when the queue is full; it never exceeds the context size |
| NestedWordSets.OutputsCount | src/pbsf/models/nw_set.py:219-223 | the first updates only fill the queue; every later one outputs one word |
| NestedWordSets.QueueWindow | src/pbsf/models/nw_set.py:219-220 | the queue combines to the nested word of the window of queued chains |
| NestedWordSets.NestedWordSet.Create | src/pbsf/models/nw_set.py:47-62 | `context_size` defaults to 2 and must be positive, otherwise ValueError; a new set has an empty queue and learned nothing |
| NestedWordSets.NestedWordSet.ChainToNW | src/pbsf/models/nw_set.py:150-186 | a fresh nested word equal to `ChainNW` of the current graph; an empty chain raises IndexError |
| NestedWordSets.NestedWordSet.CombineQueue | src/pbsf/models/nw_set.py:133-148 | never raises: the queued chains are non-empty, so their window word exists, and it is returned |
| NestedWordSets.NestedWordSet.Update | src/pbsf/models/nw_set.py:188-223 | succeeds exactly when the chain is non-empty; an empty chain raises ValueError and changes nothing; otherwise the graph learns the chain, the queue becomes `Pushed`, and once the queue is full its combined word, which always exists, is added to the learned set and returned |
| NestedWordSets.NestedWordSet.Absorb | src/pbsf/models/nw_set.py:215-223 | after the graph learned the chain: never raises; the queue becomes `Pushed` and, once full, its word exists and is learned and returned |
| NestedWordSets.NestedWordSet.Enqueue | src/pbsf/models/nw_set.py:215-218 | the chain's nested word is pushed on the queue |
| NestedWordSets.NestedWordSet.Push | src/pbsf/models/nw_set.py:216-218 | `pop(0)` when the queue is full, then `append`; the queue still holds the words of the queued chains |
| NestedWordSets.NestedWordSet.Emit | src/pbsf/models/nw_set.py:219-223 | never raises: once the queue is full its combined word exists and is learned and returned; otherwise nothing changes |
| NestedWordSets.NestedWordSet.LearnChain | src/pbsf/models/nw_set.py:214 | the graph learns the chain and grows; queued chains and learned windows keep their words |
| NestedWordSets.NestedWordSet.Learn | src/pbsf/models/nw_set.py:225-245 | `update` on each chain in turn, `extend`-ing the result: the answer is the fold `Learnt` of the chains from the old queue (stated over the final graph, where every window word is the one `update` saw); it fails exactly when some chain is empty, and on success the queue is `QueueAfter` of the chains; every chain is recognised, the number of words is `Outputs`, and the learned set gains exactly the returned words |
| NestedWordSets.NestedWordSet.LearnNext | src/pbsf/models/nw_set.py:243-244 | one turn of the loop: `update` of chain `i`, extending the result; the fold and its queue advance by one chain, and the first failing `update` is the answer of the whole fold |
| NestedWordSets.LearntSnoc | src/pbsf/models/nw_set.py:243-244 | the fold over one more chain is one more `update` step after the fold so far: its queue is the queue after that chain, and it outputs a word once the queue is full |
| NestedWordSets.LearntCount | src/pbsf/models/nw_set.py:219-223 | when the fold succeeds, no chain was empty and it returned `Outputs` words: nothing until the queue is full, then one per chain |
| NestedWordSets.LearntStops | src/pbsf/models/nw_set.py:212-213 | once a prefix of the chains fails, the whole call fails with the same error: the loop never resumes after a raising `update` |
| NestedWordSets.LearntStable | src/pbsf/models/nw_set.py:214-221 | the fold gives the same answer over any larger graph that recognises the chains, so the words `update` combined earlier are those of the final graph |
| NestedWordSets.LearntExtends | src/pbsf/models/nw_set.py:216-223 | a successful `update` of the next chain extends the fold's result by what it returned, and its queue by that chain |
| NestedWordSets.LearntFails | src/pbsf/models/nw_set.py:212-221 | an `update` that raises is the error of the whole fold; over the windows' words the only such `update` is one given an empty chain (`LearntSucceeds`) |
| NestedWordSets.LearntSucceeds | src/pbsf/models/nw_set.py:225-245 | from a queue of non-empty chains, `learn` fails exactly when one of the chains is empty: every window it reaches combines |
| NestedWordSets.LearnedStep | src/pbsf/models/nw_set.py:212-223 | what one `update` does to the fold, the queue, the graph and the learned set, in both outcomes |
| NestedWordSets.LearntEnd | src/pbsf/models/nw_set.py:242-245 | after the last chain the accumulated result is the fold's answer and the queue is `QueueAfter` of all chains |
| NestedWordSets.LearntAll | src/pbsf/models/nw_set.py:242-245 | after every chain, each was non-empty and recognised, `Outputs` words were returned, and the learned set grew by exactly those words |
| NestedWordSets.QueueAfterSnoc | src/pbsf/models/nw_set.py:216-218 | the queue after one more chain is `Pushed` of the queue so far: `pop(0)` when full, then `append` |
| NestedWordSets.QueueAfterFrom | src/pbsf/models/nw_set.py:216-218 | every entry of the queue came from the old queue or from the chains |
| NestedWordSets.NestedWordSet.Contains | src/pbsf/models/nw_set.py:247-281 | succeeds exactly when there are `context_size` chains and none is empty; a wrong number of chains raises ValueError, an empty chain IndexError; otherwise whether the window's nested word is in the learned set, which holds for every learned window |
| NestedWordSets.NestedWordSet.ChainsToNWs | src/pbsf/models/nw_set.py:277 | one nested word per chain, each that chain's word; the first empty chain raises IndexError |
| Text.Strip | src/pbsf/utils/acceptors/dfa.py:65 | `str.strip()`: a substring of the input, with no whitespace at either end |
| Text.SplitJoin | src/pbsf/utils/acceptors/dfa.py:65 | `split(sep)` followed by `sep.join` gives the string back |
| Text.TokensCoverNonSpace | src/pbsf/utils/acceptors/dfa.py:75 | `split()` drops exactly the whitespace |

## Left out

- `Word.__len__`, `__iter__`, `__hash__` and `__repr__`: they are the length, the iteration and the hash of the tuple of symbols, which the value type gives directly.
- `__repr__`, `__str__` and `show` of every class: text output only.
- The `TypeError` checks on argument types (`isinstance` on integers, words, lists and nodes): Dafny's types exclude those inputs.
- `PatternTree` as the backing model of `NestedWordSet`: the model uses `PatternGraph`, the default, because `_chain_to_nw` reads the graph's traversal. The `ValueError` for an unsupported model class cannot arise.
- `NestedWordSet._combined_cache`: a memo table that does not change any result. `CombineNWs` always computes the combination.
- `SlidingWindow._ac_window_size`: the autocorrelation is floating-point analysis. The model takes the detected lag as a function parameter (`strongestLag`) and keeps only the rule that turns it into a window size.
- `_normalise` and `_piecewise_linear` in the discretiser base: they are floating-point fitting and no core operation uses them.
- `SumNode` and other node types: `Summation.discretise` builds a `SumNode` from its depth and sums, which is what the model returns. The `node_params` are carried by the node and do not affect the frames.
- Floating point in general: slopes, sums and distances are real numbers. `SlopeSign.Float` adds NaN only where 0/0 occurs.
- Python sets over nodes rely on `__hash__` agreeing with `__eq__`. The pattern models treat a set as containing every node equal to a member. This is what the library intends, and it is false for `SlopeSignNode` under broadcasting (see Findings).
- `MatchingRelation(length, matching)` iterates a Python set, whose order is unspecified. `MatchingRelations.FromMatches` takes the pairs as a sequence in one fixed order.
- NestedWords.TaggedRoundTrip: it is stated over `Tag`, whose markers can never equal a symbol. `to_tagged` emits the strings `"<"` and `">"`, and `from_tagged_sequence` compares every element with them, so a word whose symbols include `"<"` or `">"` does not come back. `MarkerSymbolBreaksRoundTrip` shows this for characters, and `TaggedTextRoundTrip` proves the round trip for character words without those two symbols. Other symbol types that compare equal to `"<"` are not modelled.
- NestedWords.NestedWord.Slice: only a step of 1 is modelled. `nested_word.py:640-641` passes the whole slice object, step included, to both the word and the relation. The relation's `__getitem__` reads only `start` and `stop`, so a stepped slice of the word would pair with an unstepped relation.
- MatchingRelations.MatchingRelation.IsCall, IsReturn, IsInternal and IsPending: they take a position inside the relation. Python's negative indexing from the end and the IndexError for positions beyond it are not modelled. `MatchingRelation.Create` takes a non-negative length.
- PatternSets.PatternSet.Contains: Python's `in` on a set tests identity before `__eq__`. The model tests only the node equality, which differs only for a node that is not equal to itself (a NaN slope).
- PatternTrees.PatternTree.BestMatch: the source calls `distance` on every candidate before testing equality (pattern_tree.py:93-94). The model evaluates the distance only for equal candidates. The consequence: `SlopeSignNode.distance` raises ValueError for a candidate of a different depth (`_is_comparable`, slope_sign_node.py:97), so the source can raise where the model returns a match.
- Digraphs.LayeredDigraph: each vertex's property dictionary holds its layer, and callers reach it through the public `vertices` list. The model keeps the layers in `layerOf` and does not model a caller changing that dictionary.
- Discretisers.Admissible: the rounding of `begin + k * step` is a parameter. The model does not derive from IEEE 754 doubles that it is admissible. The argument holds while the interval length and the frame count stay below 2^20, and nothing is promised beyond that.
- Discretisers.Divide: it promises only that the last frame ends at `end` or one short of it, because double rounding gives `_divide(0, 15, 11)` a last frame of (13, 14) where `end` is 15.
- Discretisers.FrameSumsCoverSegment: it promises the total of all samples but the last one when rounding ends the last frame one short, as for a 15-sample segment in 11 frames. Only `ExactCutsCoverSegment` promises the whole total.
- Discretisers.Summation.Discretise: its nodes are the frame sums under the given rounding. It states no total, which the frames of (0, 15, 11) would miss by one sample.
- Automata.DFA.ReadLine: on failure it states only that a `ValueError` is raised, not its message text.
- Words.Slice: only a slice without a step is modelled. `Word.__getitem__` (word.py:47-48) passes the whole slice object to the tuple, so `w[::0]` raises ValueError and `w[::2]` or `w[::-1]` pick every second or reversed symbols; the model has no step argument.
- Automata.DFA.AddSymbol: an anonymous symbol whose integer key is already taken is refused with ValueError. The source overwrites that key and drops the symbol it named (dfa.py:188-189); `AnonymousSymbolOverwrites` models that behaviour, and the refusal is the correction recorded under Findings.
- Automata.DFA.AddSymbols: each step is the corrected `AddSymbol`, so an anonymous entry whose integer key is taken stops the fold with ValueError where the source's `add_symbols` overwrites the key and goes on.
- BiAutomata.BiDFA.AddSymbol: it delegates to `Automata.DFA.AddSymbol` and inherits the same correction.
- Automata.DFA.AddState: an anonymous state whose integer key is already taken is refused with ValueError. The source stores it under that key anyway and drops the state the key named (dfa.py:245-246); `AnonymousEntryOverwrites` models that behaviour, and the refusal is the correction recorded under Findings.
- Automata.DFA.AddStates: each step is the corrected `AddState`, so a `None` entry whose integer key is taken stops the fold with ValueError where the source's `add_states` overwrites the key and goes on.
- BiAutomata.BiDFA.AddLeft: it adds the state through the corrected `Automata.DFA.AddState`, so an anonymous state whose key is taken is refused where the source overwrites the key.
- BiAutomata.BiDFA.AddRight: as for `AddLeft`, an anonymous state whose key is taken is refused where the source overwrites the key.
- BiAutomata.BiDFA.AddStates: each step is the corrected `Automata.DFA.AddState`, so a `None` entry whose key is taken stops with ValueError where the source overwrites the key.
- NestedWords.ConcatenatedWord: success of `nw1 + nw2` is proved (`ConcatenatedSucceeds`) only when nw2 has no pending return. When a pending return of nw2 meets a pending call of nw1, reading the joined tags back may match them or fail, and the model does not state which.
- NestedWordSets.CombinedWellFormed: success of `_combine_nws` is proved (`CombinedSucceeds`) only when nw2 has no returns. The source only ever passes the word of a queued chain as nw2, which has none.
- NestedWordSets.CombinedAllWellFormed: success of `_combine_queue` is proved (`CombinedAllSucceeds`) for non-empty words without returns, which are the only words the queue holds.
- Digraphs.Digraph.AddEdge: vertex identifiers are `nat`, here and in `Digraphs.Digraph.Outgoing`. The source tests only `id >= len(vertices)` and then indexes Python lists (digraph.py:60-64, 85-87), so a negative identifier reaches a vertex counted from the end instead of raising. No caller in the library passes a negative identifier.
- Digraphs.Digraph.Outgoing: as for `AddEdge`, a negative identifier is not modelled; the source would return the edges of a vertex counted from the end.

## Findings

| source | as written | input that shows it | evidently intended | confidence | as-written member | corrected member |
|---|---|---|---|---|---|---|
| src/pbsf/utils/nested_word.py:176-207 | `set_match` checks order, bounds and crossings, but not whether a position already plays the other role or is matched elsewhere, so it can overwrite one list entry and leave the other list pointing at the old partner | `from_tagged_sequence(['<', '<', 'a', 'b', '>'])` sets (0, 1) and then (0, None): `succ[0]` is `None` but `pred[1]` still names 0 | a position is a call or a return, and the two lists always name each other | high (not executed) | MatchingRelations.SetMatchedAsWrittenBreaksConsistency | MatchingRelations.SetMatchedKeepsWellMatched |
| src/pbsf/utils/acceptors/dfa.py:239-247 | an anonymous state is stored as `states[identifier] = identifier` without checking that the key `identifier` is free; the bidict then drops the state already named by that integer | a state named by the integer 2 gets identifier 1; the next `add_state()` gets identifier 2 and takes over key 2, so state 1 disappears | an anonymous state is refused (or renamed) when its key is taken, as a named one is | high (not executed) | Automata.AnonymousEntryOverwrites | Automata.DFA.AddState |
| src/pbsf/utils/acceptors/dfa.py:183-190 | an anonymous symbol is stored as `alphabet[identifier] = identifier` without checking that the key `identifier` is free; the bidict then drops the symbol already named by that integer | on a new automaton `add_symbol(2)` gets identifier 1; `add_symbol()` then gets identifier 2 and takes over key 2, so symbol 1 disappears | an anonymous symbol is refused (or renamed) when its key is taken, as a named one is | high (not executed) | Automata.AnonymousSymbolOverwrites | Automata.DFA.AddSymbol |
| src/pbsf/utils/layered_digraph.py:93-106 | an edge into a root-layer vertex without outgoing edges is accepted even when the source is that vertex | `add_vertex()` then `add_edge(0, 0)`: vertex 0 moves to layer 1 with an edge to itself | every edge goes from layer n to layer n + 1 | high (not executed) | Digraphs.SelfLoopBreaksLayering | Digraphs.AddEdgePreserves |
| src/pbsf/nodes/slope_sign_node.py:98-123 | `distance` compares sign arrays with numpy broadcasting, so nodes of different lengths can compare equal | `[1.0]` equals `[1.0, 1.0]` and `[1.0, 1.0, 1.0]` at the same depth; their hash keys differ | equality only between nodes with equally many slopes, consistent with the hash | medium (not executed) | SlopeSign.BroadcastingAcrossLengths | SlopeSign.EquivalentOnEqualLengths |
| src/pbsf/discretisers/base.py:63-64 | the frame bounds are `int(begin + k * step)` with a double `step`, so a bound whose exact value is an integer can round down by one | `_divide(0, 15, 11)`: `11 * (15 / 11)` is 14.999999999999998, so the last frame is (13, 14), and `Summation.discretise` of a 15-sample segment with 11 frames drops sample 14 | bounds computed in integers, `begin + k * (end - begin) // number`, so the frames tile the segment | medium (not executed) | Discretisers.FloatCutsDropLastSample | Discretisers.ExactCutsCoverSegment |
