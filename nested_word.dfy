// Nested words: a word with a matching relation, its tagged form and the
// operations that grow, slice and concatenate it.

module NestedWords {
  import opened Wrappers
  import opened MatchingRelations

  /** An element of a tagged sequence: `"<"`, `">"` or a symbol of the word. */
  datatype Tag<T> = Open | Close | Sym(symbol: T)

  /** A nested word as a value: the word and its matching relation. */
  datatype NW<T> = NW(word: seq<T>, m: Matching)

  /** What every nested word satisfies: as many positions as symbols, and a well-matched relation. */
  predicate WellFormed<T>(w: NW<T>)
  {
    |w.word| == |w.m.succ| && WellMatched(w.m)
  }

  /** What `to_tagged` emits for position `i`: `"<"` before a call, `">"` after a return. */
  function Chunk<T>(word: seq<T>, m: Matching, i: nat): (r: seq<Tag<T>>)
    requires Sized(m) && i < |m.succ| && i < |word|
    ensures Sym(word[i]) in r
  {
    (if CallAt(m, i) then [Open] else []) + [Sym(word[i])] + (if ReturnAt(m, i) then [Close] else [])
  }

  /** The tagged form of the first `k` positions. */
  function TaggedPrefix<T>(word: seq<T>, m: Matching, k: nat): seq<Tag<T>>
    requires Sized(m) && k <= |m.succ| && k <= |word|
  {
    if k == 0 then [] else TaggedPrefix(word, m, k - 1) + Chunk(word, m, k - 1)
  }

  lemma TaggedPrefixLast<T>(word: seq<T>, m: Matching, k: nat)
    requires Sized(m) && 0 < k <= |m.succ| && k <= |word|
    ensures TaggedPrefix(word, m, k) == TaggedPrefix(word, m, k - 1) + Chunk(word, m, k - 1)
  {
  }

  /** `to_tagged`. */
  function Tagged<T>(w: NW<T>): seq<Tag<T>>
    requires Sized(w.m) && |w.word| == |w.m.succ|
  {
    TaggedPrefix(w.word, w.m, |w.word|)
  }

  /** The word `from_tagged_sequence` keeps: the symbols, in order. */
  function Symbols<T>(tags: seq<Tag<T>>): (r: seq<T>)
    ensures |r| <= |tags|
  {
    if tags == [] then []
    else Symbols(tags[..|tags| - 1]) + (if tags[|tags| - 1].Sym? then [tags[|tags| - 1].symbol] else [])
  }

  /** The state of the loop of `from_tagged_sequence`. */
  datatype Reader = Reader(m: Matching, stack: seq<nat>, counter: nat)

  /** One turn of that loop: `"<"` pushes the counter, `">"` matches the
      most recent open call (or none) with the previous symbol, a symbol
      advances the counter. */
  function ReadTag<T>(st: Reader, t: Tag<T>): (r: Result<Reader>)
    requires Sized(st.m)
    ensures r.Success? ==> Sized(r.value.m) && |r.value.m.succ| == |st.m.succ|
  {
    match t
    case Open => Success(Reader(st.m, st.stack + [st.counter], st.counter))
    case Close =>
      var call: Option<int> := if |st.stack| > 0 then Some(st.stack[|st.stack| - 1]) else None;
      var m :- SetMatched(st.m, call, Some(if st.counter > 0 then st.counter - 1 else 0));
      Success(Reader(m, if |st.stack| > 0 then st.stack[..|st.stack| - 1] else [], st.counter))
    case Sym(_) => Success(Reader(st.m, st.stack, st.counter + 1))
  }

  /** The loop over a whole tagged sequence; the first `set_match` that raises ends it. */
  function ReadTags<T>(st: Reader, tags: seq<Tag<T>>): (r: Result<Reader>)
    requires Sized(st.m)
    ensures r.Success? ==> Sized(r.value.m) && |r.value.m.succ| == |st.m.succ|
    decreases |tags|
  {
    if tags == [] then Success(st)
    else
      var st' :- ReadTags(st, tags[..|tags| - 1]);
      ReadTag(st', tags[|tags| - 1])
  }

  /** The final loop: every call left on the stack becomes pending, the most recent first. */
  function CloseStack(m: Matching, stack: seq<nat>): (r: Result<Matching>)
    requires Sized(m)
    ensures r.Success? ==> Sized(r.value) && |r.value.succ| == |m.succ|
    decreases |stack|
  {
    if stack == [] then Success(m)
    else
      var m' :- SetMatched(m, Some(stack[|stack| - 1]), None);
      CloseStack(m', stack[..|stack| - 1])
  }

  /** `from_tagged_sequence`. */
  function FromTagged<T>(tags: seq<Tag<T>>): (r: Result<NW<T>>)
    ensures r.Success? ==> r.value.word == Symbols(tags) && Sized(r.value.m) && |r.value.m.succ| == |r.value.word|
  {
    var word := Symbols(tags);
    var st :- ReadTags(Reader(Empty(|word|), [], 0), tags);
    var m :- CloseStack(st.m, st.stack);
    Success(NW(word, m))
  }

  lemma {:induction false} SymbolsAppend<T>(xs: seq<Tag<T>>, ys: seq<Tag<T>>)
    ensures Symbols(xs + ys) == Symbols(xs) + Symbols(ys)
    decreases |ys|
  {
    if ys == [] {
      assert xs + ys == xs;
    } else {
      var init := ys[..|ys| - 1];
      assert (xs + ys)[..|xs + ys| - 1] == xs + init;
      SymbolsAppend(xs, init);
    }
  }

  lemma SymbolsSingle<T>(t: Tag<T>)
    ensures Symbols([t]) == if t.Sym? then [t.symbol] else []
  {
    assert [t][..0] == [];
  }

  /** A chunk holds exactly one symbol: its position's. */
  lemma SymbolsChunk<T>(word: seq<T>, m: Matching, i: nat)
    requires Sized(m) && i < |m.succ| && i < |word|
    ensures Symbols(Chunk(word, m, i)) == [word[i]]
  {
    var pre: seq<Tag<T>> := if CallAt(m, i) then [Open] else [];
    var post: seq<Tag<T>> := if ReturnAt(m, i) then [Close] else [];
    SymbolsAppend(pre + [Sym(word[i])], post);
    SymbolsAppend(pre, [Sym(word[i])]);
    SymbolsSingle(Sym(word[i]));
    if CallAt(m, i) {
      SymbolsSingle<T>(Open);
    }
    if ReturnAt(m, i) {
      SymbolsSingle<T>(Close);
    }
  }

  lemma TakeOneMore<X>(s: seq<X>, i: nat)
    requires i < |s|
    ensures s[..i + 1] == s[..i] + [s[i]]
  {
  }

  /** Tags holding one more symbol of `word` extend its prefix by that symbol. */
  lemma SymbolsSnoc<T>(pre: seq<Tag<T>>, c: seq<Tag<T>>, u: seq<T>, x: T)
    requires Symbols(pre) == u && Symbols(c) == [x]
    ensures Symbols(pre + c) == u + [x]
  {
    SymbolsAppend(pre, c);
  }

  /** The symbols of the tagged form are the word. */
  lemma {:induction false} SymbolsTagged<T>(word: seq<T>, m: Matching, k: nat)
    requires Sized(m) && k <= |m.succ| && k <= |word|
    ensures Symbols(TaggedPrefix(word, m, k)) == word[..k]
  {
    if k > 0 {
      var pre, c := TaggedPrefix(word, m, k - 1), Chunk(word, m, k - 1);
      SymbolsTagged(word, m, k - 1);
      SymbolsChunk(word, m, k - 1);
      SymbolsSnoc(pre, c, word[..k - 1], word[k - 1]);
      TakeOneMore(word, k - 1);
      TaggedPrefixLast(word, m, k);
    }
  }

  lemma {:induction false} ReadTagsAppend<T>(st: Reader, xs: seq<Tag<T>>, mid: Reader, ys: seq<Tag<T>>)
    requires Sized(st.m) && ReadTags(st, xs) == Success(mid)
    ensures ReadTags(st, xs + ys) == ReadTags(mid, ys)
    decreases |ys|
  {
    if ys == [] {
      assert xs + ys == xs;
    } else {
      var init := ys[..|ys| - 1];
      assert (xs + ys)[..|xs + ys| - 1] == xs + init;
      ReadTagsAppend(st, xs, mid, init);
    }
  }

  /** Once a `set_match` raises, reading the rest of the sequence raises the same error. */
  lemma {:induction false} ReadTagsFailureStays<T>(st: Reader, tags: seq<Tag<T>>, k: nat)
    requires Sized(st.m) && k <= |tags| && ReadTags(st, tags[..k]).Failure?
    ensures ReadTags(st, tags) == ReadTags(st, tags[..k])
    decreases |tags| - k
  {
    if k < |tags| {
      assert tags[..k + 1] == tags[..k] + [tags[k]];
      ReadTagsFailureStep(st, tags[..k], tags[k]);
      ReadTagsFailureStays(st, tags, k + 1);
    } else {
      assert tags[..k] == tags;
    }
  }

  /** A failed read stays failed when one more tag follows. */
  lemma ReadTagsFailureStep<T>(st: Reader, pre: seq<Tag<T>>, t: Tag<T>)
    requires Sized(st.m) && ReadTags(st, pre).Failure?
    ensures ReadTags(st, pre + [t]) == ReadTags(st, pre)
  {
    assert (pre + [t])[..|pre|] == pre;
  }

  // The proof of the round trip

  /** A call that is still waiting for its `">"` once the first `k` positions are read. */
  predicate OpenAt(s: Matching, c: nat, k: nat)
    requires Sized(s) && c < |s.succ|
  {
    CallAt(s, c) && (s.succ[c] == Pending || s.succ[c].pos >= k)
  }

  /** The calls below `lo` that are open after `k` positions, in increasing order. */
  function OpenCalls(s: Matching, lo: nat, k: nat): seq<nat>
    requires Sized(s) && lo <= |s.succ|
  {
    if lo == 0 then [] else OpenCalls(s, lo - 1, k) + (if OpenAt(s, lo - 1, k) then [lo - 1] else [])
  }

  lemma {:induction false} OpenCallsSame(s: Matching, lo: nat, k: nat, k': nat)
    requires Sized(s) && lo <= |s.succ|
    requires forall c :: 0 <= c < lo ==> OpenAt(s, c, k) == OpenAt(s, c, k')
    ensures OpenCalls(s, lo, k) == OpenCalls(s, lo, k')
  {
    if lo > 0 {
      OpenCallsSame(s, lo - 1, k, k');
    }
  }

  lemma {:induction false} OpenCallsSkip(s: Matching, lo: nat, hi: nat, k: nat)
    requires Sized(s) && lo <= hi <= |s.succ|
    requires forall c :: lo <= c < hi ==> !OpenAt(s, c, k)
    ensures OpenCalls(s, hi, k) == OpenCalls(s, lo, k)
    decreases hi
  {
    if lo < hi {
      OpenCallsSkip(s, lo, hi - 1, k);
    }
  }

  /** The relation after the first `k` positions are read: the matches whose return comes before `k`. */
  function Closed(s: Matching, k: nat): (r: Matching)
    requires Sized(s) && k <= |s.succ|
    ensures Sized(r) && |r.succ| == |s.succ|
  {
    Matching(
      seq(|s.succ|, x requires 0 <= x < |s.succ| => if s.succ[x].At? && s.succ[x].pos < k then s.succ[x] else Unset),
      seq(|s.pred|, x requires 0 <= x < |s.pred| => if x < k then s.pred[x] else Unset))
  }

  lemma ClosedAt(s: Matching, k: nat, x: nat)
    requires Sized(s) && k <= |s.succ| && x < |s.succ|
    ensures Closed(s, k).succ[x] == if s.succ[x].At? && s.succ[x].pos < k then s.succ[x] else Unset
    ensures Closed(s, k).pred[x] == if x < k then s.pred[x] else Unset
  {
  }

  /** The relation while the stack is emptied: the pending calls below `t` are not yet set. */
  function Opened(s: Matching, t: nat): (r: Matching)
    requires Sized(s)
    ensures Sized(r) && |r.succ| == |s.succ|
  {
    Matching(seq(|s.succ|, x requires 0 <= x < |s.succ| => if s.succ[x] == Pending && x < t then Unset else s.succ[x]), s.pred)
  }

  lemma OpenedAt(s: Matching, t: nat, x: nat)
    requires Sized(s) && x < |s.succ|
    ensures Opened(s, t).succ[x] == if s.succ[x] == Pending && x < t then Unset else s.succ[x]
    ensures Opened(s, t).pred[x] == s.pred[x]
  {
  }

  lemma ClosedEnds(s: Matching)
    requires Consistent(s)
    ensures Closed(s, 0) == Empty(|s.succ|)
    ensures Closed(s, |s.succ|) == Opened(s, |s.succ|)
    ensures Opened(s, 0) == s
  {
    var n := |s.succ|;
    var c0, cn, o0, on := Closed(s, 0), Closed(s, n), Opened(s, 0), Opened(s, n);
    forall x | 0 <= x < n
      ensures c0.succ[x] == Unset && c0.pred[x] == Unset
      ensures cn.succ[x] == on.succ[x] && cn.pred[x] == on.pred[x]
      ensures o0.succ[x] == s.succ[x]
    {
      ClosedAt(s, 0, x);
      ClosedAt(s, n, x);
      OpenedAt(s, 0, x);
      OpenedAt(s, n, x);
    }
    assert c0.succ == Empty(n).succ && c0.pred == Empty(n).pred;
    assert cn.succ == on.succ && cn.pred == on.pred;
    assert o0.succ == s.succ;
  }

  lemma ClosedAgrees(s: Matching, k: nat)
    requires Sized(s) && SingleRoles(s) && k <= |s.succ|
    ensures Agrees(Closed(s, k), s)
  {
    forall x | 0 <= x < |s.succ| && !InternalAt(Closed(s, k), x)
      ensures Closed(s, k).succ[x] == s.succ[x] && Closed(s, k).pred[x] == s.pred[x]
    {
      ClosedAt(s, k, x);
      assert !(CallAt(s, x) && ReturnAt(s, x));
    }
  }

  lemma OpenedAgrees(s: Matching, t: nat)
    requires Sized(s) && SingleRoles(s)
    ensures Agrees(Opened(s, t), s)
  {
    forall x | 0 <= x < |s.succ| && !InternalAt(Opened(s, t), x)
      ensures Opened(s, t).succ[x] == s.succ[x] && Opened(s, t).pred[x] == s.pred[x]
    {
      OpenedAt(s, t, x);
      assert !(CallAt(s, x) && ReturnAt(s, x));
    }
  }

  /** Reading the `">"` of position `k` sets its match. */
  lemma ClosedReturnStep(s: Matching, k: nat)
    requires WellMatched(s) && k < |s.succ| && ReturnAt(s, k)
    ensures SetMatched(Closed(s, k), Partner(s.pred[k]), Some(k)) == Success(Closed(s, k + 1))
  {
    var b := Closed(s, k);
    var p := AsMatch(Partner(s.pred[k]), Some(k));
    ClosedAgrees(s, k);
    AgreesNoCrossing(b, s, k);
    assert !CallAt(s, k);
    assert MatchOf(s, k) == p;
    ClosedAt(s, k, k);
    if s.pred[k].At? {
      ClosedAt(s, k, s.pred[k].pos);
      assert !ReturnAt(s, s.pred[k].pos);
    }
    assert RolesFree(b, p);
    assert Check(b, Partner(s.pred[k]), Some(k)).Pass?;
    var w, b' := Written(b, p), Closed(s, k + 1);
    forall x | 0 <= x < |s.succ|
      ensures w.succ[x] == b'.succ[x] && w.pred[x] == b'.pred[x]
    {
      ClosedAt(s, k, x);
      ClosedAt(s, k + 1, x);
    }
    assert w.succ == b'.succ && w.pred == b'.pred;
  }

  /** Emptying the stack makes the pending call `t` pending again. */
  lemma OpenedStep(s: Matching, t: nat)
    requires WellMatched(s) && t < |s.succ| && s.succ[t] == Pending
    ensures SetMatched(Opened(s, t + 1), Some(t), None) == Success(Opened(s, t))
  {
    var b := Opened(s, t + 1);
    var p := AsMatch(Some(t), None);
    OpenedAgrees(s, t + 1);
    AgreesNoCrossing(b, s, t);
    assert MatchOf(s, t) == p;
    assert !ReturnAt(s, t);
    OpenedAt(s, t + 1, t);
    assert RolesFree(b, p);
    assert Check(b, Some(t), None).Pass?;
    var w, b' := Written(b, p), Opened(s, t);
    forall x | 0 <= x < |s.succ|
      ensures w.succ[x] == b'.succ[x] && w.pred[x] == b'.pred[x]
    {
      OpenedAt(s, t + 1, x);
      OpenedAt(s, t, x);
    }
    assert w.succ == b'.succ && w.pred == b'.pred;
  }

  lemma ReadTagsSingle<T>(st: Reader, t: Tag<T>)
    requires Sized(st.m)
    ensures ReadTags(st, [t]) == ReadTag(st, t)
  {
    assert [t][..0] == [];
  }

  /** No call is matched with a position that is not a return. */
  lemma NoCallEndsAt(s: Matching, k: nat, c: nat)
    requires Consistent(s) && k < |s.succ| && !ReturnAt(s, k) && c < |s.succ|
    ensures !(s.succ[c].At? && s.succ[c].pos == k)
  {
  }

  /** Reading a position that is not a return leaves the relation as it is. */
  lemma ClosedQuiet(s: Matching, k: nat)
    requires Consistent(s) && k < |s.succ| && !ReturnAt(s, k)
    ensures Closed(s, k + 1) == Closed(s, k)
  {
    var b, b' := Closed(s, k), Closed(s, k + 1);
    forall x | 0 <= x < |s.succ|
      ensures b.succ[x] == b'.succ[x] && b.pred[x] == b'.pred[x]
    {
      ClosedAt(s, k, x);
      ClosedAt(s, k + 1, x);
      NoCallEndsAt(s, k, x);
    }
    assert b.succ == b'.succ && b.pred == b'.pred;
  }

  /** Past a position that is not a return, the same calls below it are open. */
  lemma OpenCallsQuiet(s: Matching, k: nat)
    requires Consistent(s) && k < |s.succ| && !ReturnAt(s, k)
    ensures OpenCalls(s, k, k + 1) == OpenCalls(s, k, k)
  {
    forall c | 0 <= c < k
      ensures OpenAt(s, c, k) == OpenAt(s, c, k + 1)
    {
      NoCallEndsAt(s, k, c);
    }
    OpenCallsSame(s, k, k, k + 1);
  }

  /** The stack and the relation after the first `k` positions are read. */
  function ReadUpTo(s: Matching, k: nat): Reader
    requires Sized(s) && k <= |s.succ|
  {
    Reader(Closed(s, k), OpenCalls(s, k, k), k)
  }

  lemma ReadInternal<T>(word: seq<T>, s: Matching, k: nat)
    requires WellMatched(s) && |word| == |s.succ| && k < |s.succ| && InternalAt(s, k)
    ensures ReadTags(ReadUpTo(s, k), Chunk(word, s, k)) == Success(ReadUpTo(s, k + 1))
  {
    assert Chunk(word, s, k) == [Sym(word[k])];
    ReadTagsSingle(ReadUpTo(s, k), Sym(word[k]));
    ClosedQuiet(s, k);
    OpenCallsQuiet(s, k);
    assert !OpenAt(s, k, k + 1);
    assert OpenCalls(s, k + 1, k + 1) == OpenCalls(s, k, k + 1);
  }

  lemma ReadCall<T>(word: seq<T>, s: Matching, k: nat)
    requires WellMatched(s) && |word| == |s.succ| && k < |s.succ| && CallAt(s, k)
    ensures ReadTags(ReadUpTo(s, k), Chunk(word, s, k)) == Success(ReadUpTo(s, k + 1))
  {
    assert !ReturnAt(s, k);
    var st := ReadUpTo(s, k);
    var st' := Reader(st.m, st.stack + [k], k);
    assert Chunk(word, s, k) == [Open] + [Sym(word[k])];
    ReadTagsSingle<T>(st, Open);
    ReadTagsAppend(st, [Open], st', [Sym(word[k])]);
    ReadTagsSingle(st', Sym(word[k]));
    ClosedQuiet(s, k);
    OpenCallsQuiet(s, k);
    assert OpenAt(s, k, k + 1);
    assert OpenCalls(s, k + 1, k + 1) == OpenCalls(s, k, k + 1) + [k];
  }

  /** Every call between a return and its call is closed before the return. */
  lemma ClosedBetween(s: Matching, k: nat, c: nat, x: nat)
    requires WellMatched(s) && k < |s.succ| && s.pred[k] == At(c) && c < x < k
    ensures !OpenAt(s, x, k)
  {
    assert !CallAt(s, k);
    assert MatchOf(s, k) == Match(Some(c), Some(k));
    if CallAt(s, x) {
      assert !Crosses(MatchOf(s, x), MatchOf(s, k));
    }
  }

  /** No call is open at a pending return. */
  lemma ClosedBeforePending(s: Matching, k: nat, x: nat)
    requires WellMatched(s) && k < |s.succ| && s.pred[k] == Pending && x < k
    ensures !OpenAt(s, x, k)
  {
    assert !CallAt(s, k);
    assert MatchOf(s, k) == Match(None, Some(k));
    if CallAt(s, x) {
      assert !Crosses(MatchOf(s, x), MatchOf(s, k));
    }
  }

  /** At a return, its call is the most recent open call. */
  lemma StackTopAtReturn(s: Matching, k: nat, c: nat)
    requires WellMatched(s) && k < |s.succ| && s.pred[k] == At(c)
    ensures c < k
    ensures OpenCalls(s, k, k) == OpenCalls(s, c, k) + [c]
  {
    assert s.succ[c] == At(k);
    assert c < k;
    assert OpenCalls(s, k, k) == OpenCalls(s, c + 1, k) by {
      forall x | c + 1 <= x < k
        ensures !OpenAt(s, x, k)
      {
        ClosedBetween(s, k, c, x);
      }
      OpenCallsSkip(s, c + 1, k, k);
    }
    assert OpenCalls(s, c + 1, k) == OpenCalls(s, c, k) + [c] by {
      assert OpenAt(s, c, k);
    }
  }

  /** After a return, the open calls are those below its call. */
  lemma StackPoppedAtReturn(s: Matching, k: nat, c: nat)
    requires WellMatched(s) && k < |s.succ| && s.pred[k] == At(c)
    ensures c < k
    ensures OpenCalls(s, k + 1, k + 1) == OpenCalls(s, c, k)
  {
    assert s.succ[c] == At(k);
    ReturnClosesAbove(s, k, c);
    ReturnKeepsBelow(s, k, c);
  }

  /** After a return, no call from its own call upwards is open. */
  lemma ReturnClosesAbove(s: Matching, k: nat, c: nat)
    requires WellMatched(s) && k < |s.succ| && s.pred[k] == At(c) && s.succ[c] == At(k) && c < k
    ensures OpenCalls(s, k + 1, k + 1) == OpenCalls(s, c, k + 1)
  {
    NoneOpenAbove(s, k, c, k + 1);
    OpenCallsSkip(s, c, k + 1, k + 1);
  }

  /** Once a return is read, no position from its call up to it is open. */
  lemma NoneOpenAbove(s: Matching, k: nat, c: nat, k1: nat)
    requires WellMatched(s) && k < |s.succ| && s.pred[k] == At(c) && s.succ[c] == At(k) && c < k && k1 == k + 1
    ensures forall x :: c <= x < k1 ==> !OpenAt(s, x, k1)
  {
    forall x | c <= x < k1
      ensures !OpenAt(s, x, k1)
    {
      if x == k {
        assert !CallAt(s, k);
      } else if c < x {
        ClosedBetween(s, k, c, x);
      }
    }
  }

  /** A return leaves the calls below its own call as they were. */
  lemma ReturnKeepsBelow(s: Matching, k: nat, c: nat)
    requires WellMatched(s) && k < |s.succ| && s.pred[k] == At(c) && c < k
    ensures OpenCalls(s, c, k) == OpenCalls(s, c, k + 1)
  {
    var k1 := k + 1;
    forall x | 0 <= x < c
      ensures OpenAt(s, x, k) == OpenAt(s, x, k1)
    {
      assert s.pred[k] != At(x);
    }
    OpenCallsSame(s, c, k, k1);
  }

  lemma OpenCallsAtPending(s: Matching, k: nat)
    requires WellMatched(s) && k < |s.succ| && s.pred[k] == Pending
    ensures OpenCalls(s, k, k) == []
    ensures OpenCalls(s, k + 1, k + 1) == []
  {
    var k1 := k + 1;
    forall x | 0 <= x < k
      ensures !OpenAt(s, x, k) && !OpenAt(s, x, k1)
    {
      ClosedBeforePending(s, k, x);
    }
    OpenCallsSkip(s, 0, k, k);
    assert !CallAt(s, k);
    OpenCallsSkip(s, 0, k1, k1);
  }

  /** The `">"` after a return closes its match and pops its call. */
  lemma ReadCloseAt<T>(s: Matching, k: nat)
    requires WellMatched(s) && k < |s.succ| && ReturnAt(s, k)
    ensures ReadTag<T>(Reader(Closed(s, k), OpenCalls(s, k, k), k + 1), Close) == Success(ReadUpTo(s, k + 1))
  {
    var st := Reader(Closed(s, k), OpenCalls(s, k, k), k + 1);
    assert SetMatched(Closed(s, k), Partner(s.pred[k]), Some(k)) == Success(Closed(s, k + 1)) by {
      ClosedReturnStep(s, k);
    }
    if s.pred[k].At? {
      var c := s.pred[k].pos;
      assert st.stack == OpenCalls(s, c, k) + [c] by {
        StackTopAtReturn(s, k, c);
      }
      assert OpenCalls(s, k + 1, k + 1) == OpenCalls(s, c, k) by {
        StackPoppedAtReturn(s, k, c);
      }
      assert st.stack[..|st.stack| - 1] == OpenCalls(s, c, k);
    } else {
      assert st.stack == [] && OpenCalls(s, k + 1, k + 1) == [] by {
        OpenCallsAtPending(s, k);
      }
    }
  }

  lemma ReadReturn<T>(word: seq<T>, s: Matching, k: nat)
    requires WellMatched(s) && |word| == |s.succ| && k < |s.succ| && ReturnAt(s, k)
    ensures ReadTags(ReadUpTo(s, k), Chunk(word, s, k)) == Success(ReadUpTo(s, k + 1))
  {
    assert !CallAt(s, k);
    var st := ReadUpTo(s, k);
    var st' := Reader(st.m, st.stack, k + 1);
    assert Chunk(word, s, k) == [Sym(word[k])] + [Close];
    ReadTagsSingle(st, Sym(word[k]));
    ReadTagsAppend(st, [Sym(word[k])], st', [Close]);
    ReadTagsSingle<T>(st', Close);
    ReadCloseAt<T>(s, k);
  }

  lemma ReadChunk<T>(word: seq<T>, s: Matching, k: nat)
    requires WellMatched(s) && |word| == |s.succ| && k < |s.succ|
    ensures ReadTags(ReadUpTo(s, k), Chunk(word, s, k)) == Success(ReadUpTo(s, k + 1))
  {
    if CallAt(s, k) {
      ReadCall(word, s, k);
    } else if ReturnAt(s, k) {
      ReadReturn(word, s, k);
    } else {
      ReadInternal(word, s, k);
    }
  }

  /** Reading the tagged form of the first `k` positions. */
  lemma {:induction false} ReadTagged<T>(word: seq<T>, s: Matching, k: nat)
    requires WellMatched(s) && |word| == |s.succ| && k <= |s.succ|
    ensures ReadTags(Reader(Empty(|s.succ|), [], 0), TaggedPrefix(word, s, k)) == Success(ReadUpTo(s, k))
  {
    var init := Reader(Empty(|s.succ|), [], 0);
    ClosedEnds(s);
    for j := 0 to k
      invariant ReadTags(init, TaggedPrefix(word, s, j)) == Success(ReadUpTo(s, j))
    {
      TaggedPrefixLast(word, s, j + 1);
      ReadChunk(word, s, j);
      ReadTagsAppend(init, TaggedPrefix(word, s, j), ReadUpTo(s, j), Chunk(word, s, j));
    }
  }

  lemma OpenedQuiet(s: Matching, c: nat)
    requires Sized(s) && c < |s.succ| && s.succ[c] != Pending
    ensures Opened(s, c + 1) == Opened(s, c)
  {
    var o, o' := Opened(s, c + 1), Opened(s, c);
    forall x | 0 <= x < |s.succ|
      ensures o.succ[x] == o'.succ[x]
    {
      OpenedAt(s, c + 1, x);
      OpenedAt(s, c, x);
    }
    assert o.succ == o'.succ;
  }

  /** The final loop, from the calls still open below `t`. */
  lemma {:induction false} CloseOpened(s: Matching, t: nat)
    requires WellMatched(s) && t <= |s.succ|
    ensures CloseStack(Opened(s, t), OpenCalls(s, t, |s.succ|)) == Success(s)
  {
    if t == 0 {
      ClosedEnds(s);
    } else {
      CloseOpened(s, t - 1);
      CloseOpenedStep(s, t);
    }
  }

  /** Opening the call at `t - 1` as well leaves one more entry for the final loop to close. */
  lemma CloseOpenedStep(s: Matching, t: nat)
    requires WellMatched(s) && 0 < t <= |s.succ|
    requires CloseStack(Opened(s, t - 1), OpenCalls(s, t - 1, |s.succ|)) == Success(s)
    ensures CloseStack(Opened(s, t), OpenCalls(s, t, |s.succ|)) == Success(s)
  {
    var n, c := |s.succ|, t - 1;
    var rest := OpenCalls(s, c, n);
    if s.succ[c] == Pending {
      var stack := OpenCalls(s, t, n);
      assert OpenAt(s, c, n);
      assert stack == rest + [c];
      assert stack[..|stack| - 1] == rest;
      OpenedStep(s, c);
    } else {
      assert !OpenAt(s, c, n);
      assert OpenCalls(s, t, n) == rest;
      OpenedQuiet(s, c);
    }
  }

  /** `from_tagged_sequence(nw.to_tagged())` gives back `nw`. */
  lemma TaggedRoundTrip<T>(w: NW<T>)
    requires WellFormed(w)
    ensures FromTagged(Tagged(w)) == Success(w)
  {
    var n := |w.word|;
    SymbolsTagged(w.word, w.m, n);
    assert w.word[..n] == w.word;
    ReadTagged(w.word, w.m, n);
    ClosedEnds(w.m);
    CloseOpened(w.m, n);
  }

  // add_calls

  /** The relation inside `add_calls(symbols)`: the relation `m` grown by
      `count` positions, of which those from `t` on are already pending calls. */
  function CallsFrom(m: Matching, count: nat, t: nat): (r: Matching)
    requires Sized(m)
    ensures Sized(r) && |r.succ| == |m.succ| + count
  {
    var n := |m.succ|;
    Matching(
      seq(n + count, x requires 0 <= x < n + count => if x < n then m.succ[x] else if x >= t then Pending else Unset),
      seq(n + count, x requires 0 <= x < n + count => if x < n then m.pred[x] else Unset))
  }

  lemma CallsFromAt(m: Matching, count: nat, t: nat, x: nat)
    requires Sized(m) && x < |m.succ| + count
    ensures CallsFrom(m, count, t).succ[x] == if x < |m.succ| then m.succ[x] else if x >= t then Pending else Unset
    ensures CallsFrom(m, count, t).pred[x] == if x < |m.succ| then m.pred[x] else Unset
  {
  }

  lemma CallsFromStart(m: Matching, count: nat)
    requires Sized(m)
    ensures CallsFrom(m, count, |m.succ| + count) == Extended(m, count)
  {
    var r, e := CallsFrom(m, count, |m.succ| + count), Extended(m, count);
    forall x | 0 <= x < |e.succ|
      ensures r.succ[x] == e.succ[x] && r.pred[x] == e.pred[x]
    {
      CallsFromAt(m, count, |m.succ| + count, x);
      if x < |m.succ| {
        assert e.succ[x] == e.succ[..|m.succ|][x] && e.pred[x] == e.pred[..|m.pred|][x];
      } else {
        assert InternalAt(e, x);
      }
    }
    assert r.succ == e.succ && r.pred == e.pred;
  }

  /** A pending call after every position of `q` crosses nothing of `q`. */
  lemma LaterPendingCallApart(i: nat, q: Match)
    requires q.ret.None? || q.ret.value < i
    requires q.call.None? || q.ret.Some? || q.call.value != i
    ensures !Crosses(Match(Some(i), None), q)
  {
  }

  /** `set_match(t - 1, None)` in `add_calls` succeeds and makes one more pending call. */
  lemma CallsFromStep(m: Matching, count: nat, t: nat)
    requires WellMatched(m) && |m.succ| < t <= |m.succ| + count
    ensures SetMatched(CallsFrom(m, count, t), Some(t - 1), None) == Success(CallsFrom(m, count, t - 1))
  {
    var n := |m.succ|;
    var b := CallsFrom(m, count, t);
    var p := AsMatch(Some(t - 1), None);
    forall q | q in Matches(b)
      ensures !Crosses(p, q)
    {
      var y :| 0 <= y < |b.succ| && !InternalAt(b, y) && MatchOf(b, y) == q;
      CallsFromAt(m, count, t, y);
      if y < n {
        assert MatchOf(b, y) == MatchOf(m, y);
        LaterPendingCallApart(t - 1, q);
      }
    }
    CallsFromAt(m, count, t, t - 1);
    assert RolesFree(b, p);
    assert Check(b, Some(t - 1), None).Pass?;
    var w, b' := Written(b, p), CallsFrom(m, count, t - 1);
    forall x | 0 <= x < n + count
      ensures w.succ[x] == b'.succ[x] && w.pred[x] == b'.pred[x]
    {
      CallsFromAt(m, count, t, x);
      CallsFromAt(m, count, t - 1, x);
    }
    assert w.succ == b'.succ && w.pred == b'.pred;
  }

  /** The relation after `add_calls` of `count` symbols. */
  function CallsAdded(m: Matching, count: nat): (r: Matching)
    requires Sized(m)
    ensures Sized(r) && |r.succ| == |m.succ| + count
  {
    CallsFrom(m, count, |m.succ|)
  }

  /** `add_calls` appends pending calls and changes no earlier position. */
  lemma CallsAddedEffect(m: Matching, count: nat)
    requires Sized(m)
    ensures CallsAdded(m, count).succ[..|m.succ|] == m.succ && CallsAdded(m, count).pred[..|m.succ|] == m.pred
    ensures forall x :: |m.succ| <= x < |m.succ| + count ==>
      CallAt(CallsAdded(m, count), x) && !ReturnAt(CallsAdded(m, count), x) && PendingAt(CallsAdded(m, count), x) &&
      MatchOf(CallsAdded(m, count), x) == Match(Some(x), None)
  {
    var r := CallsAdded(m, count);
    forall x | 0 <= x < |m.succ| + count
      ensures r.succ[x] == if x < |m.succ| then m.succ[x] else Pending
      ensures r.pred[x] == if x < |m.succ| then m.pred[x] else Unset
    {
      CallsFromAt(m, count, |m.succ|, x);
    }
    assert r.succ[..|m.succ|] == m.succ;
    assert r.pred[..|m.succ|] == m.pred;
  }

  /** `SetMatchedKeepsWellMatched`, for a result already named. */
  lemma SetMatchedInto(m: Matching, call: Option<int>, ret: Option<int>, m': Matching)
    requires WellMatched(m) && SetMatched(m, call, ret) == Success(m')
    ensures WellMatched(m')
  {
    SetMatchedKeepsWellMatched(m, call, ret);
  }

  /** Each call `add_calls` adds keeps the relation well matched. */
  lemma {:induction false} CallsFromWellMatched(m: Matching, count: nat, t: nat, c: Matching)
    requires WellMatched(m) && |m.succ| <= t <= |m.succ| + count && c == CallsFrom(m, count, t)
    ensures WellMatched(c)
    decreases |m.succ| + count - t
  {
    if t == |m.succ| + count {
      CallsFromStart(m, count);
      ExtendedKeepsMatches(m, count);
    } else {
      var b := CallsFrom(m, count, t + 1);
      CallsFromWellMatched(m, count, t + 1, b);
      CallsFromStepWellMatched(m, count, t, b, c);
    }
  }

  /** The call `add_calls` adds at `t` keeps the relation well matched. */
  lemma CallsFromStepWellMatched(m: Matching, count: nat, t: nat, b: Matching, c: Matching)
    requires WellMatched(m) && |m.succ| <= t < |m.succ| + count
    requires b == CallsFrom(m, count, t + 1) && c == CallsFrom(m, count, t) && WellMatched(b)
    ensures WellMatched(c)
  {
    assert SetMatched(b, Some(t), None) == Success(c) by {
      CallsFromStep(m, count, t + 1);
    }
    SetMatchedInto(b, Some(t), None, c);
  }

  lemma CallsAddedWellMatched(m: Matching, count: nat)
    requires WellMatched(m)
    ensures WellMatched(CallsAdded(m, count))
  {
    CallsFromWellMatched(m, count, |m.succ|, CallsFrom(m, count, |m.succ|));
  }

  // add_returns

  /** The pending calls of `m` from position `lo` on, the most recent first;
      from 0 it is `sorted(get_pending_calls(), reverse=True)`. */
  function PendingFrom(m: Matching, lo: nat): (r: seq<nat>)
    requires Sized(m)
    ensures forall j :: 0 <= j < |r| ==> lo <= r[j] < |m.succ| && m.succ[r[j]] == Pending
    ensures forall a, b :: 0 <= a < b < |r| ==> r[a] > r[b]
    decreases |m.succ| - lo
  {
    if lo >= |m.succ| then [] else PendingFrom(m, lo + 1) + (if m.succ[lo] == Pending then [lo] else [])
  }

  /** The number of pending calls after `x`: its place in that order. */
  function Rank(m: Matching, x: nat): nat
    requires Sized(m)
  {
    |PendingFrom(m, x + 1)|
  }

  lemma {:induction false} PendingFromPrefix(m: Matching, lo: nat, hi: nat)
    requires Sized(m) && lo <= hi
    ensures |PendingFrom(m, hi)| <= |PendingFrom(m, lo)|
    ensures PendingFrom(m, lo)[..|PendingFrom(m, hi)|] == PendingFrom(m, hi)
    decreases hi - lo
  {
    if lo < hi && lo < |m.succ| {
      PendingFromPrefix(m, lo + 1, hi);
      var k := |PendingFrom(m, hi)|;
      assert PendingFrom(m, lo)[..k] == PendingFrom(m, lo + 1)[..k];
    } else if lo < hi {
      assert PendingFrom(m, lo) == [] && PendingFrom(m, hi) == [];
    }
  }

  /** Every pending call is listed, at its rank. */
  lemma RankPlace(m: Matching, x: nat)
    requires Sized(m) && x < |m.succ| && m.succ[x] == Pending
    ensures Rank(m, x) < |PendingFrom(m, 0)| && PendingFrom(m, 0)[Rank(m, x)] == x
  {
    PendingFromPrefix(m, 0, x);
    assert PendingFrom(m, x) == PendingFrom(m, x + 1) + [x];
  }

  lemma PlaceRank(m: Matching, j: nat)
    requires Sized(m) && j < |PendingFrom(m, 0)|
    ensures Rank(m, PendingFrom(m, 0)[j]) == j
  {
    RankPlace(m, PendingFrom(m, 0)[j]);
  }

  /** The list holds exactly the pending calls, in decreasing order. */
  lemma PendingFromSorted(m: Matching)
    requires Sized(m)
    ensures forall j :: 0 <= j < |PendingFrom(m, 0)| ==> PendingFrom(m, 0)[j] in PendingCalls(m)
    ensures forall x :: x in PendingCalls(m) ==> x in PendingFrom(m, 0)
    ensures forall a, b :: 0 <= a < b < |PendingFrom(m, 0)| ==> PendingFrom(m, 0)[a] > PendingFrom(m, 0)[b]
  {
    PendingCallsAre(m);
    forall x | x in PendingCalls(m)
      ensures x in PendingFrom(m, 0)
    {
      RankPlace(m, x);
    }
  }

  lemma {:induction false} PendingFromExtended(m: Matching, count: nat, lo: nat)
    requires Sized(m)
    ensures PendingFrom(Extended(m, count), lo) == PendingFrom(m, lo)
    decreases |m.succ| + count - lo
  {
    var e := Extended(m, count);
    if lo < |e.succ| {
      PendingFromExtended(m, count, lo + 1);
      if lo < |m.succ| {
        assert e.succ[lo] == e.succ[..|m.succ|][lo];
      } else {
        assert InternalAt(e, lo);
      }
    }
  }

  /** The call `add_returns` pairs with its `i`-th new return, `None` once the pending calls run out. */
  function ReturnCall(m: Matching, i: nat): (c: Option<int>)
    requires Sized(m)
    ensures c.Some? ==> 0 <= c.value < |m.succ|
  {
    if i < |PendingFrom(m, 0)| then Some(PendingFrom(m, 0)[i]) else None
  }

  /** The relation inside `add_returns(symbols)`: `m` grown by `count`
      positions, of which the first `i` new ones are already returns. */
  function ReturnsUpTo(m: Matching, count: nat, i: nat): (r: Matching)
    requires Sized(m)
    ensures Sized(r) && |r.succ| == |m.succ| + count
  {
    var n := |m.succ|;
    var pending := PendingFrom(m, 0);
    Matching(
      seq(n + count, x requires 0 <= x < n + count =>
        if x >= n then Unset
        else if m.succ[x] == Pending && Rank(m, x) < i then At(n + Rank(m, x))
        else m.succ[x]),
      seq(n + count, x requires 0 <= x < n + count =>
        if x < n then m.pred[x]
        else if x - n < i then (if x - n < |pending| then At(pending[x - n]) else Pending)
        else Unset))
  }

  lemma ReturnsUpToAt(m: Matching, count: nat, i: nat, x: nat)
    requires Sized(m) && x < |m.succ| + count
    ensures ReturnsUpTo(m, count, i).succ[x] ==
      if x >= |m.succ| then Unset
      else if m.succ[x] == Pending && Rank(m, x) < i then At(|m.succ| + Rank(m, x))
      else m.succ[x]
    ensures ReturnsUpTo(m, count, i).pred[x] ==
      if x < |m.succ| then m.pred[x]
      else if x - |m.succ| < i then
        (if x - |m.succ| < |PendingFrom(m, 0)| then At(PendingFrom(m, 0)[x - |m.succ|]) else Pending)
      else Unset
  {
  }

  lemma ReturnsUpToStart(m: Matching, count: nat)
    requires Sized(m)
    ensures ReturnsUpTo(m, count, 0) == Extended(m, count)
  {
    var r, e := ReturnsUpTo(m, count, 0), Extended(m, count);
    forall x | 0 <= x < |e.succ|
      ensures r.succ[x] == e.succ[x] && r.pred[x] == e.pred[x]
    {
      ReturnsUpToAt(m, count, 0, x);
      if x < |m.succ| {
        assert e.succ[x] == e.succ[..|m.succ|][x] && e.pred[x] == e.pred[..|m.pred|][x];
      } else {
        assert InternalAt(e, x);
      }
    }
    assert r.succ == e.succ && r.pred == e.pred;
  }

  /** The `i`-th pairing crosses no match already in the relation. */
  lemma ReturnsApart(m: Matching, count: nat, i: nat, y: nat)
    requires WellMatched(m) && i < count && y < |m.succ| + count
    requires !InternalAt(ReturnsUpTo(m, count, i), y)
    ensures !Crosses(AsMatch(ReturnCall(m, i), Some(|m.succ| + i)), MatchOf(ReturnsUpTo(m, count, i), y))
  {
    var n := |m.succ|;
    var pending := PendingFrom(m, 0);
    var b := ReturnsUpTo(m, count, i);
    ReturnsUpToAt(m, count, i, y);
    if y < n && m.succ[y] == Pending {
      RankPlace(m, y);
    } else if y < n {
      assert MatchOf(b, y) == MatchOf(m, y);
      if i < |pending| {
        var c := pending[i];
        assert !InternalAt(m, c) && MatchOf(m, c) == Match(Some(c), None);
        assert !Crosses(MatchOf(m, c), MatchOf(m, y));
        assert m.pred[c] == Unset;
      }
    }
  }

  lemma ReturnsNoCrossing(m: Matching, count: nat, i: nat)
    requires WellMatched(m) && i < count
    ensures !CrossesSome(ReturnsUpTo(m, count, i), AsMatch(ReturnCall(m, i), Some(|m.succ| + i)))
  {
    var b := ReturnsUpTo(m, count, i);
    forall q | q in Matches(b)
      ensures !Crosses(AsMatch(ReturnCall(m, i), Some(|m.succ| + i)), q)
    {
      var y :| 0 <= y < |b.succ| && !InternalAt(b, y) && MatchOf(b, y) == q;
      ReturnsApart(m, count, i, y);
    }
  }

  lemma ReturnsRolesFree(m: Matching, count: nat, i: nat)
    requires WellMatched(m) && i < count
    ensures RolesFree(ReturnsUpTo(m, count, i), AsMatch(ReturnCall(m, i), Some(|m.succ| + i)))
  {
    var pending := PendingFrom(m, 0);
    ReturnsUpToAt(m, count, i, |m.succ| + i);
    if i < |pending| {
      PlaceRank(m, i);
      ReturnsUpToAt(m, count, i, pending[i]);
      assert !ReturnAt(m, pending[i]);
    }
  }

  lemma ReturnsWritten(m: Matching, count: nat, i: nat)
    requires Sized(m) && i < count
    ensures Written(ReturnsUpTo(m, count, i), AsMatch(ReturnCall(m, i), Some(|m.succ| + i))) == ReturnsUpTo(m, count, i + 1)
  {
    var n := |m.succ|;
    var b, b' := ReturnsUpTo(m, count, i), ReturnsUpTo(m, count, i + 1);
    var w := Written(b, AsMatch(ReturnCall(m, i), Some(n + i)));
    forall x | 0 <= x < n + count
      ensures w.succ[x] == b'.succ[x] && w.pred[x] == b'.pred[x]
    {
      ReturnsWrittenAt(m, count, i, x, b, b', w);
    }
    assert w.succ == b'.succ && w.pred == b'.pred;
  }

  /** `ReturnsWritten` at position `x`. */
  lemma ReturnsWrittenAt(m: Matching, count: nat, i: nat, x: nat, b: Matching, b': Matching, w: Matching)
    requires Sized(m) && i < count && x < |m.succ| + count
    requires b == ReturnsUpTo(m, count, i) && b' == ReturnsUpTo(m, count, i + 1)
    requires w == Written(b, AsMatch(ReturnCall(m, i), Some(|m.succ| + i)))
    ensures w.succ[x] == b'.succ[x] && w.pred[x] == b'.pred[x]
  {
    if i < |PendingFrom(m, 0)| {
      PlaceRank(m, i);
    }
    ReturnsUpToAt(m, count, i, x);
    ReturnsUpToAt(m, count, i + 1, x);
    if x < |m.succ| && m.succ[x] == Pending {
      RankPlace(m, x);
    }
  }

  /** The `i`-th `set_match` of `add_returns` succeeds. */
  lemma ReturnsStep(m: Matching, count: nat, i: nat)
    requires WellMatched(m) && i < count
    ensures SetMatched(ReturnsUpTo(m, count, i), ReturnCall(m, i), Some(|m.succ| + i)) == Success(ReturnsUpTo(m, count, i + 1))
  {
    var b := ReturnsUpTo(m, count, i);
    ReturnsNoCrossing(m, count, i);
    ReturnsRolesFree(m, count, i);
    assert Check(b, ReturnCall(m, i), Some(|m.succ| + i)).Pass?;
    ReturnsWritten(m, count, i);
  }

  /** The relation after `add_returns` of `count` symbols. */
  function ReturnsAdded(m: Matching, count: nat): (r: Matching)
    requires Sized(m)
    ensures Sized(r) && |r.succ| == |m.succ| + count
  {
    ReturnsUpTo(m, count, count)
  }

  /** `add_returns` pairs its new returns with the pending calls, the most
      recent first; surplus returns are pending, unpaired pending calls stay
      pending and nothing else changes. */
  lemma ReturnsAddedEffect(m: Matching, count: nat)
    requires Sized(m)
    ensures forall x :: |m.succ| <= x < |m.succ| + count ==>
      ReturnsAdded(m, count).succ[x] == Unset &&
      ReturnsAdded(m, count).pred[x] ==
        if x - |m.succ| < |PendingFrom(m, 0)| then At(PendingFrom(m, 0)[x - |m.succ|]) else Pending
    ensures forall j :: 0 <= j < |PendingFrom(m, 0)| ==>
      ReturnsAdded(m, count).succ[PendingFrom(m, 0)[j]] == if j < count then At(|m.succ| + j) else Pending
    ensures forall x :: 0 <= x < |m.succ| && m.succ[x] != Pending ==> ReturnsAdded(m, count).succ[x] == m.succ[x]
    ensures forall x :: 0 <= x < |m.succ| ==> ReturnsAdded(m, count).pred[x] == m.pred[x]
  {
    forall x | 0 <= x < |m.succ| + count
      ensures ReturnsAdded(m, count).succ[x] == ReturnsUpTo(m, count, count).succ[x]
    {
      ReturnsUpToAt(m, count, count, x);
    }
    forall j | 0 <= j < |PendingFrom(m, 0)|
      ensures ReturnsAdded(m, count).succ[PendingFrom(m, 0)[j]] == if j < count then At(|m.succ| + j) else Pending
    {
      PlaceRank(m, j);
      ReturnsUpToAt(m, count, count, PendingFrom(m, 0)[j]);
    }
  }

  lemma ReturnsStartWellMatched(m: Matching, count: nat)
    requires WellMatched(m)
    ensures WellMatched(ReturnsUpTo(m, count, 0))
  {
    ReturnsUpToStart(m, count);
    ExtendedKeepsMatches(m, count);
  }

  /** `ReturnsStep` with the pair `add_returns` sets and the relations
      before and after named. */
  lemma ReturnsStepAt(m: Matching, count: nat, i: nat, pending: seq<nat>, b: Matching, call: Option<int>, ret: int, b': Matching)
    requires WellMatched(m) && pending == PendingFrom(m, 0) && i < count
    requires b == ReturnsUpTo(m, count, i) && b' == ReturnsUpTo(m, count, i + 1)
    requires call == (if i < |pending| then Some(pending[i]) else None) && ret == |b.succ| - count + i
    ensures SetMatched(b, call, Some(ret)) == Success(b')
  {
    assert call == ReturnCall(m, i) && ret == |m.succ| + i;
    ReturnsStep(m, count, i);
  }

  lemma ReturnsStepWellMatched(m: Matching, count: nat, i: nat, b: Matching, b': Matching)
    requires WellMatched(m) && i < count
    requires b == ReturnsUpTo(m, count, i) && b' == ReturnsUpTo(m, count, i + 1) && WellMatched(b)
    ensures WellMatched(b')
  {
    assert SetMatched(b, ReturnCall(m, i), Some(|m.succ| + i)) == Success(b') by {
      ReturnsStep(m, count, i);
    }
    SetMatchedKeepsWellMatched(b, ReturnCall(m, i), Some(|m.succ| + i));
  }

  /** Every relation on the way through `add_returns` is well matched. */
  lemma ReturnsUpToWellMatched(m: Matching, count: nat, i: nat, b: Matching)
    requires WellMatched(m) && i <= count && b == ReturnsUpTo(m, count, i)
    ensures WellMatched(b)
  {
    ReturnsStartWellMatched(m, count);
    for j := 0 to i
      invariant WellMatched(ReturnsUpTo(m, count, j))
    {
      ReturnsStepWellMatched(m, count, j, ReturnsUpTo(m, count, j), ReturnsUpTo(m, count, j + 1));
    }
  }


  // Returns added one at a time

  /** Above the `k`-th most recent pending call, `add_returns` of `k`
      symbols leaves no pending call. */
  lemma {:induction false} NoPendingAbove(m: Matching, k: nat, lo: nat)
    requires Sized(m) && 0 < k <= |PendingFrom(m, 0)| && lo > PendingFrom(m, 0)[k - 1]
    ensures PendingFrom(ReturnsAdded(m, k), lo) == []
    decreases |m.succ| + k - lo
  {
    if lo < |m.succ| + k {
      NotPendingAbove(m, k, lo);
      NoPendingAbove(m, k, lo + 1);
    }
  }

  /** Above the `k`-th most recent pending call, a position is no longer
      pending after `add_returns` of `k` symbols. */
  lemma NotPendingAbove(m: Matching, k: nat, lo: nat)
    requires Sized(m) && 0 < k <= |PendingFrom(m, 0)| && lo > PendingFrom(m, 0)[k - 1] && lo < |m.succ| + k
    ensures ReturnsAdded(m, k).succ[lo] != Pending
  {
    ReturnsUpToAt(m, k, k, lo);
    if lo < |m.succ| && m.succ[lo] == Pending {
      RankBelow(m, k, lo);
    }
  }

  /** A pending call above the `k`-th most recent one has rank below `k`. */
  lemma RankBelow(m: Matching, k: nat, lo: nat)
    requires Sized(m) && 0 < k <= |PendingFrom(m, 0)| && lo > PendingFrom(m, 0)[k - 1]
    requires lo < |m.succ| && m.succ[lo] == Pending
    ensures Rank(m, lo) < k
  {
    var c := PendingFrom(m, 0)[k - 1];
    PlaceRank(m, k - 1);
    PendingFromPrefix(m, c + 1, lo);
    assert PendingFrom(m, lo) == PendingFrom(m, lo + 1) + [lo];
  }

  /** Up to the `k`-th most recent pending call, the pending calls left by
      `add_returns` of `k` symbols are the original ones but the first `k`. */
  lemma {:induction false} PendingBelow(m: Matching, k: nat, lo: nat)
    requires Sized(m) && 0 < k <= |PendingFrom(m, 0)| && lo <= PendingFrom(m, 0)[k - 1]
    ensures |PendingFrom(m, lo)| >= k
    ensures PendingFrom(ReturnsAdded(m, k), lo) == PendingFrom(m, lo)[k..]
    decreases PendingFrom(m, 0)[k - 1] - lo
  {
    if lo == PendingFrom(m, 0)[k - 1] {
      PendingBelowTop(m, k, lo);
    } else {
      PendingBelow(m, k, lo + 1);
      PendingBelowStep(m, k, lo);
    }
  }

  /** At the `k`-th most recent pending call itself none is left. */
  lemma PendingBelowTop(m: Matching, k: nat, c: nat)
    requires Sized(m) && 0 < k <= |PendingFrom(m, 0)| && c == PendingFrom(m, 0)[k - 1]
    ensures |PendingFrom(m, c)| == k
    ensures PendingFrom(ReturnsAdded(m, k), c) == []
  {
    var r := ReturnsAdded(m, k);
    PlaceRank(m, k - 1);
    assert PendingFrom(m, c) == PendingFrom(m, c + 1) + [c];
    NoPendingAbove(m, k, c + 1);
    ReturnsUpToAt(m, k, k, c);
    assert r.succ[c] != Pending;
    assert PendingFrom(r, c) == PendingFrom(r, c + 1);
  }

  /** Below it, a position is pending after `add_returns` exactly when it
      was before. */
  lemma PendingBelowStep(m: Matching, k: nat, lo: nat)
    requires Sized(m) && 0 < k <= |PendingFrom(m, 0)| && lo < PendingFrom(m, 0)[k - 1]
    requires |PendingFrom(m, lo + 1)| >= k
    requires PendingFrom(ReturnsAdded(m, k), lo + 1) == PendingFrom(m, lo + 1)[k..]
    ensures |PendingFrom(m, lo)| >= k
    ensures PendingFrom(ReturnsAdded(m, k), lo) == PendingFrom(m, lo)[k..]
  {
    var r := ReturnsAdded(m, k);
    var a := PendingFrom(m, lo + 1);
    var x: seq<nat> := if m.succ[lo] == Pending then [lo] else [];
    ReturnsUpToAt(m, k, k, lo);
    assert r.succ[lo] == Pending <==> m.succ[lo] == Pending;
    assert PendingFrom(r, lo) == PendingFrom(r, lo + 1) + x;
    assert PendingFrom(m, lo) == a + x;
    assert (a + x)[k..] == a[k..] + x;
  }

  /** After `add_returns` of `k` symbols the pending calls are the original
      ones but the `k` most recent. */
  lemma PendingAfterReturns(m: Matching, k: nat)
    requires Sized(m) && k <= |PendingFrom(m, 0)|
    ensures PendingFrom(ReturnsAdded(m, k), 0) == PendingFrom(m, 0)[k..]
  {
    if k == 0 {
      ReturnsUpToStart(m, 0);
      PendingFromExtended(m, 0, 0);
    } else {
      PendingBelow(m, k, 0);
    }
  }

  lemma ReturnsAddedOneMoreAt(m: Matching, k: nat, x: nat)
    requires Sized(m) && k < |PendingFrom(m, 0)| && x <= |m.succ| + k
    ensures ReturnsAdded(ReturnsAdded(m, k), 1).succ[x] == ReturnsAdded(m, k + 1).succ[x]
    ensures ReturnsAdded(ReturnsAdded(m, k), 1).pred[x] == ReturnsAdded(m, k + 1).pred[x]
  {
    var p := PendingFrom(m, 0);
    var r := ReturnsAdded(m, k);
    ReturnsAddedEffect(m, k);
    ReturnsAddedEffect(m, k + 1);
    ReturnsAddedEffect(r, 1);
    PendingAfterReturns(m, k);
    if x < |m.succ| && m.succ[x] == Pending {
      RankPlace(m, x);
      var j := Rank(m, x);
      if j >= k {
        assert PendingFrom(r, 0)[j - k] == x;
      }
    }
  }

  /** `add_return` after `add_returns` of `k` symbols is `add_returns` of
      `k + 1` symbols, as long as a pending call is left to close. */
  lemma ReturnsAddedOneMore(m: Matching, k: nat)
    requires Sized(m) && k < |PendingFrom(m, 0)|
    ensures ReturnsAdded(ReturnsAdded(m, k), 1) == ReturnsAdded(m, k + 1)
  {
    var a, b := ReturnsAdded(ReturnsAdded(m, k), 1), ReturnsAdded(m, k + 1);
    forall x | 0 <= x < |b.succ|
      ensures a.succ[x] == b.succ[x] && a.pred[x] == b.pred[x]
    {
      ReturnsAddedOneMoreAt(m, k, x);
    }
    assert a.succ == b.succ && a.pred == b.pred;
  }

  function Elements(s: seq<nat>): set<nat>
  {
    set x | x in s
  }

  lemma ElementsSnoc(t: seq<nat>, last: nat)
    requires forall i :: 0 <= i < |t| ==> t[i] > last
    ensures Elements(t + [last]) == Elements(t) + {last}
    ensures last !in Elements(t)
  {
    assert forall x :: x in t + [last] <==> x in t || x == last;
  }

  lemma {:induction false} DecreasingCard(s: seq<nat>)
    requires forall a, b :: 0 <= a < b < |s| ==> s[a] > s[b]
    ensures |Elements(s)| == |s|
    decreases |s|
  {
    if s == [] {
      assert Elements(s) == {};
    } else {
      var last := s[|s| - 1];
      var t := s[..|s| - 1];
      assert |Elements(t)| == |t| by {
        DecreasingCard(t);
      }
      assert s == t + [last];
      ElementsSnoc(t, last);
    }
  }

  /** `get_pending_calls` has as many elements as the sorted list has entries. */
  lemma PendingCount(m: Matching)
    requires Sized(m)
    ensures |PendingCalls(m)| == |PendingFrom(m, 0)|
  {
    PendingFromSorted(m);
    DecreasingCard(PendingFrom(m, 0));
    assert PendingCalls(m) == Elements(PendingFrom(m, 0));
  }

  /** Reading tags keeps the relation well matched. */
  lemma {:induction false} ReadTagsWellMatched<T>(st: Reader, tags: seq<Tag<T>>)
    requires WellMatched(st.m) && ReadTags(st, tags).Success?
    ensures WellMatched(ReadTags(st, tags).value.m)
    decreases |tags|
  {
    if tags != [] {
      var init := tags[..|tags| - 1];
      ReadTagsWellMatched(st, init);
      var mid := ReadTags(st, init).value;
      var t := tags[|tags| - 1];
      if t.Close? {
        var call: Option<int> := if |mid.stack| > 0 then Some(mid.stack[|mid.stack| - 1]) else None;
        SetMatchedKeepsWellMatched(mid.m, call, Some(if mid.counter > 0 then mid.counter - 1 else 0));
      }
    }
  }

  lemma {:induction false} CloseStackWellMatched(m: Matching, stack: seq<nat>)
    requires WellMatched(m) && CloseStack(m, stack).Success?
    ensures WellMatched(CloseStack(m, stack).value)
    decreases |stack|
  {
    if stack != [] {
      SetMatchedKeepsWellMatched(m, Some(stack[|stack| - 1]), None);
      CloseStackWellMatched(SetMatched(m, Some(stack[|stack| - 1]), None).value, stack[..|stack| - 1]);
    }
  }

  /** Whatever `from_tagged_sequence` accepts is a well-formed nested word. */
  lemma FromTaggedWellFormed<T>(tags: seq<Tag<T>>)
    requires FromTagged(tags).Success?
    ensures WellFormed(FromTagged(tags).value)
  {
    var init := Reader(Empty(|Symbols(tags)|), [], 0);
    EmptyWellMatched(|Symbols(tags)|);
    ReadTagsWellMatched(init, tags);
    var st := ReadTags(init, tags).value;
    CloseStackWellMatched(st.m, st.stack);
  }

  // Concatenation

  /** `a + b`: the tagged forms joined and read back. */
  function Concatenated<T>(a: NW<T>, b: NW<T>): Result<NW<T>>
    requires Sized(a.m) && |a.word| == |a.m.succ|
    requires Sized(b.m) && |b.word| == |b.m.succ|
  {
    FromTagged(Tagged(a) + Tagged(b))
  }

  /** The word of a concatenation is the two words joined. */
  lemma ConcatenatedWord<T>(a: NW<T>, b: NW<T>)
    requires Sized(a.m) && |a.word| == |a.m.succ|
    requires Sized(b.m) && |b.word| == |b.m.succ|
    requires Concatenated(a, b).Success?
    ensures Concatenated(a, b).value.word == a.word + b.word
  {
    SymbolsAppend(Tagged(a), Tagged(b));
    SymbolsTagged(a.word, a.m, |a.word|);
    SymbolsTagged(b.word, b.m, |b.word|);
    assert a.word[..|a.word|] == a.word && b.word[..|b.word|] == b.word;
  }

  /** A tagged prefix depends only on the chunks it is made of. */
  lemma {:induction false} TaggedPrefixFront<T>(word: seq<T>, m: Matching, aw: seq<T>, am: Matching, i: nat)
    requires Sized(m) && |word| == |m.succ| && Sized(am) && |aw| == |am.succ| && i <= |aw| <= |word|
    requires forall x :: 0 <= x < |aw| ==> Chunk(word, m, x) == Chunk(aw, am, x)
    ensures TaggedPrefix(word, m, i) == TaggedPrefix(aw, am, i)
  {
    if i > 0 {
      TaggedPrefixFront(word, m, aw, am, i - 1);
      assert Chunk(word, m, i - 1) == Chunk(aw, am, i - 1);
    }
  }

  /** A word whose chunks are those of `aw` followed by those of `bw` has
      as tagged prefix the tagged form of `aw` followed by a prefix of `bw`'s. */
  lemma {:induction false} TaggedPrefixBack<T>(word: seq<T>, m: Matching, aw: seq<T>, am: Matching,
                                               bw: seq<T>, bm: Matching, k: nat)
    requires Sized(m) && |word| == |m.succ| && |word| == |aw| + |bw|
    requires Sized(am) && |aw| == |am.succ| && Sized(bm) && |bw| == |bm.succ| && k <= |bw|
    requires forall x :: 0 <= x < |aw| ==> Chunk(word, m, x) == Chunk(aw, am, x)
    requires forall x :: 0 <= x < |bw| ==> Chunk(word, m, |aw| + x) == Chunk(bw, bm, x)
    ensures TaggedPrefix(word, m, |aw| + k) == TaggedPrefix(aw, am, |aw|) + TaggedPrefix(bw, bm, k)
  {
    if k == 0 {
      TaggedPrefixFront(word, m, aw, am, |aw|);
    } else {
      var n := |aw|;
      TaggedPrefixBack(word, m, aw, am, bw, bm, k - 1);
      assert Chunk(word, m, n + (k - 1)) == Chunk(bw, bm, k - 1);
      TaggedPrefixLast(word, m, n + k);
      TaggedPrefixLast(bw, bm, k);
      SnocRegrouped(TaggedPrefix(word, m, n + k), TaggedPrefix(word, m, n + k - 1),
                    TaggedPrefix(aw, am, n), TaggedPrefix(bw, bm, k - 1), Chunk(bw, bm, k - 1), TaggedPrefix(bw, bm, k));
    }
  }

  /** One more piece at the end of a sequence made of two parts belongs to the second part. */
  lemma SnocRegrouped<X>(whole: seq<X>, prev: seq<X>, front: seq<X>, back: seq<X>, piece: seq<X>, tail: seq<X>)
    requires whole == prev + piece && prev == front + back && tail == back + piece
    ensures whole == front + tail
  {
    assert (front + back) + piece == front + (back + piece);
  }

  lemma ChunkJoinedFront<T>(aw: seq<T>, am: Matching, bw: seq<T>, bm: Matching, i: nat)
    requires Sized(am) && |aw| == |am.succ| && Sized(bm) && |bw| == |bm.succ| && i < |aw|
    ensures Chunk(aw + bw, Joined(am, bm), i) == Chunk(aw, am, i)
  {
    JoinedAt(am, bm, i);
    assert (aw + bw)[i] == aw[i];
  }

  lemma ChunkJoinedBack<T>(aw: seq<T>, am: Matching, bw: seq<T>, bm: Matching, k: nat)
    requires Sized(am) && |aw| == |am.succ| && Sized(bm) && |bw| == |bm.succ| && k < |bw|
    ensures Chunk(aw + bw, Joined(am, bm), |aw| + k) == Chunk(bw, bm, k)
  {
    JoinedAt(am, bm, |aw| + k);
    assert (aw + bw)[|aw| + k] == bw[k];
  }

  /** The chunks of two words written one after the other are those of the
      first word, then those of the second. */
  lemma ChunksJoined<T>(a: NW<T>, b: NW<T>)
    requires Sized(a.m) && |a.word| == |a.m.succ|
    requires Sized(b.m) && |b.word| == |b.m.succ|
    ensures forall x :: 0 <= x < |a.word| ==> Chunk(a.word + b.word, Joined(a.m, b.m), x) == Chunk(a.word, a.m, x)
    ensures forall x :: 0 <= x < |b.word| ==>
      Chunk(a.word + b.word, Joined(a.m, b.m), |a.word| + x) == Chunk(b.word, b.m, x)
  {
    forall x | 0 <= x < |a.word|
      ensures Chunk(a.word + b.word, Joined(a.m, b.m), x) == Chunk(a.word, a.m, x)
    {
      ChunkJoinedFront(a.word, a.m, b.word, b.m, x);
    }
    forall x | 0 <= x < |b.word|
      ensures Chunk(a.word + b.word, Joined(a.m, b.m), |a.word| + x) == Chunk(b.word, b.m, x)
    {
      ChunkJoinedBack(a.word, a.m, b.word, b.m, x);
    }
  }

  /** The tagged form of two words written one after the other, with the
      relation `Joined` gives them, is their tagged forms joined. */
  lemma TaggedJoined<T>(a: NW<T>, b: NW<T>)
    requires Sized(a.m) && |a.word| == |a.m.succ|
    requires Sized(b.m) && |b.word| == |b.m.succ|
    ensures Tagged(NW(a.word + b.word, Joined(a.m, b.m))) == Tagged(a) + Tagged(b)
  {
    ChunksJoined(a, b);
    TaggedPrefixBack(a.word + b.word, Joined(a.m, b.m), a.word, a.m, b.word, b.m, |b.word|);
  }

  /** `a + b` succeeds whenever `b` has no pending return: nothing in `b`
      can close a pending call of `a`, so the result is the two words
      written one after the other, each keeping its own matches. */
  lemma ConcatenatedSucceeds<T>(a: NW<T>, b: NW<T>)
    requires WellFormed(a) && WellFormed(b) && NoPendingReturns(b.m)
    ensures Concatenated(a, b) == Success(NW(a.word + b.word, Joined(a.m, b.m)))
  {
    var j := NW(a.word + b.word, Joined(a.m, b.m));
    JoinedWellMatched(a.m, b.m);
    TaggedJoined(a, b);
    TaggedRoundTrip(j);
  }

  /** The empty nested word is a unit of concatenation on both sides. */
  lemma ConcatenatedEmpty<T>(w: NW<T>)
    requires WellFormed(w)
    ensures Concatenated(NW([], Empty(0)), w) == Success(w)
    ensures Concatenated(w, NW([], Empty(0))) == Success(w)
  {
    var e: NW<T> := NW([], Empty(0));
    assert Tagged(e) == [];
    assert Tagged(e) + Tagged(w) == Tagged(w);
    assert Tagged(w) + Tagged(e) == Tagged(w);
    TaggedRoundTrip(w);
  }

  /** `set_match` as written accepts a pending return at position 0 of a
      one-symbol word, and then a pending call at the same position. */
  lemma DoubleRoleAccepted()
    ensures SetMatchedAsWritten(Empty(1), None, Some(0)) == Success(Matching([Unset], [Pending]))
    ensures SetMatchedAsWritten(Matching([Unset], [Pending]), Some(0), None) == Success(Matching([Pending], [Pending]))
  {
    var e := Empty(1);
    assert e == Matching([Unset], [Unset]);
    assert Matches(e) == {} by {
      assert InternalAt(e, 0);
    }
    var m1 := Matching([Unset], [Pending]);
    assert Matches(m1) == {Match(None, Some(0))} by {
      assert !InternalAt(m1, 0) && MatchOf(m1, 0) == Match(None, Some(0));
    }
    assert !Crosses(AsMatch(Some(0), None), Match(None, Some(0)));
    assert Written(e, AsMatch(None, Some(0))) == m1;
  }

  /** The tags `["<", a, ">"]` never read back: the only call on the stack
      is matched with the position of its own symbol. */
  lemma SelfMatchFails<T>(a: T)
    ensures FromTagged([Open, Sym(a), Close]).Failure?
  {
    var tags: seq<Tag<T>> := [Open, Sym(a), Close];
    assert Symbols(tags) == [a] by {
      assert tags == [Open, Sym(a)] + [Close];
      assert [Open, Sym(a)] == [Open] + [Sym(a)];
      SymbolsAppend([Open, Sym(a)], [Close]);
      SymbolsAppend([Open], [Sym(a)]);
      SymbolsSingle(Sym(a));
      SymbolsSingle<T>(Open);
      SymbolsSingle<T>(Close);
    }
    var init := Reader(Empty(1), [], 0);
    var r1 := Reader(Empty(1), [0], 0);
    var r2 := Reader(Empty(1), [0], 1);
    assert ReadTags<T>(init, [Open]) == Success(r1) by {
      ReadTagsSingle<T>(init, Open);
      assert init.stack + [init.counter] == [0];
    }
    assert ReadTags(init, [Open, Sym(a)]) == Success(r2) by {
      assert [Open, Sym(a)] == [Open] + [Sym(a)];
      ReadTagsAppend(init, [Open], r1, [Sym(a)]);
      ReadTagsSingle(r1, Sym(a));
    }
    assert ReadTags(init, tags).Failure? by {
      assert tags == [Open, Sym(a)] + [Close];
      ReadTagsAppend(init, [Open, Sym(a)], r2, [Close]);
      ReadTagsSingle<T>(r2, Close);
      assert SetMatched(r2.m, Some(0), Some(0)).Failure?;
    }
  }

  /** The relation of `DoubleRoleAccepted` makes position 0 both a call and a
      return; its tagged form does not read back, and the role check rejects
      the second match. */
  lemma DoubleRoleRoundTripFails<T>(a: T)
    ensures var m2 := Matching([Pending], [Pending]);
      CallAt(m2, 0) && ReturnAt(m2, 0) &&
      Tagged(NW([a], m2)) == [Open, Sym(a), Close] &&
      FromTagged(Tagged(NW([a], m2))).Failure?
    ensures SetMatched(Matching([Unset], [Pending]), Some(0), None).Failure?
  {
    var m2 := Matching([Pending], [Pending]);
    assert Tagged(NW([a], m2)) == [Open, Sym(a), Close] by {
      assert TaggedPrefix([a], m2, 1) == TaggedPrefix([a], m2, 0) + Chunk([a], m2, 0);
      assert Chunk([a], m2, 0) == [Open] + [Sym(a)] + [Close];
    }
    SelfMatchFails(a);
    var m1 := Matching([Unset], [Pending]);
    assert !RolesFree(m1, AsMatch(Some(0), None));
  }

  class NestedWord<T(==)> {
    var word: seq<T>
    const matching: MatchingRelation

    function Value(): NW<T>
      reads this, matching
    {
      NW(word, matching.Value())
    }

    predicate Valid()
      reads this, matching
    {
      matching.Valid() && |word| == |matching.succ|
    }

    constructor Of(word: seq<T>, matching: MatchingRelation)
      requires matching.Valid() && |word| == |matching.succ|
      ensures this.word == word && this.matching == matching && Valid()
    {
      this.word := word;
      this.matching := matching;
    }

    /** `NestedWord(word, matching)`: an empty relation when none is given,
        an error when the lengths differ. */
    static method Create(word: seq<T>, matching: Option<MatchingRelation>) returns (r: Result<NestedWord<T>>)
      requires matching.Some? ==> matching.value.Valid()
      ensures matching.None? ==> r.Success? && fresh(r.value.matching) && r.value.Value() == NW(word, Empty(|word|))
      ensures matching.Some? ==> (r.Success? <==> |word| == |matching.value.succ|)
      ensures matching.Some? && r.Success? ==> r.value.matching == matching.value && r.value.word == word
      ensures r.Failure? ==> r.error.ValueError?
      ensures r.Success? ==> fresh(r.value) && r.value.Valid()
    {
      var rel: MatchingRelation;
      if matching.None? {
        rel := new MatchingRelation(|word|);
      } else if |word| != |matching.value.succ| {
        return Failure(ValueError("Word and matching relation must have the same length."));
      } else {
        rel := matching.value;
      }
      var nw := new NestedWord.Of(word, rel);
      return Success(nw);
    }

    /** `__len__`. */
    function Length(): nat
      reads this
    {
      |word|
    }

    /** `to_tagged`. */
    method ToTagged() returns (tags: seq<Tag<T>>)
      requires Valid()
      ensures tags == Tagged(Value())
    {
      tags := [];
      ghost var m := matching.Value();
      for i := 0 to |word|
        invariant tags == TaggedPrefix(word, m, i)
      {
        var chunk: seq<Tag<T>> := [];
        if matching.IsCall(i) {
          chunk := [Open];
        }
        chunk := chunk + [Sym(word[i])];
        if matching.IsReturn(i) {
          chunk := chunk + [Close];
        }
        assert chunk == Chunk(word, m, i);
        tags := tags + chunk;
      }
    }

    /** `from_tagged_sequence`. */
    static method FromTaggedSequence(tags: seq<Tag<T>>) returns (r: Result<NestedWord<T>>)
      ensures r.Success? <==> FromTagged(tags).Success?
      ensures r.Success? ==> fresh(r.value) && fresh(r.value.matching) && r.value.Valid() && r.value.Value() == FromTagged(tags).value
      ensures r.Failure? ==> r.error == FromTagged(tags).error
    {
      var word := Symbols(tags);
      var matching := new MatchingRelation(|word|);
      var read := ReadEach(tags, matching);
      if read.Failure? {
        return Failure(read.error);
      }
      var closed := CloseEach(matching, read.value.0);
      if closed.Failure? {
        return Failure(closed.error);
      }
      var nw := new NestedWord.Of(word, matching);
      return Success(nw);
    }

    /** The first loop of `from_tagged_sequence`: the tags read in turn; the
        first `set_match` that raises ends it. */
    static method ReadEach(tags: seq<Tag<T>>, matching: MatchingRelation) returns (r: Result<(seq<nat>, nat)>)
      requires matching.Valid()
      modifies matching
      ensures matching.Valid() && |matching.succ| == old(|matching.succ|)
      ensures r.Success? ==>
        ReadTags(Reader(old(matching.Value()), [], 0), tags) == Success(Reader(matching.Value(), r.value.0, r.value.1))
      ensures r.Failure? ==> ReadTags(Reader(old(matching.Value()), [], 0), tags) == Failure(r.error)
    {
      ghost var init := Reader(matching.Value(), [], 0);
      var stack: seq<nat> := [];
      var counter: nat := 0;
      for k := 0 to |tags|
        invariant matching.Valid() && |matching.succ| == |init.m.succ|
        invariant ReadTags(init, tags[..k]) == Success(Reader(matching.Value(), stack, counter))
      {
        assert tags[..k + 1] == tags[..k] + [tags[k]];
        var next := ReadOne(tags[k], matching, stack, counter);
        if next.Failure? {
          ReadTagsFailureStays(init, tags, k + 1);
          return Failure(next.error);
        }
        stack, counter := next.value.0, next.value.1;
      }
      assert tags[..|tags|] == tags;
      return Success((stack, counter));
    }

    /** One turn of the first loop of `from_tagged_sequence`. */
    static method ReadOne(tag: Tag<T>, matching: MatchingRelation, stack: seq<nat>, counter: nat)
        returns (r: Result<(seq<nat>, nat)>)
      requires matching.Valid()
      modifies matching
      ensures matching.Valid() && |matching.succ| == old(|matching.succ|)
      ensures r.Success? ==>
        ReadTag(Reader(old(matching.Value()), stack, counter), tag) == Success(Reader(matching.Value(), r.value.0, r.value.1))
      ensures r.Failure? ==> ReadTag(Reader(old(matching.Value()), stack, counter), tag) == Failure(r.error)
    {
      match tag
      case Open =>
        r := Success((stack + [counter], counter));
      case Close =>
        var call: Option<int> := None;
        var rest := stack;
        if |stack| > 0 {
          call := Some(stack[|stack| - 1]);
          rest := stack[..|stack| - 1];
        }
        var res := matching.SetMatch(call, Some(if counter > 0 then counter - 1 else 0));
        if res.Failure? {
          return Failure(res.error);
        }
        r := Success((rest, counter));
      case Sym(_) =>
        r := Success((stack, counter + 1));
    }

    /** The final loop of `from_tagged_sequence`: every call left on the
        stack becomes pending, the most recent first. */
    static method CloseEach(matching: MatchingRelation, stack: seq<nat>) returns (r: Result<()>)
      requires matching.Valid()
      modifies matching
      ensures matching.Valid() && |matching.succ| == old(|matching.succ|)
      ensures r.Success? ==> CloseStack(old(matching.Value()), stack) == Success(matching.Value())
      ensures r.Failure? ==> CloseStack(old(matching.Value()), stack) == Failure(r.error)
    {
      ghost var m0 := matching.Value();
      var rest := stack;
      while |rest| > 0
        invariant matching.Valid() && |matching.succ| == |m0.succ|
        invariant CloseStack(matching.Value(), rest) == CloseStack(m0, stack)
        decreases |rest|
      {
        var c := rest[|rest| - 1];
        rest := rest[..|rest| - 1];
        var res := matching.SetMatch(Some(c), None);
        if res.Failure? {
          return Failure(res.error);
        }
      }
      return Success(());
    }

    /** `add_internals(symbols)`. */
    method AddInternals(symbols: seq<T>)
      requires Valid()
      modifies this, matching
      ensures Valid()
      ensures word == old(word) + symbols && matching.Value() == Extended(old(matching.Value()), |symbols|)
    {
      word := word + symbols;
      matching.Extend(|symbols|);
    }

    /** `add_calls(symbols)`. */
    method AddCalls(symbols: seq<T>)
      requires Valid()
      modifies this, matching
      ensures Valid()
      ensures word == old(word) + symbols && matching.Value() == CallsAdded(old(matching.Value()), |symbols|)
    {
      ghost var m := matching.Value();
      AddInternals(symbols);
      CallsFromStart(m, |symbols|);
      AddCallsLoop(m, |symbols|, matching);
    }

    /** The loop of `add_calls`: the new positions become pending calls, the
        last one first. */
    static method AddCallsLoop(ghost m: Matching, count: nat, rel: MatchingRelation)
      requires WellMatched(m) && rel.Valid() && rel.Value() == CallsFrom(m, count, |m.succ| + count)
      modifies rel
      ensures rel.Valid() && rel.Value() == CallsAdded(m, count)
    {
      var n := |rel.succ|;
      for pos := 1 to count + 1
        invariant rel.Valid() && rel.Value() == CallsFrom(m, count, n - pos + 1)
      {
        AddCallAt(m, count, rel, n - pos);
      }
    }

    /** One pass of that loop: position `t` becomes a pending call. */
    static method AddCallAt(ghost m: Matching, count: nat, rel: MatchingRelation, t: nat)
      requires WellMatched(m) && |m.succ| <= t < |m.succ| + count
      requires rel.Valid() && rel.Value() == CallsFrom(m, count, t + 1)
      modifies rel
      ensures rel.Valid() && rel.Value() == CallsFrom(m, count, t)
    {
      CallsFromStep(m, count, t + 1);
      var _ := rel.SetMatch(Some(t), None);
    }

    /** `add_returns(symbols)`. */
    method AddReturns(symbols: seq<T>)
      requires Valid()
      modifies this, matching
      ensures Valid()
      ensures word == old(word) + symbols && matching.Value() == ReturnsAdded(old(matching.Value()), |symbols|)
    {
      ghost var m := matching.Value();
      AddInternals(symbols);
      PendingFromExtended(m, |symbols|, 0);
      var pending := PendingFrom(matching.Value(), 0);
      ReturnsUpToStart(m, |symbols|);
      AddReturnsLoop(m, |symbols|, pending);
    }

    /** The loop of `add_returns`: the `i`-th new position returns to the
        `i`-th pending call, the most recent first. */
    method AddReturnsLoop(ghost m: Matching, count: nat, pending: seq<nat>)
      requires WellMatched(m) && pending == PendingFrom(m, 0)
      requires Valid() && |word| == |m.succ| + count && matching.Value() == Extended(m, count)
      modifies matching
      ensures Valid() && matching.Value() == ReturnsAdded(m, count)
    {
      ReturnsUpToStart(m, count);
      for i := 0 to count
        invariant Valid()
        invariant matching.Value() == ReturnsUpTo(m, count, i)
      {
        AddReturnAt(m, count, pending, matching, i);
      }
    }

    /** One pass of that loop. */
    static method AddReturnAt(ghost m: Matching, count: nat, pending: seq<nat>, rel: MatchingRelation, i: nat)
      requires WellMatched(m) && pending == PendingFrom(m, 0) && i < count
      requires rel.Valid() && rel.Value() == ReturnsUpTo(m, count, i)
      modifies rel
      ensures rel.Valid() && rel.Value() == ReturnsUpTo(m, count, i + 1)
    {
      var call: Option<int> := if i < |pending| then Some(pending[i]) else None;
      var ret := rel.Length() - count + i;
      ReturnsStepAt(m, count, i, pending, rel.Value(), call, ret, ReturnsUpTo(m, count, i + 1));
      var _ := rel.SetMatch(call, Some(ret));
    }

    /** `add_internal(symbol)`. */
    method AddInternal(symbol: T)
      requires Valid()
      modifies this, matching
      ensures Valid()
      ensures word == old(word) + [symbol] && matching.Value() == Extended(old(matching.Value()), 1)
    {
      AddInternals([symbol]);
    }

    /** `add_call(symbol)`. */
    method AddCall(symbol: T)
      requires Valid()
      modifies this, matching
      ensures Valid()
      ensures word == old(word) + [symbol] && matching.Value() == CallsAdded(old(matching.Value()), 1)
    {
      AddCalls([symbol]);
    }

    /** `add_return(symbol)`. */
    method AddReturn(symbol: T)
      requires Valid()
      modifies this, matching
      ensures Valid()
      ensures word == old(word) + [symbol] && matching.Value() == ReturnsAdded(old(matching.Value()), 1)
    {
      AddReturns([symbol]);
    }

    /** `self[i]`: the symbol and the match at a position. */
    function GetItem(i: int): (r: Result<(T, Option<Match>)>)
      reads this, matching
      requires Valid()
      ensures r.Success? <==> 0 <= i < |word|
      ensures r.Success? ==> r.value == (word[i], ReportedMatch(matching.Value(), i).value)
      ensures !(-|word| <= i < |word|) ==> r.Failure? && r.error.IndexError?
      ensures -|word| <= i < 0 ==> r.Failure? && r.error.ValueError?
    {
      var n := |word|;
      if !(-n <= i < n) then Failure(IndexError("list index out of range"))
      else
        var q :- matching.GetMatch(i);
        Success((word[i], q))
    }

    /** `self[start:stop]`. */
    method Slice(start: Option<int>, stop: Option<int>) returns (r: Result<NestedWord<T>>)
      requires Valid()
      ensures r.Success? <==> SliceBounds(|word|, start, stop).Success?
      ensures r.Failure? ==> r.error == SliceBounds(|word|, start, stop).error
      ensures r.Success? ==>
        var (a, b) := SliceBounds(|word|, start, stop).value;
        fresh(r.value) && fresh(r.value.matching) && r.value.Valid() &&
        r.value.Value() == NW(word[a..b], Sliced(matching.Value(), a, b))
    {
      var sub := matching.Slice(start, stop);
      if sub.Failure? {
        return Failure(sub.error);
      }
      var (a, b) := SliceBounds(|word|, start, stop).value;
      var nw := new NestedWord.Of(word[a..b], sub.value);
      return Success(nw);
    }

    /** `__eq__` between two nested words: the same word with the same
        relation. */
    predicate Equals(other: NestedWord<T>): (r: bool)
      reads this, matching, other, other.matching
      ensures r <==> Value() == other.Value()
    {
      word == other.word && matching.Equals(other.matching)
    }

    /** `self + other`. */
    method Concat(other: NestedWord<T>) returns (r: Result<NestedWord<T>>)
      requires Valid() && other.Valid()
      ensures r.Success? <==> Concatenated(Value(), other.Value()).Success?
      ensures r.Success? ==> fresh(r.value) && fresh(r.value.matching) && r.value.Valid()
      ensures r.Success? ==> r.value.Value() == Concatenated(Value(), other.Value()).value
      ensures r.Failure? ==> r.error == Concatenated(Value(), other.Value()).error
    {
      var tags := ToTagged();
      var more := other.ToTagged();
      r := FromTaggedSequence(tags + more);
    }
  }

  /** The tags of a string: `"<"` and `">"` are tags, every other character a symbol. */
  function CharTags(s: string): (r: seq<Tag<char>>)
    ensures |r| == |s|
  {
    seq(|s|, i requires 0 <= i < |s| => if s[i] == '<' then Open else if s[i] == '>' then Close else Sym(s[i]))
  }

  /** The list `to_tagged` returns for a word of characters: `"<"` and `">"`
      for the tags, each symbol for itself. */
  function TagText(tags: seq<Tag<char>>): (s: string)
    ensures |s| == |tags|
    ensures forall i :: 0 <= i < |tags| ==> (tags[i].Open? ==> s[i] == '<') && (tags[i].Close? ==> s[i] == '>')
  {
    seq(|tags|, i requires 0 <= i < |tags| => match tags[i] case Open => '<' case Close => '>' case Sym(c) => c)
  }

  /** Every symbol of a tagged sequence is kept by `from_tagged_sequence`. */
  lemma {:induction false} SymbolsHold<T>(tags: seq<Tag<T>>, i: nat)
    requires i < |tags| && tags[i].Sym?
    ensures tags[i].symbol in Symbols(tags)
    decreases |tags|
  {
    var init := tags[..|tags| - 1];
    if i < |tags| - 1 {
      assert init[i] == tags[i];
      SymbolsHold(init, i);
    }
  }

  /** A word of characters other than `"<"` and `">"` survives `to_tagged`
      followed by `from_tagged_sequence`. */
  lemma TaggedTextRoundTrip(w: NW<char>)
    requires WellFormed(w) && '<' !in w.word && '>' !in w.word
    ensures FromTagged(CharTags(TagText(Tagged(w)))) == Success(w)
  {
    var tags := Tagged(w);
    SymbolsTagged(w.word, w.m, |w.word|);
    assert w.word[..|w.word|] == w.word;
    forall i | 0 <= i < |tags| && tags[i].Sym?
      ensures tags[i].symbol != '<' && tags[i].symbol != '>'
    {
      SymbolsHold(tags, i);
    }
    assert CharTags(TagText(tags)) == tags;
    TaggedRoundTrip(w);
  }

  /** A symbol equal to `"<"` is read back as a tag: the word of one
      internal position labelled `"<"` does not survive the round trip. */
  lemma MarkerSymbolBreaksRoundTrip()
    ensures var w := NW(['<'], Empty(1));
      WellFormed(w) && Tagged(w) == [Sym('<')] &&
      CharTags(TagText(Tagged(w))) == [Open] &&
      FromTagged(CharTags(TagText(Tagged(w)))) != Success(w)
  {
    var w := NW(['<'], Empty(1));
    assert InternalAt(w.m, 0);
    assert Tagged(w) == TaggedPrefix(w.word, w.m, 0) + Chunk(w.word, w.m, 0);
    assert Chunk(w.word, w.m, 0) == [Sym('<')];
    assert Symbols<char>([Open]) == [] by { SymbolsSingle<char>(Open); }
  }

  /** `from_tagged_word`. */
  method FromTaggedWord(s: string) returns (r: Result<NestedWord<char>>)
    ensures r.Success? <==> FromTagged(CharTags(s)).Success?
    ensures r.Success? ==> fresh(r.value) && r.value.Valid() && r.value.Value() == FromTagged(CharTags(s)).value
  {
    r := NestedWord<char>.FromTaggedSequence(CharTags(s));
  }
}
