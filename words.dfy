/** Immutable words: finite sequences of symbols read by the acceptors
    (src/pbsf/utils/words/word.py). */
module Words {
  import opened Wrappers

  /** A word is its tuple of symbols. */
  datatype Word<T> = Word(symbols: seq<T>)

  /** Python's `Word(sequence)`: no sequence gives the empty word. */
  function MakeWord<T>(sequence: Option<seq<T>>): (w: Word<T>)
    ensures sequence.None? ==> w.symbols == []
    ensures sequence.Some? ==> w.symbols == sequence.value
  {
    Word(if sequence.Some? then sequence.value else [])
  }

  /** Any Python object a word may be compared with. */
  datatype Value<T> = WordValue(word: Word<T>) | OtherValue

  /** `Word.__eq__`: false for an object that is not a word,
      symbol-wise equality otherwise. */
  predicate Equals<T(==)>(w: Word<T>, other: Value<T>)
  {
    match other
    case OtherValue => false
    case WordValue(v) => w.symbols == v.symbols
  }

  lemma EqualsMeansSameSymbols<T>(w: Word<T>, other: Value<T>)
    ensures Equals(w, other) <==> other.WordValue? && other.word == w
    ensures Equals(w, WordValue(w))
  {
  }

  /** Python's normalisation of a slice bound for a sequence of length n
      (step 1): a negative bound counts from the end, then both are clamped
      into [0, n]. */
  function SliceBound(bound: Option<int>, default: nat, n: nat): (b: nat)
    requires default <= n
    ensures b <= n
    ensures bound.None? ==> b == default
    ensures bound.Some? && 0 <= bound.value <= n ==> b == bound.value
    ensures bound.Some? && bound.value < 0 <= bound.value + n ==> b == bound.value + n
    ensures bound.Some? && bound.value + n < 0 ==> b == 0
    ensures bound.Some? && bound.value > n ==> b == n
  {
    match bound
    case None => default
    case Some(k) =>
      if k < 0 then (if k + n < 0 then 0 else k + n)
      else if k > n then n
      else k
  }

  /** `Word.__getitem__` with an int key: a negative index counts from the
      end; an index outside [-len, len) raises IndexError. */
  function At<T>(w: Word<T>, key: int): (r: Result<T>)
    ensures r.Success? <==> -|w.symbols| <= key < |w.symbols|
    ensures 0 <= key < |w.symbols| ==> r == Success(w.symbols[key])
    ensures -|w.symbols| <= key < 0 ==> r == Success(w.symbols[key + |w.symbols|])
    ensures r.Failure? ==> r.error.IndexError?
  {
    var n := |w.symbols|;
    if 0 <= key < n then Success(w.symbols[key])
    else if -n <= key < 0 then Success(w.symbols[key + n])
    else Failure(IndexError("tuple index out of range"))
  }

  /** `Word.__getitem__` with a slice key `start:stop` (step 1). */
  function Slice<T>(w: Word<T>, start: Option<int>, stop: Option<int>): (r: Word<T>)
    ensures |r.symbols| <= |w.symbols|
    ensures var lo, hi := SliceBound(start, 0, |w.symbols|), SliceBound(stop, |w.symbols|, |w.symbols|);
      |r.symbols| == if lo < hi then hi - lo else 0
    ensures forall k :: 0 <= k < |r.symbols| ==>
      SliceBound(start, 0, |w.symbols|) + k < |w.symbols| &&
      r.symbols[k] == w.symbols[SliceBound(start, 0, |w.symbols|) + k]
  {
    var n := |w.symbols|;
    var lo, hi := SliceBound(start, 0, n), SliceBound(stop, n, n);
    Word(if lo < hi then w.symbols[lo..hi] else [])
  }

  /** `Word.__add__`. */
  function Concat<T>(a: Word<T>, b: Word<T>): (r: Word<T>)
    ensures |r.symbols| == |a.symbols| + |b.symbols|
    ensures r.symbols[..|a.symbols|] == a.symbols && r.symbols[|a.symbols|..] == b.symbols
  {
    Word(a.symbols + b.symbols)
  }

  /** `Word.__mul__`: the word repeated n times; empty when n <= 0. */
  function Repeat<T>(w: Word<T>, n: int): (r: Word<T>)
    decreases if n < 0 then 0 else n
    ensures |r.symbols| == |w.symbols| * (if n < 0 then 0 else n)
  {
    if n <= 0 then Word([]) else Concat(w, Repeat(w, n - 1))
  }

  /** Symbol j of copy i of the repeated word is symbol j of the word. */
  lemma {:induction false} RepeatAt<T>(w: Word<T>, n: nat, i: nat, j: nat)
    requires i < n && j < |w.symbols|
    ensures i * |w.symbols| + j < |Repeat(w, n).symbols|
    ensures Repeat(w, n).symbols[i * |w.symbols| + j] == w.symbols[j]
  {
    var m := |w.symbols|;
    if i > 0 {
      RepeatAt(w, n - 1, i - 1, j);
      assert (i - 1) * m + j + m == i * m + j;
    }
  }

  /** The empty word is the identity of concatenation, which is associative. */
  lemma ConcatMonoid<T>(a: Word<T>, b: Word<T>, c: Word<T>)
    ensures Concat(a, Word([])) == a && Concat(Word([]), a) == a
    ensures Concat(Concat(a, b), c) == Concat(a, Concat(b, c))
  {
    assert a.symbols + [] == a.symbols;
    assert (a.symbols + b.symbols) + c.symbols == a.symbols + (b.symbols + c.symbols);
  }

  /** Repetition distributes over addition of non-negative counts. */
  lemma {:induction false} RepeatAdd<T>(w: Word<T>, m: nat, n: nat)
    ensures Repeat(w, m + n) == Concat(Repeat(w, m), Repeat(w, n))
  {
    if m == 0 {
      assert Repeat(w, m).symbols == [];
      assert [] + Repeat(w, n).symbols == Repeat(w, n).symbols;
    } else {
      RepeatAdd(w, m - 1, n);
      assert Repeat(w, m + n) == Concat(w, Repeat(w, m - 1 + n));
      assert Repeat(w, m) == Concat(w, Repeat(w, m - 1));
      ConcatMonoid(w, Repeat(w, m - 1), Repeat(w, n));
    }
  }

  /** A negative index reaches the same symbol as its non-negative twin. */
  lemma AtNegative<T>(w: Word<T>, k: nat)
    requires k < |w.symbols|
    ensures At(w, k - |w.symbols|) == At(w, k) == Success(w.symbols[k])
  {
  }

  /** Slicing with in-range bounds is the subsequence between them. */
  lemma SliceInRange<T>(w: Word<T>, i: nat, j: nat)
    requires i <= j <= |w.symbols|
    ensures Slice(w, Some(i), Some(j)).symbols == w.symbols[i..j]
    ensures Slice(w, None, None) == w
  {
  }

  /** `w[:k] + w[k:] == w` for every int k, including negative ones and
      ones beyond the end. */
  lemma SliceSplit<T>(w: Word<T>, k: int)
    ensures Concat(Slice(w, None, Some(k)), Slice(w, Some(k), None)) == w
  {
    var n := |w.symbols|;
    var b := SliceBound(Some(k), n, n);
    assert SliceBound(Some(k), 0, n) == b;
    assert Slice(w, None, Some(k)).symbols == w.symbols[..b];
    assert Slice(w, Some(k), None).symbols == w.symbols[b..];
    assert w.symbols[..b] + w.symbols[b..] == w.symbols;
  }
}
