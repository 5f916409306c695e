/** The parts of Python's `str` that the automaton descriptions are parsed
    with: `strip()`, `split('\n')` and `split()`. */
module Text {
  /** `str.isspace()` for one character. */
  predicate IsSpace(c: char)
  {
    var n := c as int;
    (9 <= n <= 13) || (28 <= n <= 32) || n == 0x85 || n == 0xA0 || n == 0x1680 ||
    (0x2000 <= n <= 0x200A) || n == 0x2028 || n == 0x2029 || n == 0x202F ||
    n == 0x205F || n == 0x3000
  }

  /** Length of the longest prefix of s whose characters are (or, with
      `want` false, are not) whitespace. */
  function SpanSpace(s: string, want: bool): (n: nat)
    ensures n <= |s|
    ensures forall i :: 0 <= i < n ==> IsSpace(s[i]) == want
    ensures n < |s| ==> IsSpace(s[n]) != want
  {
    if s == [] || IsSpace(s[0]) != want then 0 else 1 + SpanSpace(s[1..], want)
  }

  /** Length of the longest whitespace suffix of s. */
  function SpanSpaceBack(s: string): (n: nat)
    ensures n <= |s|
    ensures forall i :: |s| - n <= i < |s| ==> IsSpace(s[i])
    ensures n < |s| ==> !IsSpace(s[|s| - n - 1])
  {
    if s == [] || !IsSpace(s[|s| - 1]) then 0 else 1 + SpanSpaceBack(s[..|s| - 1])
  }

  /** `str.strip()`: s with its leading and trailing whitespace removed. */
  function Strip(s: string): (r: string)
    ensures r == [] || (!IsSpace(r[0]) && !IsSpace(r[|r| - 1]))
    ensures exists i, j :: (0 <= i <= j <= |s| && r == s[i..j] &&
      (forall k :: 0 <= k < i ==> IsSpace(s[k])) &&
      (forall k :: j <= k < |s| ==> IsSpace(s[k])))
  {
    var a := SpanSpace(s, true);
    var t := s[a..];
    var b := SpanSpaceBack(t);
    assert t[..|t| - b] == s[a..|s| - b];
    t[..|t| - b]
  }

  /** Length of the longest prefix of s that does not contain `sep`. */
  function SpanNot(s: string, sep: char): (n: nat)
    ensures n <= |s|
    ensures forall i :: 0 <= i < n ==> s[i] != sep
    ensures n < |s| ==> s[n] == sep
  {
    if s == [] || s[0] == sep then 0 else 1 + SpanNot(s[1..], sep)
  }

  /** `s.split(sep)`: the pieces between occurrences of `sep`; never empty. */
  function SplitOn(s: string, sep: char): (pieces: seq<string>)
    ensures |pieces| >= 1
    ensures forall k :: 0 <= k < |pieces| ==> sep !in pieces[k]
    decreases |s|
  {
    var n := SpanNot(s, sep);
    if n == |s| then [s] else [s[..n]] + SplitOn(s[n + 1..], sep)
  }

  /** `sep.join(pieces)`. */
  function Join(pieces: seq<string>, sep: char): string
    requires |pieces| >= 1
  {
    if |pieces| == 1 then pieces[0] else pieces[0] + [sep] + Join(pieces[1..], sep)
  }

  /** Splitting on a separator and joining with it again gives back the string. */
  lemma {:induction false} SplitJoin(s: string, sep: char)
    ensures Join(SplitOn(s, sep), sep) == s
    decreases |s|
  {
    var n := SpanNot(s, sep);
    if n < |s| {
      var rest := s[n + 1..];
      var pieces := SplitOn(s, sep);
      assert pieces == [s[..n]] + SplitOn(rest, sep);
      assert pieces[1..] == SplitOn(rest, sep);
      SplitJoin(rest, sep);
      assert Join(pieces, sep) == s[..n] + [sep] + rest;
      assert s == s[..n] + [sep] + rest;
    }
  }

  /** `s.split()`: the maximal runs of non-whitespace characters. */
  function Tokens(s: string): (words: seq<string>)
    ensures forall k :: 0 <= k < |words| ==>
      |words[k]| >= 1 && forall i :: 0 <= i < |words[k]| ==> !IsSpace(words[k][i])
    decreases |s|
  {
    var a := SpanSpace(s, true);
    if a == |s| then []
    else
      var t := s[a..];
      var b := SpanSpace(t, false);
      [t[..b]] + Tokens(t[b..])
  }

  /** The characters of s that are not whitespace, in order. */
  function NonSpace(s: string): string
  {
    if s == [] then [] else (if IsSpace(s[0]) then [] else [s[0]]) + NonSpace(s[1..])
  }

  function Flatten(words: seq<string>): string
  {
    if words == [] then [] else words[0] + Flatten(words[1..])
  }

  lemma {:induction false} NonSpaceConcat(a: string, b: string)
    ensures NonSpace(a + b) == NonSpace(a) + NonSpace(b)
  {
    if a != [] {
      assert (a + b)[1..] == a[1..] + b;
      NonSpaceConcat(a[1..], b);
    } else {
      assert a + b == b;
    }
  }

  lemma {:induction false} NonSpaceOf(s: string, want: bool)
    requires forall i :: 0 <= i < |s| ==> IsSpace(s[i]) == want
    ensures NonSpace(s) == if want then [] else s
  {
    if s != [] {
      NonSpaceOf(s[1..], want);
    }
  }

  /** `split()` loses exactly the whitespace: the words put together are the
      non-whitespace characters of s. */
  lemma {:induction false} TokensCoverNonSpace(s: string)
    ensures Flatten(Tokens(s)) == NonSpace(s)
    decreases |s|
  {
    var a := SpanSpace(s, true);
    assert s == s[..a] + s[a..];
    NonSpaceConcat(s[..a], s[a..]);
    NonSpaceOf(s[..a], true);
    var t := s[a..];
    assert NonSpace(s) == NonSpace(t);
    if a < |s| {
      var b := SpanSpace(t, false);
      var w, u := t[..b], t[b..];
      assert t == w + u;
      NonSpaceConcat(w, u);
      NonSpaceOf(w, false);
      TokensCoverNonSpace(u);
      assert Tokens(s) == [w] + Tokens(u);
      assert Flatten([w] + Tokens(u)) == w + Flatten(Tokens(u)) by {
        assert ([w] + Tokens(u))[1..] == Tokens(u);
      }
    } else {
      assert t == [];
    }
  }
}
