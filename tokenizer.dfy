/**
 * The single-character tokenizer `split(const char *str, char c = ' ')`.
 *
 * The C routine walks a NUL-terminated character buffer and cuts it at every
 * occurrence of the separator. Runs of separators are not merged: two
 * adjacent separators give an empty token, and an empty string gives one
 * empty token. Because it reads a C string, everything from the first NUL
 * character on is invisible to it.
 */
module Tokenizer {

  const NUL: char := '\0'

  /** Position of the first `c` in `s`, or `|s|` when `s` has none. */
  function IndexOf(s: string, c: char): (i: nat)
    ensures i <= |s|
    ensures i < |s| ==> s[i] == c
    ensures forall k :: 0 <= k < i ==> s[k] != c
  {
    if s == [] then 0
    else if s[0] == c then 0
    else 1 + IndexOf(s[1..], c)
  }

  /** Number of occurrences of `c` in `s`. */
  function Count(s: string, c: char): nat
  {
    if s == [] then 0 else (if s[0] == c then 1 else 0) + Count(s[1..], c)
  }

  /** The characters a `const char *` obtained from `s` (through `c_str()`) exposes: those before the first NUL. */
  function CString(s: string): (t: string)
    ensures |t| <= |s| && t == s[..|t|]
    ensures NUL !in t
    ensures |t| < |s| ==> s[|t|] == NUL
  {
    s[..IndexOf(s, NUL)]
  }

  /** Cutting a NUL-free string at every `c`, one token per separator-delimited field. */
  function SplitOn(s: string, c: char): (tokens: seq<string>)
    ensures |tokens| >= 1
    decreases |s|
  {
    var i := IndexOf(s, c);
    if i == |s| then [s] else [s[..i]] + SplitOn(s[i + 1..], c)
  }

  /** What `split(s.c_str(), c)` returns. */
  function Tokens(s: string, c: char): seq<string>
  {
    SplitOn(CString(s), c)
  }

  /** The inverse of splitting: the tokens written one after another with `c` between neighbours. */
  function Join(tokens: seq<string>, c: char): string
  {
    if |tokens| == 0 then []
    else if |tokens| == 1 then tokens[0]
    else tokens[0] + [c] + Join(tokens[1..], c)
  }

  lemma {:induction false} IndexOfUnique(s: string, c: char, m: nat)
    requires m <= |s|
    requires forall k :: 0 <= k < m ==> s[k] != c
    requires m < |s| ==> s[m] == c
    ensures IndexOf(s, c) == m
  {
    if s != [] && s[0] != c {
      IndexOfUnique(s[1..], c, m - 1);
    }
  }

  lemma {:induction false} CountAppend(a: string, b: string, c: char)
    ensures Count(a + b, c) == Count(a, c) + Count(b, c)
  {
    if a == [] {
      assert a + b == b;
    } else {
      assert (a + b)[1..] == a[1..] + b;
      CountAppend(a[1..], b, c);
    }
  }

  lemma {:induction false} CountAbsent(s: string, c: char)
    requires forall k :: 0 <= k < |s| ==> s[k] != c
    ensures Count(s, c) == 0
  {
    if s != [] {
      CountAbsent(s[1..], c);
    }
  }

  /** The splitting step taken at the first separator of `s`. */
  lemma SplitAt(s: string, c: char)
    ensures IndexOf(s, c) < |s| ==>
      s == s[..IndexOf(s, c)] + [c] + s[IndexOf(s, c) + 1..]
  {
  }

  /** One round of the tokenizer: the token up to position `j`, then the rest after the separator there. */
  lemma SplitOnStep(t: string, c: char, begin: nat, j: nat)
    requires begin <= j <= |t|
    requires forall k :: begin <= k < j ==> t[k] != c
    requires j < |t| ==> t[j] == c
    ensures j == |t| ==> SplitOn(t[begin..], c) == [t[begin..j]]
    ensures j < |t| ==> SplitOn(t[begin..], c) == [t[begin..j]] + SplitOn(t[j + 1..], c)
  {
    var u := t[begin..];
    assert forall k :: 0 <= k < j - begin ==> u[k] == t[begin + k];
    IndexOfUnique(u, c, j - begin);
    assert u[..j - begin] == t[begin..j];
    if j < |t| {
      assert u[j - begin + 1..] == t[j + 1..];
    } else {
      assert t[begin..j] == u;
    }
  }

  /**
   * Progress of `split` on `s`: the tokens `done` emitted so far, followed
   * by the tokens of the C string from position `i` on, are all its tokens.
   */
  ghost predicate SplitSoFar(s: string, c: char, i: nat, done: seq<string>)
  {
    i <= |CString(s)| && done + SplitOn(CString(s)[i..], c) == Tokens(s, c)
  }

  /**
   * One round of the tokenizer read on the C string: having emitted `done`
   * and scanned from `begin` to the stop position `i`, emitting the token
   * `s[begin..i]` either finishes the split (at the terminator) or leaves
   * the tokens after position `i + 1` to go.
   */
  lemma ScanRound(s: string, c: char, begin: nat, i: nat, done: seq<string>)
    requires SplitSoFar(s, c, begin, done)
    requires begin <= i <= |CString(s)|
    requires forall k :: begin <= k < i ==> s[k] != c
    requires i < |s| && s[i] != NUL ==> s[i] == c
    ensures i < |s| && s[i] != NUL ==> SplitSoFar(s, c, i + 1, done + [s[begin..i]])
    ensures !(i < |s| && s[i] != NUL) ==> done + [s[begin..i]] == Tokens(s, c)
  {
    var t := CString(s);
    assert forall k :: begin <= k < i ==> t[k] == s[k];
    assert i < |t| ==> t[i] == s[i] != NUL;
    assert s[begin..i] == t[begin..i];
    SplitOnStep(t, c, begin, i);
    if i < |s| && s[i] != NUL {
      var rest := SplitOn(t[i + 1..], c);
      assert (done + [s[begin..i]]) + rest == done + ([s[begin..i]] + rest);
    }
  }

  /** Token-count law: one token more than there are separators. */
  lemma {:induction false} SplitOnCount(s: string, c: char)
    ensures |SplitOn(s, c)| == Count(s, c) + 1
    decreases |s|
  {
    var i := IndexOf(s, c);
    if i == |s| {
      CountAbsent(s, c);
    } else {
      SplitAt(s, c);
      CountAppend(s[..i] + [c], s[i + 1..], c);
      CountAppend(s[..i], [c], c);
      CountAbsent(s[..i], c);
      SplitOnCount(s[i + 1..], c);
    }
  }

  /** No token contains the separator. */
  lemma {:induction false} SplitOnSeparatorFree(s: string, c: char)
    ensures forall t :: t in SplitOn(s, c) ==> c !in t
    decreases |s|
  {
    var i := IndexOf(s, c);
    if i < |s| {
      SplitOnSeparatorFree(s[i + 1..], c);
    }
  }

  /** Every token is a NUL-free string when the input is. */
  lemma {:induction false} SplitOnNulFree(s: string, c: char)
    requires NUL !in s
    ensures forall t :: t in SplitOn(s, c) ==> NUL !in t
    decreases |s|
  {
    var i := IndexOf(s, c);
    if i < |s| {
      assert forall x :: x in s[i + 1..] ==> x in s;
      SplitOnNulFree(s[i + 1..], c);
    }
  }

  /** Round trip: joining the tokens with the separator gives the input back. */
  lemma {:induction false} JoinSplitOn(s: string, c: char)
    ensures Join(SplitOn(s, c), c) == s
    decreases |s|
  {
    var i := IndexOf(s, c);
    if i < |s| {
      var rest := SplitOn(s[i + 1..], c);
      JoinSplitOn(s[i + 1..], c);
      assert ([s[..i]] + rest)[1..] == rest;
      SplitAt(s, c);
    }
  }

  /** Splitting a string that starts with a separator-free field and a separator. */
  lemma SplitOnField(t0: string, c: char, rest: string)
    requires c !in t0
    ensures SplitOn(t0 + [c] + rest, c) == [t0] + SplitOn(rest, c)
  {
    var s := t0 + [c] + rest;
    assert forall k :: 0 <= k < |t0| ==> s[k] == t0[k] != c;
    IndexOfUnique(s, c, |t0|);
    assert s[..|t0|] == t0;
    assert s[|t0| + 1..] == rest;
  }

  /** Round trip the other way: separator-free tokens survive joining and splitting. */
  lemma {:induction false} SplitOnJoin(tokens: seq<string>, c: char)
    requires |tokens| >= 1
    requires forall i :: 0 <= i < |tokens| ==> c !in tokens[i]
    ensures SplitOn(Join(tokens, c), c) == tokens
  {
    var t0 := tokens[0];
    if |tokens| == 1 {
      assert forall k :: 0 <= k < |t0| ==> t0[k] != c;
      IndexOfUnique(t0, c, |t0|);
    } else {
      var rest := Join(tokens[1..], c);
      assert Join(tokens, c) == t0 + [c] + rest;
      SplitOnField(t0, c, rest);
      SplitOnJoin(tokens[1..], c);
      assert tokens == [t0] + tokens[1..];
    }
  }

  /** Without a NUL the C string is the whole string. */
  lemma CStringWhole(s: string)
    requires NUL !in s
    ensures CString(s) == s
  {
    IndexOfUnique(s, NUL, |s|);
  }

  /** The law for `split` itself: on a NUL-free input it returns one token more than the separators it meets. */
  lemma TokensCount(s: string, c: char)
    requires NUL !in s
    ensures |Tokens(s, c)| == Count(s, c) + 1
    ensures forall t :: t in Tokens(s, c) ==> c !in t
    ensures Join(Tokens(s, c), c) == s
  {
    CStringWhole(s);
    SplitOnCount(s, c);
    SplitOnSeparatorFree(s, c);
    JoinSplitOn(s, c);
  }

  /**
   * The inner loop of `split`: from `begin`, advance over characters that
   * are neither the separator nor the terminator. The end of `s`, like a
   * NUL, terminates the C string.
   */
  method ScanToken(s: string, c: char, begin: nat) returns (i: nat)
    requires begin <= |CString(s)|
    ensures begin <= i <= |CString(s)|
    ensures forall k :: begin <= k < i ==> s[k] != c
    ensures i < |s| && s[i] != NUL ==> s[i] == c
  {
    i := begin;
    while i < |s| && s[i] != c && s[i] != NUL
      invariant begin <= i <= |CString(s)|
      invariant forall k :: begin <= k < i ==> s[k] != c
    {
      i := i + 1;
    }
  }

  /**
   * The imperative tokenizer: an outer loop that emits one token per round,
   * and stops after the token that ends at the terminator.
   */
  method Split(s: string, c: char) returns (result: seq<string>)
    ensures result == Tokens(s, c)
    ensures |result| >= 1
  {
    result := [];
    var i := 0;
    assert CString(s)[0..] == CString(s);
    while true
      invariant SplitSoFar(s, c, i, result)
      decreases |s| - i
    {
      var begin := i;
      i := ScanToken(s, c, begin);
      ScanRound(s, c, begin, i, result);
      result := result + [s[begin..i]];
      if i == |s| || s[i] == NUL {
        return;
      }
      i := i + 1;
    }
  }
}
