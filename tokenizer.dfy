/**
  The CSV reader's tokenizer functor: a line is split on every occurrence of
  the separator character, empty fields are kept, and the last field runs to
  the end of the line, so every line yields at least one token.
*/
module Tokenizer {
  import opened Wrappers

  /** `std::string::find(c, from)`: the first position at or after `from` holding `c`, or npos. */
  function Find(s: string, c: char, from: nat): (r: Option<nat>)
    ensures r.Some? ==> from <= r.value < |s| && s[r.value] == c
    decreases |s| - from
  {
    if from >= |s| then None
    else if s[from] == c then Some(from)
    else Find(s, c, from + 1)
  }

  /** Every position the search passes over does not hold `c`. */
  lemma {:induction false} FindSkips(s: string, c: char, from: nat)
    ensures var r := Find(s, c, from);
            forall i :: from <= i < |s| && (r.None? || i < r.value) ==> s[i] != c
    decreases |s| - from
  {
    if from < |s| && s[from] != c {
      FindSkips(s, c, from + 1);
    }
  }

  /** The tokens of a line, split at every separator; there is always at least one. */
  function Split(s: string, sep: char): (tokens: seq<string>)
    ensures |tokens| >= 1
  {
    SplitFrom(s, sep, 0)
  }

  /** The tokens of the part of a line that starts at position `from`. */
  function SplitFrom(s: string, sep: char, from: nat): (tokens: seq<string>)
    requires from <= |s|
    ensures |tokens| >= 1
    decreases |s| - from
  {
    match Find(s, sep, from)
    case None => [s[from..]]
    case Some(p) => [s[from..p]] + SplitFrom(s, sep, p + 1)
  }

  /** The tokens written back out with the separator between each pair. */
  function Join(tokens: seq<string>, sep: char): string {
    if tokens == [] then []
    else if |tokens| == 1 then tokens[0]
    else tokens[0] + [sep] + Join(tokens[1..], sep)
  }

  /** `Tokenizer::operator()`: clears the output, then appends each token in turn. */
  method Tokenize(str: string, sep: char) returns (tokens: seq<string>)
    ensures tokens == Split(str, sep)
  {
    var initPos: nat := 0;
    tokens := [];
    var found := Find(str, sep, initPos);
    while found.Some?
      invariant initPos <= |str|
      invariant found == Find(str, sep, initPos)
      invariant tokens + SplitFrom(str, sep, initPos) == Split(str, sep)
      decreases |str| - initPos
    {
      var pos := found.value;
      tokens := tokens + [str[initPos..pos]];
      initPos := pos + 1;
      found := Find(str, sep, initPos);
    }
    tokens := tokens + [str[initPos..]];
  }

  /** Searching `a + b` past the end of `a` is searching `b`, shifted by `|a|`. */
  lemma {:induction false} FindAfterPrefix(a: string, b: string, c: char, k: nat)
    requires k <= |b|
    ensures Find(a + b, c, |a| + k) == match Find(b, c, k)
                                        case None => None
                                        case Some(p) => Some(|a| + p)
    decreases |b| - k
  {
    if k < |b| {
      assert (a + b)[|a| + k] == b[k];
      if b[k] != c {
        FindAfterPrefix(a, b, c, k + 1);
      }
    }
  }

  /** Splitting `a + b` past the end of `a` is splitting `b`. */
  lemma {:induction false} SplitAfterPrefix(a: string, b: string, sep: char, k: nat)
    requires k <= |b|
    ensures SplitFrom(a + b, sep, |a| + k) == SplitFrom(b, sep, k)
    decreases |b| - k
  {
    var s := a + b;
    FindAfterPrefix(a, b, sep, k);
    match Find(b, sep, k)
    case None =>
      assert s[|a| + k..] == b[k..];
      assert SplitFrom(s, sep, |a| + k) == [s[|a| + k..]];
    case Some(p) =>
      assert s[|a| + k..|a| + p] == b[k..p];
      SplitAfterPrefix(a, b, sep, p + 1);
      assert SplitFrom(s, sep, |a| + k) == [s[|a| + k..|a| + p]] + SplitFrom(s, sep, |a| + (p + 1));
  }

  /** A line has exactly one token more than it has separators, so "" gives one token. */
  lemma TokenCount(s: string, sep: char)
    ensures |Split(s, sep)| == multiset(s)[sep] + 1
  {
    TokenCountFrom(s, sep, 0);
    assert s[0..] == s;
  }

  lemma {:induction false} TokenCountFrom(s: string, sep: char, from: nat)
    requires from <= |s|
    ensures |SplitFrom(s, sep, from)| == multiset(s[from..])[sep] + 1
    decreases |s| - from
  {
    FindSkips(s, sep, from);
    match Find(s, sep, from)
    case None =>
      SeparatorAbsent(s, sep, from, |s|);
    case Some(p) =>
      SeparatorCountAt(s, sep, from, p);
      TokenCountFrom(s, sep, p + 1);
  }

  lemma SeparatorCountAt(s: string, sep: char, from: nat, p: nat)
    requires from <= p < |s| && s[p] == sep
    requires forall i :: from <= i < p ==> s[i] != sep
    ensures multiset(s[from..])[sep] == multiset(s[p + 1..])[sep] + 1
  {
    var a, b := s[from..p], s[p + 1..];
    assert s[from..] == a + [sep] + b;
    assert multiset(s[from..]) == multiset(a) + multiset{sep} + multiset(b);
    SeparatorAbsent(s, sep, from, p);
  }

  lemma SeparatorAbsent(s: string, sep: char, from: nat, to: nat)
    requires from <= to <= |s|
    requires forall i :: from <= i < to ==> s[i] != sep
    ensures multiset(s[from..to])[sep] == 0
  {
    assert sep !in s[from..to];
  }

  /** No token contains the separator. */
  lemma TokensExcludeSeparator(s: string, sep: char)
    ensures forall i :: 0 <= i < |Split(s, sep)| ==> sep !in Split(s, sep)[i]
  {
    TokensExcludeSeparatorFrom(s, sep, 0);
  }

  lemma {:induction false} TokensExcludeSeparatorFrom(s: string, sep: char, from: nat)
    requires from <= |s|
    ensures forall i :: 0 <= i < |SplitFrom(s, sep, from)| ==> sep !in SplitFrom(s, sep, from)[i]
    decreases |s| - from
  {
    FindSkips(s, sep, from);
    match Find(s, sep, from)
    case None =>
    case Some(p) =>
      TokensExcludeSeparatorFrom(s, sep, p + 1);
  }

  /** Joining the tokens with the separator gives back the line. */
  lemma JoinSplit(s: string, sep: char)
    ensures Join(Split(s, sep), sep) == s
  {
    JoinSplitFrom(s, sep, 0);
    assert s[0..] == s;
  }

  lemma {:induction false} JoinSplitFrom(s: string, sep: char, from: nat)
    requires from <= |s|
    ensures Join(SplitFrom(s, sep, from), sep) == s[from..]
    decreases |s| - from
  {
    match Find(s, sep, from)
    case None =>
    case Some(p) =>
      JoinSplitFrom(s, sep, p + 1);
      var tokens := SplitFrom(s, sep, from);
      assert tokens[1..] == SplitFrom(s, sep, p + 1);
      assert s[from..] == s[from..p] + [sep] + s[p + 1..];
  }

  /** The search stops at the first `c` from `from` on. */
  lemma {:induction false} FindAt(s: string, c: char, from: nat, p: nat)
    requires from <= p < |s| && s[p] == c
    requires forall i :: from <= i < p ==> s[i] != c
    ensures Find(s, c, from) == Some(p)
    decreases p - from
  {
    if from < p {
      FindAt(s, c, from + 1, p);
    }
  }

  /** The search fails when no position from `from` on holds `c`. */
  lemma {:induction false} FindNone(s: string, c: char, from: nat)
    requires forall i :: from <= i < |s| ==> s[i] != c
    ensures Find(s, c, from) == None
    decreases |s| - from
  {
    if from < |s| {
      FindNone(s, c, from + 1);
    }
  }

  /** Conversely, any non-empty list of separator-free fields is what its join splits into. */
  lemma {:induction false} SplitJoin(tokens: seq<string>, sep: char)
    requires |tokens| >= 1
    requires forall i :: 0 <= i < |tokens| ==> sep !in tokens[i]
    ensures Split(Join(tokens, sep), sep) == tokens
  {
    var s := Join(tokens, sep);
    var t0 := tokens[0];
    assert sep !in t0;
    if |tokens| == 1 {
      assert s == t0;
      FindNone(s, sep, 0);
      assert s[0..] == s;
    } else {
      var rest := Join(tokens[1..], sep);
      assert s == (t0 + [sep]) + rest;
      forall i | 0 <= i < |t0| ensures s[i] != sep {
        assert s[i] == t0[i];
      }
      FindAt(s, sep, 0, |t0|);
      assert s[0..|t0|] == t0;
      assert Split(s, sep) == [t0] + SplitFrom(s, sep, |t0| + 1);
      SplitAfterPrefix(t0 + [sep], rest, sep, 0);
      assert forall i :: 0 <= i < |tokens| - 1 ==> tokens[1..][i] == tokens[i + 1];
      SplitJoin(tokens[1..], sep);
      assert tokens == [t0] + tokens[1..];
    }
  }

  lemma EmptyLineHasOneToken()
    ensures Split("", ';') == [""]
  {
  }

  /** Consecutive separators enclose an empty field. */
  lemma EmptyFieldKept()
    ensures Split("a;;b", ';') == ["a", "", "b"]
  {
    var s := "a;;b";
    assert Find(s, ';', 3) == None;
    assert SplitFrom(s, ';', 3) == ["b"];
    assert Find(s, ';', 2) == Some(2);
    assert s[2..2] == "";
    assert SplitFrom(s, ';', 2) == [s[2..2]] + SplitFrom(s, ';', 3);
    assert Find(s, ';', 0) == Some(1);
    assert s[0..1] == "a";
  }

  /** A trailing separator yields a final empty field. */
  lemma TrailingSeparatorKept()
    ensures Split("a;b;", ';') == ["a", "b", ""]
  {
    var s := "a;b;";
    assert Find(s, ';', 4) == None;
    assert SplitFrom(s, ';', 4) == [""];
    assert Find(s, ';', 2) == Some(3);
    assert s[2..3] == "b";
    assert SplitFrom(s, ';', 2) == ["b"] + [""];
    assert Find(s, ';', 0) == Some(1);
    assert s[0..1] == "a";
  }
}
