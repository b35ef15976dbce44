/**
  The Java-like properties reader. Each line gives at most one key/value
  pair: the key is the line's non-white-space characters before the first
  separator, the value the rest of the line after it with the white space at
  both ends removed. The pairs are kept in a `std::multimap`, modelled as a
  sequence sorted by key in which each insertion goes after the pairs with an
  equal key.
*/
module Properties {
  import opened Wrappers
  import opened LenientParse
  import opened StringOrder
  import Tokenizer

  type Entry = (string, string)

  /** What one line contributes. `Undefined` marks a line on which the source reads outside the line. */
  datatype LineParse = Skip | Property(key: string, value: string) | Undefined

  /** The out_of_range error of `value` for a key without a value. */
  datatype NotFound = NotFound(message: string)

  // ---------------------------------------------------------------------------
  // One line

  /**
    Seven-bit text. The source keeps bytes that a signed `char` holds as
    negative in the key but skips them while trimming the value; the model
    covers ASCII lines only.
  */
  predicate IsAscii(s: string) {
    forall i :: 0 <= i < |s| ==> (s[i] as int) < 128
  }

  /** The characters of `s` that are not white space, in order. */
  function NonSpace(s: string): (r: string)
    ensures |r| <= |s|
    ensures forall i :: 0 <= i < |r| ==> !IsSpace(r[i])
  {
    if s == [] then []
    else
      var last := s[|s| - 1];
      NonSpace(s[..|s| - 1]) + (if IsSpace(last) then [] else [last])
  }

  /** `s` without its trailing white space. */
  function TrimRight(s: string): (r: string)
    ensures |r| <= |s|
    ensures r == [] || !IsSpace(r[|r| - 1])
  {
    if s != [] && IsSpace(s[|s| - 1]) then TrimRight(s[..|s| - 1]) else s
  }

  /** What `TrimLeft` removes is a run of white space at the start. */
  lemma {:induction false} TrimLeftShape(s: string)
    ensures TrimLeft(s) == s[|s| - |TrimLeft(s)|..]
    ensures AllSpace(s[..|s| - |TrimLeft(s)|])
  {
    if s != [] && IsSpace(s[0]) {
      TrimLeftShape(s[1..]);
      var a := |s| - |TrimLeft(s)|;
      assert s[1..][a - 1..] == s[a..];
      assert forall j :: 1 <= j < a ==> s[j] == s[1..][j - 1];
    }
  }

  /** What `TrimRight` removes is a run of white space at the end. */
  lemma {:induction false} TrimRightShape(s: string)
    ensures TrimRight(s) == s[..|TrimRight(s)|]
    ensures AllSpace(s[|TrimRight(s)|..])
  {
    if s != [] && IsSpace(s[|s| - 1]) {
      var init := s[..|s| - 1];
      TrimRightShape(init);
      var b := |TrimRight(s)|;
      assert init[..b] == s[..b];
      assert forall j :: b <= j < |s| - 1 ==> s[j] == init[j];
    }
  }

  /** `s` without white space at either end. */
  function Trim(s: string): (r: string)
    ensures r == [] || (!IsSpace(r[0]) && !IsSpace(r[|r| - 1]))
  {
    var t := TrimLeft(s);
    TrimRightShape(t);
    TrimRight(t)
  }

  /**
    The trimmed string is the part of `s` between a run of white space at its
    start and a run at its end.
  */
  lemma TrimShape(s: string)
    ensures var r, a := Trim(s), |s| - |TrimLeft(s)|;
            && a + |r| <= |s| && r == s[a..a + |r|]
            && AllSpace(s[..a]) && AllSpace(s[a + |r|..])
  {
    var t := TrimLeft(s);
    var r := TrimRight(t);
    var a := |s| - |t|;
    TrimLeftShape(s);
    TrimRightShape(t);
    assert r == t[..|r|];
    assert s[a + |r|..] == t[|r|..];
  }

  /** The position of the first separator, or the length of the line when there is none. */
  function SepIndex(line: string, sep: char): (i: nat)
    ensures i <= |line|
    ensures forall j :: 0 <= j < i ==> line[j] != sep
    ensures i < |line| ==> line[i] == sep
  {
    Tokenizer.FindSkips(line, sep, 0);
    match Tokenizer.Find(line, sep, 0)
    case None => |line|
    case Some(p) => p
  }

  /**
    The constructor's treatment of one line. It is skipped when its key is
    empty, starts with '#' or '!', or is as long as the whole line (no
    separator and no white space). A line without a separator that has white
    space passes that test and the source then reads past its end; a line
    whose value is all white space makes the source step before the value's
    start. Both are `Undefined`.
  */
  function ParseProperty(line: string, sep: char): LineParse {
    var i := SepIndex(line, sep);
    var key := NonSpace(line[..i]);
    if |key| == 0 || key[0] == '#' || key[0] == '!' || |key| == |line| then Skip
    else if i == |line| then Undefined
    else
      var value := Trim(line[i + 1..]);
      if value == [] then Undefined else Property(key, value)
  }

  /** The constructor's loop body for one line: build the key, test it, trim the value. */
  method ParseLine(line: string, sep: char) returns (r: LineParse)
    requires IsAscii(line)
    ensures r == ParseProperty(line, sep)
  {
    var key, i := ScanKey(line, sep);
    ParsePropertyCases(line, sep, key, i);
    if |key| == 0 || key[0] == '#' || key[0] == '!' || |key| == |line| {
      return Skip;
    }
    if i == |line| {
      return Undefined;
    }
    var value := TrimLeading(line, i + 1);
    if |value| == 0 {
      assert TrimRight(value) == [];
      return Undefined;
    }
    value := TrimTrailing(value);
    r := Property(key, value);
  }

  /** The key scan: walk up to the first separator, appending each character that is not white space. */
  method ScanKey(line: string, sep: char) returns (key: string, i: nat)
    ensures i == SepIndex(line, sep)
    ensures key == NonSpace(line[..i])
  {
    key, i := "", 0;
    while i < |line| && line[i] != sep
      invariant 0 <= i <= |line|
      invariant forall j :: 0 <= j < i ==> line[j] != sep
      invariant key == NonSpace(line[..i])
    {
      NonSpaceStep(line, i);
      if !IsSpace(line[i]) {
        key := key + [line[i]];
      }
      i := i + 1;
    }
  }

  lemma ParsePropertyCases(line: string, sep: char, key: string, i: nat)
    requires i == SepIndex(line, sep) && key == NonSpace(line[..i])
    ensures var skip := |key| == 0 || key[0] == '#' || key[0] == '!' || |key| == |line|;
            && (skip ==> ParseProperty(line, sep) == Skip)
            && (!skip && i == |line| ==> ParseProperty(line, sep) == Undefined)
            && (!skip && i < |line| ==>
                  var v := TrimRight(TrimLeft(line[i + 1..]));
                  ParseProperty(line, sep) == if v == [] then Undefined else Property(key, v))
  {
  }

  /** The leading trim: step forward from `start` over white space and take the rest of the line. */
  method TrimLeading(line: string, start: nat) returns (value: string)
    requires start <= |line|
    ensures value == TrimLeft(line[start..])
  {
    var i := start;
    while i < |line| && IsSpace(line[i])
      invariant start <= i <= |line|
      invariant TrimLeft(line[i..]) == TrimLeft(line[start..])
    {
      TrimLeftStep(line, i);
      i := i + 1;
    }
    value := line[i..];
  }

  /** The trailing trim: step back from the end over white space, then cut the value there. */
  method TrimTrailing(value: string) returns (trimmed: string)
    requires value != [] && !IsSpace(value[0])
    ensures trimmed == TrimRight(value) && trimmed != []
  {
    var e := |value|;
    assert value[..e] == value;
    while IsSpace(value[e - 1])
      invariant 1 <= e <= |value|
      invariant TrimRight(value[..e]) == TrimRight(value)
      decreases e
    {
      TrimRightStep(value, e);
      e := e - 1;
    }
    assert value[..e] == value[..e][..e];
    trimmed := value[..e];
  }

  lemma TrimLeftStep(s: string, i: nat)
    requires i < |s| && IsSpace(s[i])
    ensures TrimLeft(s[i..]) == TrimLeft(s[i + 1..])
  {
    assert s[i..][1..] == s[i + 1..];
  }

  lemma TrimRightStep(s: string, e: nat)
    requires 0 < e <= |s| && IsSpace(s[e - 1])
    ensures TrimRight(s[..e]) == TrimRight(s[..e - 1])
  {
    assert s[..e][..e - 1] == s[..e - 1];
  }

  lemma NonSpaceStep(s: string, i: nat)
    requires i < |s|
    ensures NonSpace(s[..i + 1]) == NonSpace(s[..i]) + (if IsSpace(s[i]) then [] else [s[i]])
  {
    assert s[..i + 1][..i] == s[..i];
  }

  /** The pair a line contributes, if any. */
  function LinePairs(p: LineParse): seq<Entry> {
    if p.Property? then [(p.key, p.value)] else []
  }

  /** What each line of a file yields, in file order. */
  function Parses(lines: seq<string>, sep: char): seq<LineParse> {
    seq(|lines|, i requires 0 <= i < |lines| => ParseProperty(lines[i], sep))
  }

  /** The line yields a pair with this key. */
  predicate Defines(p: LineParse, key: string) {
    p.Property? && p.key == key
  }

  /** The pairs of a sequence of line results, in order. */
  function Pairs(ps: seq<LineParse>): (es: seq<Entry>)
    ensures |es| <= |ps|
  {
    if ps == [] then []
    else Pairs(ps[..|ps| - 1]) + LinePairs(ps[|ps| - 1])
  }

  /** The pairs of a file's lines, in file order. */
  function Entries(lines: seq<string>, sep: char): seq<Entry> {
    Pairs(Parses(lines, sep))
  }

  /** The number of line results that define `key`. */
  function Count(ps: seq<LineParse>, key: string): nat {
    if ps == [] then 0
    else Count(ps[..|ps| - 1], key) + (if Defines(ps[|ps| - 1], key) then 1 else 0)
  }

  // ---------------------------------------------------------------------------
  // The multimap

  /** Keys in non-decreasing order, as a multimap enumerates them. */
  predicate Sorted(m: seq<Entry>) {
    forall i, j :: 0 <= i < j < |m| ==> !Less(m[j].0, m[i].0)
  }

  /** The values stored under `key`, in sequence order. */
  function ValuesOf(m: seq<Entry>, key: string): (vs: seq<string>)
    ensures |vs| <= |m|
  {
    if m == [] then []
    else ValuesOf(m[..|m| - 1], key) + (if m[|m| - 1].0 == key then [m[|m| - 1].1] else [])
  }

  predicate HasKey(m: seq<Entry>, key: string) {
    exists i :: 0 <= i < |m| && m[i].0 == key
  }

  /** `lower_bound`: the first position whose key is not smaller than `key`. */
  function LowerBound(m: seq<Entry>, key: string): (lo: nat)
    ensures lo <= |m|
    ensures forall i :: 0 <= i < lo ==> Less(m[i].0, key)
    ensures lo < |m| ==> !Less(m[lo].0, key)
  {
    if m == [] || !Less(m[0].0, key) then 0 else 1 + LowerBound(m[1..], key)
  }

  /** `upper_bound`: the first position whose key is greater than `key`. */
  function UpperBound(m: seq<Entry>, key: string): (hi: nat)
    ensures hi <= |m|
    ensures forall i :: 0 <= i < hi ==> !Less(key, m[i].0)
    ensures hi < |m| ==> Less(key, m[hi].0)
  {
    if m == [] || Less(key, m[0].0) then 0 else 1 + UpperBound(m[1..], key)
  }

  /**
    `insert` into a multimap: the pair goes at the upper bound of its key,
    after every pair with an equal key (ISO C++11 23.2.4, `a_eq.insert(t)`).
  */
  function Insert(m: seq<Entry>, key: string, value: string): (m': seq<Entry>)
    ensures |m'| == |m| + 1
  {
    var u := UpperBound(m, key);
    m[..u] + [(key, value)] + m[u..]
  }

  lemma {:induction false} ValuesOfAppend(a: seq<Entry>, b: seq<Entry>, key: string)
    ensures ValuesOf(a + b, key) == ValuesOf(a, key) + ValuesOf(b, key)
    decreases |b|
  {
    if b == [] {
      assert a + b == a;
    } else {
      assert (a + b)[..|a + b| - 1] == a + b[..|b| - 1];
      ValuesOfAppend(a, b[..|b| - 1], key);
    }
  }

  /** A key has values exactly when some pair carries it. */
  lemma {:induction false} HasKeyIffValues(m: seq<Entry>, key: string)
    ensures HasKey(m, key) <==> ValuesOf(m, key) != []
  {
    if m != [] {
      var init := m[..|m| - 1];
      HasKeyIffValues(init, key);
      if HasKey(init, key) {
        var i :| 0 <= i < |init| && init[i].0 == key;
        assert m[i].0 == key;
      }
      if HasKey(m, key) && m[|m| - 1].0 != key {
        var i :| 0 <= i < |m| && m[i].0 == key;
        assert init[i].0 == key;
      }
    }
  }

  /** The values of a run of pairs that all carry `key`. */
  lemma {:induction false} ValuesOfUniform(m: seq<Entry>, key: string)
    requires forall i :: 0 <= i < |m| ==> m[i].0 == key
    ensures |ValuesOf(m, key)| == |m|
    ensures forall j :: 0 <= j < |m| ==> ValuesOf(m, key)[j] == m[j].1
  {
    if m != [] {
      ValuesOfUniform(m[..|m| - 1], key);
    }
  }

  /** Pairs that do not carry `key` contribute no values. */
  lemma ValuesOfAbsent(m: seq<Entry>, key: string)
    requires forall i :: 0 <= i < |m| ==> m[i].0 != key
    ensures ValuesOf(m, key) == []
  {
    HasKeyIffValues(m, key);
  }

  /** In a sorted multimap the pairs carrying `key` are those from its lower bound up to its upper bound. */
  lemma EqualRangeKeys(m: seq<Entry>, key: string)
    requires Sorted(m)
    ensures LowerBound(m, key) <= UpperBound(m, key)
    ensures var lo, hi := LowerBound(m, key), UpperBound(m, key);
            forall i :: 0 <= i < |m| ==> (m[i].0 == key <==> lo <= i < hi)
  {
    var lo, hi := LowerBound(m, key), UpperBound(m, key);
    if hi < lo {
      LessAsymmetric(m[hi].0, key);
    }
    forall i | lo <= i < hi
      ensures m[i].0 == key
    {
      if i == lo {
        LessIrreflexive(m[lo].0);
      }
      NotLessTransitive(key, m[lo].0, m[i].0);
      Equivalent(m[i].0, key);
    }
    forall i | 0 <= i < lo
      ensures m[i].0 != key
    {
      LessIrreflexive(key);
    }
    AfterUpperBound(m, key);
  }

  /**
    In a sorted multimap the values of `key` are exactly the pairs from its
    lower bound to its upper bound (`equal_range`).
  */
  lemma EqualRange(m: seq<Entry>, key: string)
    requires Sorted(m)
    ensures LowerBound(m, key) <= UpperBound(m, key)
    ensures var lo, hi := LowerBound(m, key), UpperBound(m, key);
            && |ValuesOf(m, key)| == hi - lo
            && forall j :: 0 <= j < hi - lo ==> ValuesOf(m, key)[j] == m[lo + j].1
  {
    EqualRangeKeys(m, key);
    ValuesOfRange(m, key, LowerBound(m, key), UpperBound(m, key));
  }

  lemma ValuesOfRange(m: seq<Entry>, key: string, lo: nat, hi: nat)
    requires lo <= hi <= |m|
    requires forall i :: 0 <= i < |m| ==> (m[i].0 == key <==> lo <= i < hi)
    ensures |ValuesOf(m, key)| == hi - lo
    ensures forall j :: 0 <= j < hi - lo ==> ValuesOf(m, key)[j] == m[lo + j].1
  {
    var pre, mid, post := m[..lo], m[lo..hi], m[hi..];
    assert m == pre + mid + post;
    forall i | 0 <= i < |pre| ensures pre[i].0 != key { assert pre[i] == m[i]; }
    forall i | 0 <= i < |post| ensures post[i].0 != key { assert post[i] == m[hi + i]; }
    forall i | 0 <= i < |mid| ensures mid[i].0 == key && mid[i].1 == m[lo + i].1 { assert mid[i] == m[lo + i]; }
    ValuesOfMiddle(pre, mid, post, key);
    ValuesOfUniform(mid, key);
  }

  /** Pairs around a run that do not carry `key` contribute no values. */
  lemma ValuesOfMiddle(pre: seq<Entry>, mid: seq<Entry>, post: seq<Entry>, key: string)
    requires forall i :: 0 <= i < |pre| ==> pre[i].0 != key
    requires forall i :: 0 <= i < |post| ==> post[i].0 != key
    ensures ValuesOf(pre + mid + post, key) == ValuesOf(mid, key)
  {
    ValuesOfAbsent(pre, key);
    ValuesOfAbsent(post, key);
    ValuesOfAppend(pre + mid, post, key);
    ValuesOfAppend(pre, mid, key);
  }

  /** Insertion keeps the multimap sorted. */
  lemma InsertSorted(m: seq<Entry>, key: string, value: string)
    requires Sorted(m)
    ensures Sorted(Insert(m, key, value))
  {
    var u := UpperBound(m, key);
    var m' := Insert(m, key, value);
    assert forall i :: 0 <= i < u ==> m'[i] == m[i];
    assert m'[u] == (key, value);
    assert forall i :: u < i < |m'| ==> m'[i] == m[i - 1];
    forall i, j | 0 <= i < j < |m'|
      ensures !Less(m'[j].0, m'[i].0)
    {
      if i == u {
        if Less(m[j - 1].0, key) {
          if j - 1 == u {
            LessAsymmetric(key, m[u].0);
          } else {
            LessTransitive(m[j - 1].0, key, m[u].0);
          }
        }
      }
    }
  }

  /** No pair at or after the upper bound of `key` carries `key`. */
  lemma AfterUpperBound(m: seq<Entry>, key: string)
    requires Sorted(m)
    ensures forall i :: UpperBound(m, key) <= i < |m| ==> m[i].0 != key
  {
    var u := UpperBound(m, key);
    forall i | u <= i < |m|
      ensures m[i].0 != key
    {
      if m[i].0 == key && i == u {
        LessIrreflexive(key);
      }
    }
  }

  /**
    Insertion appends the value to the values of its key and leaves every
    other key's values alone: equal keys keep insertion order.
  */
  lemma InsertValues(m: seq<Entry>, key: string, value: string, k: string)
    requires Sorted(m)
    ensures ValuesOf(Insert(m, key, value), k) == ValuesOf(m, k) + (if k == key then [value] else [])
  {
    var u := UpperBound(m, key);
    AfterUpperBound(m, key);
    InsertValuesAt(m, u, key, value, k);
  }

  lemma InsertValuesAt(m: seq<Entry>, u: nat, key: string, value: string, k: string)
    requires u <= |m|
    requires forall i :: u <= i < |m| ==> m[i].0 != key
    ensures ValuesOf(m[..u] + [(key, value)] + m[u..], k) == ValuesOf(m, k) + (if k == key then [value] else [])
  {
    var pre, post := m[..u], m[u..];
    var pre' := pre + [(key, value)];
    assert m == pre + post;
    assert pre'[..|pre'| - 1] == pre;
    ValuesOfAppend(pre, post, k);
    ValuesOfAppend(pre', post, k);
    if k == key {
      ValuesOfAbsent(post, key);
    }
  }

  /** A sorted multimap holding, for every key, the values of a list of pairs in list order. */
  ghost predicate Represents(m: seq<Entry>, es: seq<Entry>) {
    Sorted(m) && forall k :: ValuesOf(m, k) == ValuesOf(es, k)
  }

  /** One insertion as the constructor performs it: the multimap still holds the file's pairs. */
  lemma InsertStep(m: seq<Entry>, es: seq<Entry>, key: string, value: string)
    requires Represents(m, es)
    ensures Represents(Insert(m, key, value), es + [(key, value)])
  {
    InsertSorted(m, key, value);
    forall k
      ensures ValuesOf(Insert(m, key, value), k) == ValuesOf(es + [(key, value)], k)
    {
      InsertValues(m, key, value, k);
      var es' := es + [(key, value)];
      assert es'[..|es'| - 1] == es;
    }
  }

  /** Inserting the pair of one more line result, if any, keeps the multimap in step with the pairs. */
  lemma ReadStep(m: seq<Entry>, ps: seq<LineParse>, k: nat)
    requires k < |ps|
    requires Represents(m, Pairs(ps[..k]))
    ensures ps[k].Property? ==> Represents(Insert(m, ps[k].key, ps[k].value), Pairs(ps[..k + 1]))
    ensures !ps[k].Property? ==> Represents(m, Pairs(ps[..k + 1]))
  {
    PairsStep(ps, k);
    if ps[k].Property? {
      InsertStep(m, Pairs(ps[..k]), ps[k].key, ps[k].value);
    } else {
      assert Pairs(ps[..k + 1]) == Pairs(ps[..k]);
    }
  }

  /** The pairs of one more line result. */
  lemma PairsStep(ps: seq<LineParse>, k: nat)
    requires k < |ps|
    ensures Pairs(ps[..k + 1]) == Pairs(ps[..k]) + LinePairs(ps[k])
  {
    assert ps[..k + 1][..k] == ps[..k];
  }

  // ---------------------------------------------------------------------------
  // What a line yields

  lemma {:induction false} NonSpaceAppend(a: string, b: string)
    ensures NonSpace(a + b) == NonSpace(a) + NonSpace(b)
    decreases |b|
  {
    if b == [] {
      assert a + b == a;
    } else {
      assert (a + b)[..|a + b| - 1] == a + b[..|b| - 1];
      NonSpaceAppend(a, b[..|b| - 1]);
    }
  }

  lemma {:induction false} NonSpaceOfSpace(ws: string)
    requires AllSpace(ws)
    ensures NonSpace(ws) == []
  {
    if ws != [] {
      NonSpaceOfSpace(ws[..|ws| - 1]);
    }
  }

  /**
    The key of a pair read from a line is the line's non-white-space
    characters before the first separator, and it is not a comment.
  */
  lemma PropertyKey(line: string, sep: char, key: string, value: string)
    requires ParseProperty(line, sep) == Property(key, value)
    ensures SepIndex(line, sep) < |line| && line[SepIndex(line, sep)] == sep
    ensures key == NonSpace(line[..SepIndex(line, sep)])
    ensures key != [] && key[0] != '#' && key[0] != '!'
  {
    var i := SepIndex(line, sep);
    ParsePropertyCases(line, sep, NonSpace(line[..i]), i);
  }

  /** The key of a pair holds neither white space nor the separator. */
  lemma KeyCharacters(line: string, sep: char, key: string, value: string)
    requires ParseProperty(line, sep) == Property(key, value)
    ensures forall j :: 0 <= j < |key| ==> !IsSpace(key[j]) && key[j] != sep
  {
    PropertyKey(line, sep, key, value);
    var i := SepIndex(line, sep);
    NonSpaceAvoids(line[..i], sep);
  }

  /**
    The value of a pair read from a line is the rest of the line after the
    first separator, trimmed; it is not empty and neither starts nor ends with
    white space.
  */
  lemma PropertyValue(line: string, sep: char, key: string, value: string)
    requires ParseProperty(line, sep) == Property(key, value)
    ensures SepIndex(line, sep) < |line|
    ensures value == Trim(line[SepIndex(line, sep) + 1..]) && value != []
    ensures !IsSpace(value[0]) && !IsSpace(value[|value| - 1])
  {
    var i := SepIndex(line, sep);
    ParsePropertyCases(line, sep, NonSpace(line[..i]), i);
  }

  /** A character absent from `s` is absent from its non-white-space characters. */
  lemma {:induction false} NonSpaceAvoids(s: string, c: char)
    requires forall j :: 0 <= j < |s| ==> s[j] != c
    ensures forall j :: 0 <= j < |NonSpace(s)| ==> NonSpace(s)[j] != c
  {
    if s != [] {
      NonSpaceAvoids(s[..|s| - 1], c);
    }
  }

  /** White space before '#' or '!' does not hide a comment: such a line yields nothing. */
  lemma CommentAfterSpace(ws: string, c: char, rest: string, sep: char)
    requires AllSpace(ws) && (c == '#' || c == '!') && c != sep
    ensures ParseProperty(ws + [c] + rest, sep) == Skip
  {
    var line := ws + [c] + rest;
    var i := SepIndex(line, sep);
    NonSpaceOfSpace(ws);
    if i <= |ws| {
      assert line[..i] == ws[..i];
      NonSpaceOfSpace(ws[..i]);
    } else {
      assert line[..i] == ws + ([c] + line[|ws| + 1..i]);
      NonSpaceAppend(ws, [c] + line[|ws| + 1..i]);
      NonSpaceAppend([c], line[|ws| + 1..i]);
      assert NonSpace([c]) == NonSpace([]) + [c];
    }
  }

  lemma SepIndexAt(line: string, sep: char, i: nat)
    requires i <= |line| && (i < |line| ==> line[i] == sep)
    requires forall j :: 0 <= j < i ==> line[j] != sep
    ensures SepIndex(line, sep) == i
  {
  }

  /**
    A line with a separator: the key is the non-white-space part of the text
    before it and the value the trimmed text after it. The line yields nothing
    when that key is empty or a comment, and is undefined when the value is
    empty.
  */
  lemma LineWithSeparator(front: string, sep: char, back: string)
    requires forall j :: 0 <= j < |front| ==> front[j] != sep
    ensures var key, value := NonSpace(front), Trim(back);
            ParseProperty(front + [sep] + back, sep) ==
              if key == [] || key[0] == '#' || key[0] == '!' then Skip
              else if value == [] then Undefined
              else Property(key, value)
  {
    var line := front + [sep] + back;
    SepIndexAt(line, sep, |front|);
    assert line[..|front|] == front;
    assert line[|front| + 1..] == back;
    ParsePropertyCases(line, sep, NonSpace(front), |front|);
  }

  /** All of a string's characters are kept exactly when none is white space. */
  lemma {:induction false} NonSpaceWhole(s: string)
    ensures |NonSpace(s)| == |s| <==> forall j :: 0 <= j < |s| ==> !IsSpace(s[j])
  {
    if s != [] {
      var init := s[..|s| - 1];
      NonSpaceWhole(init);
      if !IsSpace(s[|s| - 1]) && (forall j :: 0 <= j < |init| ==> !IsSpace(init[j])) {
        assert forall j :: 0 <= j < |s| ==> !IsSpace(s[j]) by {
          forall j | 0 <= j < |s| ensures !IsSpace(s[j]) {
            if j < |init| {
              assert s[j] == init[j];
            }
          }
        }
      }
      if forall j :: 0 <= j < |s| ==> !IsSpace(s[j]) {
        assert forall j :: 0 <= j < |init| ==> !IsSpace(init[j]) by {
          forall j | 0 <= j < |init| ensures !IsSpace(init[j]) {
            assert init[j] == s[j];
          }
        }
      }
    }
  }

  /**
    A line without a separator yields nothing when it has no white space, or
    when its non-white-space text is empty or a comment; otherwise the source
    reads past its end.
  */
  lemma LineWithoutSeparator(line: string, sep: char)
    requires forall j :: 0 <= j < |line| ==> line[j] != sep
    ensures var key := NonSpace(line);
            ParseProperty(line, sep) ==
              if key == [] || key[0] == '#' || key[0] == '!' || forall j :: 0 <= j < |line| ==> !IsSpace(line[j])
              then Skip
              else Undefined
  {
    SepIndexAt(line, sep, |line|);
    assert line[..|line|] == line;
    NonSpaceWhole(line);
    ParsePropertyCases(line, sep, NonSpace(line), |line|);
  }

  /** Interior white space leaves the key and outer white space leaves the value: "key = value  " reads as ("key", "value"). */
  lemma SpacedPropertyExample()
    ensures ParseProperty("key = value  ", '=') == Property("key", "value")
  {
    assert "key = value  " == "key " + ['='] + " value  ";
    LineWithSeparator("key ", '=', " value  ");
    SpacedKey();
    SpacedValue();
  }

  lemma SpacedKey()
    ensures NonSpace("key ") == "key"
  {
    assert "key "[..3] == "key";
    assert "key"[..2] == "ke";
    assert "ke"[..1] == "k";
    assert "k"[..0] == "";
  }

  lemma SpacedValue()
    ensures Trim(" value  ") == "value"
  {
    assert " value  "[1..] == "value  ";
    assert TrimLeft(" value  ") == "value  ";
    assert "value  "[..6] == "value ";
    assert "value "[..5] == "value";
  }

  /** Only the first separator splits: "a=b=c" reads as ("a", "b=c"). */
  lemma LaterSeparatorsKeptExample()
    ensures ParseProperty("a=b=c", '=') == Property("a", "b=c")
  {
    assert "a=b=c" == "a" + ['='] + "b=c";
    LineWithSeparator("a", '=', "b=c");
    NonSpaceOfNoSpace("a");
    TrimOfTrimmed("b=c");
  }

  /** A string without white space is its own key. */
  lemma {:induction false} NonSpaceOfNoSpace(s: string)
    requires forall j :: 0 <= j < |s| ==> !IsSpace(s[j])
    ensures NonSpace(s) == s
  {
    if s != [] {
      NonSpaceOfNoSpace(s[..|s| - 1]);
      assert s[..|s| - 1] + [s[|s| - 1]] == s;
    }
  }

  /** A string that neither starts nor ends with white space is its own trimmed value. */
  lemma TrimOfTrimmed(s: string)
    requires s != [] && !IsSpace(s[0]) && !IsSpace(s[|s| - 1])
    ensures Trim(s) == s
  {
    assert TrimLeft(s) == s;
  }

  /** "  #a=b" is a comment. */
  lemma IndentedCommentExample()
    ensures ParseProperty("  #a=b", '=') == Skip
  {
    assert "  #a=b" == "  " + ['#'] + "a=b";
    CommentAfterSpace("  ", '#', "a=b", '=');
  }

  /** A line without separator or white space is not a property. */
  lemma BareWordExample()
    ensures ParseProperty("abc", '=') == Skip
  {
    LineWithoutSeparator("abc", '=');
  }

  /** A line without separator but with white space is an undefined case. */
  lemma UndefinedWithoutSeparatorExample()
    ensures ParseProperty("a b", '=') == Undefined
  {
    LineWithoutSeparator("a b", '=');
    assert NonSpace("a b") == "ab" by {
      assert "a b"[..2] == "a ";
      assert "a "[..1] == "a";
      assert "a"[..0] == "";
    }
    assert IsSpace("a b"[1]);
  }

  /** A line with an empty value is an undefined case. */
  lemma UndefinedEmptyValueExample()
    ensures ParseProperty("a=", '=') == Undefined
  {
    assert "a=" == "a" + ['='] + "";
    LineWithSeparator("a", '=', "");
    assert "a"[..0] == "";
  }

  // ---------------------------------------------------------------------------
  // What a file yields

  lemma {:induction false} PairsAppend(a: seq<LineParse>, b: seq<LineParse>)
    ensures Pairs(a + b) == Pairs(a) + Pairs(b)
    decreases |b|
  {
    if b == [] {
      assert a + b == a;
    } else {
      assert (a + b)[..|a + b| - 1] == a + b[..|b| - 1];
      PairsAppend(a, b[..|b| - 1]);
    }
  }

  /** Each result that defines `key` adds exactly one value for it; duplicates are all kept. */
  lemma {:induction false} ValuesCount(ps: seq<LineParse>, key: string)
    ensures |ValuesOf(Pairs(ps), key)| == Count(ps, key)
  {
    if ps != [] {
      var init, p := ps[..|ps| - 1], ps[|ps| - 1];
      ValuesCount(init, key);
      ValuesOfAppend(Pairs(init), LinePairs(p), key);
      if p.Property? {
        assert LinePairs(p)[..0] == [];
      }
    }
  }

  lemma {:induction false} CountPositive(ps: seq<LineParse>, key: string)
    ensures Count(ps, key) > 0 <==> exists i :: 0 <= i < |ps| && Defines(ps[i], key)
  {
    if ps != [] {
      var init := ps[..|ps| - 1];
      CountPositive(init, key);
      if Count(init, key) > 0 {
        var i :| 0 <= i < |init| && Defines(init[i], key);
        assert ps[i] == init[i];
      }
      if exists i :: 0 <= i < |ps| && Defines(ps[i], key) {
        var i :| 0 <= i < |ps| && Defines(ps[i], key);
        if i < |init| {
          assert init[i] == ps[i];
        }
      }
    }
  }

  /** The first value of a key is the one from the first result that defines it. */
  lemma FirstValue(ps: seq<LineParse>, i: nat, key: string, value: string)
    requires i < |ps| && ps[i] == Property(key, value)
    requires forall j :: 0 <= j < i ==> !Defines(ps[j], key)
    ensures ValuesOf(Pairs(ps), key) != []
    ensures ValuesOf(Pairs(ps), key)[0] == value
  {
    var pre, post := ps[..i], ps[i + 1..];
    assert ps == pre + [ps[i]] + post;
    PairsAppend(pre + [ps[i]], post);
    PairsAppend(pre, [ps[i]]);
    assert [ps[i]][..0] == [];
    CountPositive(pre, key);
    ValuesCount(pre, key);
    var es := Pairs(pre);
    ValuesOfAppend(es + [(key, value)], Pairs(post), key);
    ValuesOfAppend(es, [(key, value)], key);
    assert [(key, value)][..0] == [];
  }

  /** The number of values of a key is the number of lines of the file that define it. */
  lemma ValuesCountLines(lines: seq<string>, sep: char, key: string)
    ensures |ValuesOf(Entries(lines, sep), key)| == Count(Parses(lines, sep), key)
  {
    ValuesCount(Parses(lines, sep), key);
  }

  /** A key is present exactly when some line of the file defines it. */
  lemma KeyPresentIff(lines: seq<string>, sep: char, key: string)
    ensures HasKey(Entries(lines, sep), key) <==>
            exists i :: 0 <= i < |lines| && Defines(Parses(lines, sep)[i], key)
  {
    var ps := Parses(lines, sep);
    CountPositive(ps, key);
    ValuesCount(ps, key);
    HasKeyIffValues(Pairs(ps), key);
  }

  /** The first value of a key is the value on the first line of the file that defines it. */
  lemma FirstValueFromFirstLine(lines: seq<string>, sep: char, i: nat, key: string, value: string)
    requires i < |lines| && ParseProperty(lines[i], sep) == Property(key, value)
    requires forall j :: 0 <= j < i ==> !Defines(ParseProperty(lines[j], sep), key)
    ensures ValuesOf(Entries(lines, sep), key) != []
    ensures ValuesOf(Entries(lines, sep), key)[0] == value
  {
    FirstValue(Parses(lines, sep), i, key, value);
  }

  // ---------------------------------------------------------------------------
  // The reader

  /**
    The constructor's loop: each line is parsed and the property it defines,
    if any, is inserted into the multimap.
  */
  method ReadProperties(lines: seq<string>, separator: char) returns (properties: seq<Entry>)
    requires forall i :: 0 <= i < |lines| ==> IsAscii(lines[i])
    requires forall i :: 0 <= i < |lines| ==> !ParseProperty(lines[i], separator).Undefined?
    ensures Represents(properties, Entries(lines, separator))
  {
    ghost var ps := Parses(lines, separator);
    properties := [];
    var k := 0;
    while k < |lines|
      invariant 0 <= k <= |lines|
      invariant Represents(properties, Pairs(ps[..k]))
    {
      var r := ParseLine(lines[k], separator);
      assert r == ps[k];
      ReadStep(properties, ps, k);
      if r.Property? {
        properties := Insert(properties, r.key, r.value);
      }
      k := k + 1;
    }
    assert ps[..k] == ps;
  }

  /** `PropertiesFileReader`: the multimap `_properties` built from a file's lines. */
  class PropertiesFileReader {
    /** The pairs in file order. */
    ghost var entries: seq<Entry>
    /** `_properties`. */
    var properties: seq<Entry>

    ghost predicate Valid()
      reads this
    {
      Represents(properties, entries)
    }

    /** Reads every line; the source's behaviour is undefined on `Undefined` lines. */
    constructor (lines: seq<string>, separator: char)
      requires forall i :: 0 <= i < |lines| ==> IsAscii(lines[i])
      requires forall i :: 0 <= i < |lines| ==> !ParseProperty(lines[i], separator).Undefined?
      ensures Valid()
      ensures entries == Entries(lines, separator)
    {
      var m := ReadProperties(lines, separator);
      properties := m;
      entries := Entries(lines, separator);
    }

    /** `keys()`: every key once, in strictly ascending order (the multimap's order, not file order). */
    method Keys() returns (keys: seq<string>)
      requires Valid()
      ensures forall i, j :: 0 <= i < j < |keys| ==> Less(keys[i], keys[j])
      ensures forall key :: key in keys <==> HasKey(entries, key)
    {
      keys := [];
      var i := 0;
      while i < |properties|
        invariant 0 <= i <= |properties|
        invariant forall a, b :: 0 <= a < b < |keys| ==> Less(keys[a], keys[b])
        invariant forall key :: key in keys <==> HasKey(properties[..i], key)
        invariant i > 0 <==> keys != []
        invariant i > 0 ==> keys[|keys| - 1] == properties[i - 1].0
      {
        var key := properties[i].0;
        forall k ensures HasKey(properties[..i + 1], k) <==> HasKey(properties[..i], k) || k == key {
          assert forall j :: 0 <= j < i ==> properties[..i + 1][j] == properties[..i][j];
          if HasKey(properties[..i + 1], k) && k != key {
            var j :| 0 <= j < i + 1 && properties[..i + 1][j].0 == k;
            assert properties[..i][j].0 == k;
          }
        }
        if keys == [] || keys[|keys| - 1] != key {
          if keys != [] {
            var last := keys[|keys| - 1];
            LessTotal(last, key);
            forall a | 0 <= a < |keys| - 1
              ensures Less(keys[a], key)
            {
              LessTransitive(keys[a], last, key);
            }
          }
          keys := keys + [key];
        }
        i := i + 1;
      }
      assert properties[..i] == properties;
      forall key
        ensures HasKey(properties, key) <==> HasKey(entries, key)
      {
        HasKeyIffValues(properties, key);
        HasKeyIffValues(entries, key);
      }
    }

    /** `values(key)`: the values of `key` in file order; none when the key is absent. */
    method Values(key: string) returns (values: seq<string>)
      requires Valid()
      ensures values == ValuesOf(entries, key)
    {
      var lo := LowerBound(properties, key);
      var hi := UpperBound(properties, key);
      EqualRange(properties, key);
      values := [];
      if lo != |properties| {
        var it := lo;
        while it != hi
          invariant lo <= it <= hi
          invariant |values| == it - lo
          invariant forall j :: 0 <= j < |values| ==> values[j] == properties[lo + j].1
        {
          values := values + [properties[it].1];
          it := it + 1;
        }
      }
      assert values == ValuesOf(properties, key);
    }

    /** `values<int>(key)` and `values<long>(key)`: each value through the lenient integer conversion. */
    method IntValues(key: string) returns (values: seq<int>)
      requires Valid()
      ensures |values| == |ValuesOf(entries, key)|
      ensures forall i :: 0 <= i < |values| ==> values[i] == Atoi(ValuesOf(entries, key)[i])
    {
      var strs := Values(key);
      values := seq(|strs|, i requires 0 <= i < |strs| => Atoi(strs[i]));
    }

    /**
      `value(key)` and `operator[](key)`: the first value of `key` in file order,
      or out_of_range "Property not found: " + key when no line defines it.
    */
    function Value(key: string): (r: Result<string, NotFound>)
      reads this
      requires Valid()
      ensures r.Ok? <==> ValuesOf(entries, key) != []
      ensures r.Ok? <==> HasKey(entries, key)
      ensures r.Ok? ==> r.value == ValuesOf(entries, key)[0]
      ensures r.Err? ==> r.error == NotFound("Property not found: " + key)
    {
      var lo := LowerBound(properties, key);
      var hi := UpperBound(properties, key);
      EqualRange(properties, key);
      HasKeyIffValues(entries, key);
      if lo != |properties| && lo != hi then Ok(properties[lo].1)
      else Err(NotFound("Property not found: " + key))
    }

    /** `value<int>(key)` and `value<long>(key)`: the first value through the lenient integer conversion. */
    function IntValue(key: string): (r: Result<int, NotFound>)
      reads this
      requires Valid()
      ensures r.Ok? <==> ValuesOf(entries, key) != []
      ensures r.Ok? ==> r.value == Atoi(ValuesOf(entries, key)[0])
      ensures r.Err? ==> r.error == NotFound("Property not found: " + key)
    {
      match Value(key)
      case Ok(s) => Ok(Atoi(s))
      case Err(e) => Err(e)
    }
  }
}
