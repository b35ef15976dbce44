/**
  What the CSV reader computes from a file's lines: which lines hold data, how
  a data line becomes a record, and when the whole parse fails with the
  reader's range error. Both stores (heterogeneous and homogeneous) are
  specified here; the classes that build them step by step are in CsvStores.
*/
module CsvRecords {
  import opened Wrappers
  import opened LenientParse
  import opened Tokenizer

  /**
    The declared type of a column: text, an `int` or `long` column (decoded
    by `atoi`/`atol`), or a floating-point type.
  */
  datatype ColType = Text | Int | Float

  /**
    A decoded field. A floating-point field keeps the token `atof` would
    convert: floating-point parsing is not part of this model.
  */
  datatype Field = TextField(text: string) | IntField(value: int) | FloatField(token: string)

  type Record = seq<Field>

  /** The range_error raised for an inconsistent file: data-row number (from 1), token count, expected count. */
  datatype RangeError = RangeError(row: nat, actual: nat, expected: nat)

  function TypeOf(f: Field): ColType {
    match f
    case TextField(_) => Text
    case IntField(_) => Int
    case FloatField(_) => Float
  }

  /** A record that has one field per declared column, each of the declared type. */
  predicate Conforms(types: seq<ColType>, rec: Record) {
    |rec| == |types| && forall i :: 0 <= i < |rec| ==> TypeOf(rec[i]) == types[i]
  }

  /**
    One column of `_copyToTuple`: a text column takes the token unchanged (no
    trimming), an integer column its lenient `atoi`/`atol` value; it never fails.
  */
  function DecodeField(t: ColType, token: string): (f: Field)
    ensures TypeOf(f) == t
    ensures t == Text ==> f.text == token
    ensures t == Int ==> f.value == Atoi(token)
  {
    match t
    case Text => TextField(token)
    case Int => IntField(Atoi(token))
    case Float => FloatField(token)
  }

  /** `_copyToTuple<POS>`: decodes column `pos` and, while columns remain, the ones after it. */
  function CopyToTuple(types: seq<ColType>, tokens: seq<string>, pos: nat): (r: seq<Field>)
    requires |tokens| == |types| && pos < |types|
    ensures |r| == |types| - pos
    ensures forall i :: 0 <= i < |r| ==> r[i] == DecodeField(types[pos + i], tokens[pos + i])
    decreases |types| - pos
  {
    [DecodeField(types[pos], tokens[pos])]
      + (if pos + 1 < |types| then CopyToTuple(types, tokens, pos + 1) else [])
  }

  /** The record decoded from the tokens of one data line. */
  function DecodeRecord(types: seq<ColType>, tokens: seq<string>): (rec: Record)
    requires |tokens| == |types| >= 1
    ensures Conforms(types, rec)
    ensures forall i :: 0 <= i < |rec| ==> rec[i] == DecodeField(types[i], tokens[i])
  {
    CopyToTuple(types, tokens, 0)
  }

  /** A line that holds data: not empty, and not starting with '#' or '!'. */
  predicate IsDataLine(line: string) {
    |line| > 0 && line[0] != '#' && line[0] != '!'
  }

  /** The data lines of a file, in file order. */
  function DataLines(lines: seq<string>): (rows: seq<string>)
    ensures |rows| <= |lines|
  {
    if lines == [] then []
    else
      var last := lines[|lines| - 1];
      DataLines(lines[..|lines| - 1]) + (if IsDataLine(last) then [last] else [])
  }

  /**
    The rows of data lines checked against an expected token count, in the
    order the constructors read them: the first row whose count differs stops
    the parse with (rows accepted so far + 1, its count, the expected count).
  */
  function CheckRows(rows: seq<string>, sep: char, n: nat): (r: Result<seq<seq<string>>, RangeError>)
  {
    if rows == [] then Ok([])
    else
      match CheckRows(rows[..|rows| - 1], sep, n)
      case Err(e) => Err(e)
      case Ok(done) =>
        var tokens := Split(rows[|rows| - 1], sep);
        if |tokens| != n then Err(RangeError(|done| + 1, |tokens|, n))
        else Ok(done + [tokens])
  }

  /**
    A successful check yields the tokens of every row, each of the expected
    width; a failed one names a row of the input and the expected count.
  */
  lemma {:induction false} CheckRowsShape(rows: seq<string>, sep: char, n: nat)
    ensures var r := CheckRows(rows, sep, n);
            && (r.Ok? ==> |r.value| == |rows|)
            && (r.Ok? ==> forall i :: 0 <= i < |rows| ==> r.value[i] == Split(rows[i], sep) && |r.value[i]| == n)
            && (r.Err? ==> 1 <= r.error.row <= |rows| && r.error.expected == n)
  {
    if rows != [] {
      var init := rows[..|rows| - 1];
      CheckRowsShape(init, sep, n);
      match CheckRows(init, sep, n)
      case Err(_) =>
      case Ok(done) =>
        assert forall i :: 0 <= i < |init| ==> rows[i] == init[i];
    }
  }

  /** The records of each row of tokens, each decoded by the declared column types. */
  function DecodeAll(types: seq<ColType>, rows: seq<seq<string>>): (recs: seq<Record>)
    requires |types| >= 1
    requires forall i :: 0 <= i < |rows| ==> |rows[i]| == |types|
    ensures |recs| == |rows|
  {
    if rows == [] then []
    else DecodeAll(types, rows[..|rows| - 1]) + [DecodeRecord(types, rows[|rows| - 1])]
  }

  /** The outcome of the heterogeneous constructor: its records, or the range error it raises. */
  function Parse(types: seq<ColType>, lines: seq<string>, sep: char): Result<seq<Record>, RangeError>
    requires |types| >= 1
  {
    CheckRowsShape(DataLines(lines), sep, |types|);
    match CheckRows(DataLines(lines), sep, |types|)
    case Err(e) => Err(e)
    case Ok(rows) => Ok(DecodeAll(types, rows))
  }

  /**
    The column count of the homogeneous store: the one given, or, when 0 is
    given, the token count of the first data line.
  */
  function ExpectedCols(rows: seq<string>, sep: char, cols: nat): nat {
    if cols == 0 && rows != [] then |Split(rows[0], sep)| else cols
  }

  /** The outcome of the homogeneous (text) constructor: its rows of tokens, or the range error it raises. */
  function ParseStr(lines: seq<string>, sep: char, cols: nat): Result<seq<seq<string>>, RangeError> {
    var rows := DataLines(lines);
    CheckRows(rows, sep, ExpectedCols(rows, sep, cols))
  }

  // ---------------------------------------------------------------------------
  // Data lines

  lemma {:induction false} DataLinesAppend(a: seq<string>, b: seq<string>)
    ensures DataLines(a + b) == DataLines(a) + DataLines(b)
    decreases |b|
  {
    if b != [] {
      var b' := b[..|b| - 1];
      assert (a + b)[..|a + b| - 1] == a + b';
      DataLinesAppend(a, b');
    } else {
      assert a + b == a;
    }
  }

  /** An empty or comment line contributes nothing, wherever it stands. */
  lemma SkippedLineIgnored(a: seq<string>, line: string, b: seq<string>)
    requires !IsDataLine(line)
    ensures DataLines(a + [line] + b) == DataLines(a + b)
  {
    DataLinesAppend(a + [line], b);
    DataLinesAppend(a, [line]);
    DataLinesAppend(a, b);
    assert [line][..0] == [];
  }

  /** Every line kept is a data line. */
  lemma {:induction false} DataLinesAreData(lines: seq<string>)
    ensures forall i :: 0 <= i < |DataLines(lines)| ==> IsDataLine(DataLines(lines)[i])
  {
    if lines != [] {
      DataLinesAreData(lines[..|lines| - 1]);
    }
  }

  // ---------------------------------------------------------------------------
  // Row checking

  /** Once a row has failed the width check, later rows change nothing. */
  lemma {:induction false} CheckRowsErrorStays(rows: seq<string>, more: seq<string>, sep: char, n: nat)
    requires CheckRows(rows, sep, n).Err?
    ensures CheckRows(rows + more, sep, n) == CheckRows(rows, sep, n)
    decreases |more|
  {
    if more != [] {
      var more' := more[..|more| - 1];
      assert (rows + more)[..|rows + more| - 1] == rows + more';
      CheckRowsErrorStays(rows, more', sep, n);
    } else {
      assert rows + more == rows;
    }
  }

  /**
    The width check fails exactly when some row has the wrong token count, and then
    it reports the first such row: its number counted from 1, its count, and
    the expected count; every earlier row had the expected count.
  */
  lemma {:induction false} CheckRowsFirstMismatch(rows: seq<string>, sep: char, n: nat)
    ensures CheckRows(rows, sep, n).Err? <==> exists i :: 0 <= i < |rows| && |Split(rows[i], sep)| != n
    ensures CheckRows(rows, sep, n).Err? ==>
              var e := CheckRows(rows, sep, n).error;
              && 1 <= e.row <= |rows|
              && e.actual == |Split(rows[e.row - 1], sep)| != n
              && e.expected == n
              && forall j :: 0 <= j < e.row - 1 ==> |Split(rows[j], sep)| == n
  {
    CheckRowsShape(rows, sep, n);
    if rows != [] {
      var init := rows[..|rows| - 1];
      CheckRowsFirstMismatch(init, sep, n);
      CheckRowsShape(init, sep, n);
      match CheckRows(init, sep, n)
      case Err(e) =>
        var i :| 0 <= i < |init| && |Split(init[i], sep)| != n;
        assert rows[i] == init[i];
        assert forall j :: 0 <= j < e.row - 1 ==> rows[j] == init[j];
      case Ok(done) =>
        assert forall j :: 0 <= j < |init| ==> rows[j] == init[j];
    }
  }

  /**
    One line of a constructor's loop: given the outcome on the lines before
    `lines[k]`, a skipped line changes nothing, a data line of the right width
    appends its tokens, and a data line of the wrong width decides the outcome
    on the whole file.
  */
  lemma CheckRowsLineStep(lines: seq<string>, sep: char, n: nat, k: nat, done: seq<seq<string>>)
    requires k < |lines|
    requires CheckRows(DataLines(lines[..k]), sep, n) == Ok(done)
    ensures !IsDataLine(lines[k]) ==>
              DataLines(lines[..k + 1]) == DataLines(lines[..k])
    ensures IsDataLine(lines[k]) ==>
              DataLines(lines[..k + 1]) == DataLines(lines[..k]) + [lines[k]]
    ensures IsDataLine(lines[k]) && |Split(lines[k], sep)| == n ==>
              CheckRows(DataLines(lines[..k + 1]), sep, n) == Ok(done + [Split(lines[k], sep)])
    ensures IsDataLine(lines[k]) && |Split(lines[k], sep)| != n ==>
              CheckRows(DataLines(lines), sep, n) == Err(RangeError(|done| + 1, |Split(lines[k], sep)|, n))
  {
    var pre := lines[..k];
    var rows := DataLines(lines[..k + 1]);
    assert lines[..k + 1][..k] == pre;
    if IsDataLine(lines[k]) {
      assert rows[..|rows| - 1] == DataLines(pre);
      if |Split(lines[k], sep)| != n {
        CheckRowsErrorStays(rows, DataLines(lines[k + 1..]), sep, n);
        DataLinesAppend(lines[..k + 1], lines[k + 1..]);
        assert lines[..k + 1] + lines[k + 1..] == lines;
      }
    }
  }

  /** The inferred count is fixed by the first data line: a prefix holding it infers the file's count. */
  lemma ExpectedColsOfPrefix(lines: seq<string>, sep: char, cols: nat, k: nat)
    requires k <= |lines|
    requires DataLines(lines[..k]) != []
    ensures ExpectedCols(DataLines(lines), sep, cols) == ExpectedCols(DataLines(lines[..k]), sep, cols)
  {
    FirstDataLineOfPrefix(lines, k);
  }

  /** The first data line of a prefix is the first data line of the file. */
  lemma FirstDataLineOfPrefix(lines: seq<string>, k: nat)
    requires k <= |lines|
    requires DataLines(lines[..k]) != []
    ensures DataLines(lines) != [] && DataLines(lines)[0] == DataLines(lines[..k])[0]
  {
    var pre, post := lines[..k], lines[k..];
    assert lines == pre + post;
    DataLinesAppend(pre, post);
    assert (DataLines(pre) + DataLines(post))[0] == DataLines(pre)[0];
  }

  /**
    The homogeneous constructor's loop invariant: after the lines before `k`,
    `n` is the column count in force (the requested one until a data line has
    been read, the inferred one after) and the rows read so far are `done`.
  */
  predicate StrLoopState(lines: seq<string>, sep: char, cols: nat, k: nat, n: nat, done: seq<seq<string>>)
    requires k <= |lines|
  {
    var seen := DataLines(lines[..k]);
    && (seen == [] ==> n == cols)
    && (seen != [] ==> n == ExpectedCols(seen, sep, cols) >= 1)
    && CheckRows(seen, sep, n) == Ok(done)
  }

  /** One line of the homogeneous constructor's loop, including the inference of the count. */
  lemma StrLoopStep(lines: seq<string>, sep: char, cols: nat, k: nat, n: nat, done: seq<seq<string>>)
    requires k < |lines|
    requires StrLoopState(lines, sep, cols, k, n, done)
    ensures !IsDataLine(lines[k]) ==> StrLoopState(lines, sep, cols, k + 1, n, done)
    ensures IsDataLine(lines[k]) ==>
              var tokens := Split(lines[k], sep);
              var n' := if |done| == 0 && n == 0 then |tokens| else n;
              && (|tokens| == n' ==> StrLoopState(lines, sep, cols, k + 1, n', done + [tokens]))
              && (|tokens| != n' ==> ParseStr(lines, sep, cols) == Err(RangeError(|done| + 1, |tokens|, n')))
  {
    CheckRowsLineStep(lines, sep, n, k, done);
    if IsDataLine(lines[k]) {
      var tokens := Split(lines[k], sep);
      var n' := if |done| == 0 && n == 0 then |tokens| else n;
      CheckRowsLineStep(lines, sep, n', k, done);
      ExpectedColsOfPrefix(lines, sep, cols, k + 1);
      var seen := DataLines(lines[..k + 1]);
      assert seen[0] == if DataLines(lines[..k]) == [] then lines[k] else DataLines(lines[..k])[0];
    }
  }

  /** What `CheckRowsLineStep` means for the heterogeneous records. */
  lemma ParseLineStep(types: seq<ColType>, lines: seq<string>, sep: char, k: nat, recs: seq<Record>)
    requires |types| >= 1
    requires k < |lines|
    requires Parse(types, lines[..k], sep) == Ok(recs)
    ensures !IsDataLine(lines[k]) ==> Parse(types, lines[..k + 1], sep) == Ok(recs)
    ensures IsDataLine(lines[k]) && |Split(lines[k], sep)| == |types| ==>
              Parse(types, lines[..k + 1], sep) == Ok(recs + [DecodeRecord(types, Split(lines[k], sep))])
    ensures IsDataLine(lines[k]) && |Split(lines[k], sep)| != |types| ==>
              Parse(types, lines, sep) == Err(RangeError(|recs| + 1, |Split(lines[k], sep)|, |types|))
  {
    var done := CheckRows(DataLines(lines[..k]), sep, |types|).value;
    CheckRowsLineStep(lines, sep, |types|, k, done);
    if IsDataLine(lines[k]) && |Split(lines[k], sep)| == |types| {
      var rows' := done + [Split(lines[k], sep)];
      assert rows'[..|rows'| - 1] == done;
    }
  }

  // ---------------------------------------------------------------------------
  // The heterogeneous store

  /** Each record is decoded from the row of tokens at its position. */
  lemma {:induction false} DecodeAllElements(types: seq<ColType>, rows: seq<seq<string>>)
    requires |types| >= 1
    requires forall i :: 0 <= i < |rows| ==> |rows[i]| == |types|
    ensures forall i :: 0 <= i < |rows| ==> DecodeAll(types, rows)[i] == DecodeRecord(types, rows[i])
  {
    if rows != [] {
      var init := rows[..|rows| - 1];
      DecodeAllElements(types, init);
      assert forall i :: 0 <= i < |init| ==> init[i] == rows[i];
    }
  }

  /**
    The heterogeneous parse succeeds exactly when every data line has as many
    tokens as there are declared columns; it then holds one record per data
    line, in file order, each decoded from that line's tokens and conforming
    to the declared column types.
  */
  lemma ParseSuccess(types: seq<ColType>, lines: seq<string>, sep: char)
    requires |types| >= 1
    ensures Parse(types, lines, sep).Ok? <==>
              forall i :: 0 <= i < |DataLines(lines)| ==> |Split(DataLines(lines)[i], sep)| == |types|
    ensures Parse(types, lines, sep).Ok? ==>
              var recs := Parse(types, lines, sep).value;
              && |recs| == |DataLines(lines)|
              && forall i :: 0 <= i < |recs| ==>
                   && recs[i] == DecodeRecord(types, Split(DataLines(lines)[i], sep))
                   && Conforms(types, recs[i])
  {
    var rows := DataLines(lines);
    CheckRowsFirstMismatch(rows, sep, |types|);
    CheckRowsShape(rows, sep, |types|);
    match CheckRows(rows, sep, |types|)
    case Err(e) =>
      assert Parse(types, lines, sep) == Err(e);
      var i :| 0 <= i < |rows| && |Split(rows[i], sep)| != |types|;
      assert !Parse(types, lines, sep).Ok?;
      assert !forall j :: 0 <= j < |rows| ==> |Split(rows[j], sep)| == |types|;
    case Ok(toks) =>
      var recs := DecodeAll(types, toks);
      DecodeAllElements(types, toks);
      assert Parse(types, lines, sep) == Ok(recs);
      forall i | 0 <= i < |recs|
        ensures |Split(rows[i], sep)| == |types|
        ensures recs[i] == DecodeRecord(types, Split(rows[i], sep)) && Conforms(types, recs[i])
      {
        assert toks[i] == Split(rows[i], sep);
      }
  }

  /**
    On failure the heterogeneous parse reports the first data line whose token
    count is not the number of declared columns: its position among the data
    lines counted from 1, its count, and the column count.
  */
  lemma ParseFailure(types: seq<ColType>, lines: seq<string>, sep: char)
    requires |types| >= 1
    requires Parse(types, lines, sep).Err?
    ensures var e := Parse(types, lines, sep).error;
            var rows := DataLines(lines);
            && 1 <= e.row <= |rows|
            && e.actual == |Split(rows[e.row - 1], sep)|
            && e.actual != e.expected == |types|
            && forall j :: 0 <= j < e.row - 1 ==> |Split(rows[j], sep)| == |types|
  {
    var rows := DataLines(lines);
    CheckRowsFirstMismatch(rows, sep, |types|);
    match CheckRows(rows, sep, |types|)
    case Ok(_) =>
    case Err(e) =>
      assert Parse(types, lines, sep) == Err(e);
  }

  /** Empty and comment lines neither add a record nor cause an error. */
  lemma ParseIgnoresSkippedLine(types: seq<ColType>, a: seq<string>, line: string, b: seq<string>, sep: char)
    requires |types| >= 1
    requires !IsDataLine(line)
    ensures Parse(types, a + [line] + b, sep) == Parse(types, a + b, sep)
  {
    SkippedLineIgnored(a, line, b);
  }

  // ---------------------------------------------------------------------------
  // The homogeneous store

  /**
    The homogeneous parse, with the count `cols` given or (when 0) inferred
    from the first data line: it succeeds exactly when every data line has the
    expected number of tokens; its rows are the data lines' tokens in file
    order, all of one width.
  */
  lemma ParseStrSuccess(lines: seq<string>, sep: char, cols: nat)
    ensures var rows := DataLines(lines);
            ParseStr(lines, sep, cols).Ok? <==>
              forall i :: 0 <= i < |rows| ==> |Split(rows[i], sep)| == ExpectedCols(rows, sep, cols)
    ensures var rows := DataLines(lines);
            ParseStr(lines, sep, cols).Ok? ==>
              var recs := ParseStr(lines, sep, cols).value;
              && |recs| == |rows|
              && forall i :: 0 <= i < |recs| ==>
                   recs[i] == Split(rows[i], sep) && |recs[i]| == |recs[0]|
  {
    var rows := DataLines(lines);
    CheckRowsFirstMismatch(rows, sep, ExpectedCols(rows, sep, cols));
    CheckRowsShape(rows, sep, ExpectedCols(rows, sep, cols));
  }

  /**
    A failed homogeneous parse reports the first data line of the wrong width:
    its number among the data lines (from 1), its token count, and the
    expected count, every earlier data line having that count.
  */
  lemma ParseStrFailure(lines: seq<string>, sep: char, cols: nat)
    requires ParseStr(lines, sep, cols).Err?
    ensures var e := ParseStr(lines, sep, cols).error;
            var rows := DataLines(lines);
            && 1 <= e.row <= |rows|
            && e.actual == |Split(rows[e.row - 1], sep)|
            && e.actual != e.expected == ExpectedCols(rows, sep, cols)
            && forall j :: 0 <= j < e.row - 1 ==> |Split(rows[j], sep)| == e.expected
  {
    var rows := DataLines(lines);
    CheckRowsFirstMismatch(rows, sep, ExpectedCols(rows, sep, cols));
  }

  /**
    With an inferred count the first data line can never be the one at fault:
    a failure names a later data row, and the expected count it reports is
    positive (every line has at least one token, so the count is fixed once).
  */
  lemma InferredCountFirstRowAccepted(lines: seq<string>, sep: char)
    requires ParseStr(lines, sep, 0).Err?
    ensures ParseStr(lines, sep, 0).error.row >= 2
    ensures ParseStr(lines, sep, 0).error.expected >= 1
  {
    var rows := DataLines(lines);
    CheckRowsFirstMismatch(rows, sep, ExpectedCols(rows, sep, 0));
  }

  /**
    An explicit count that equals the first data line's width gives the same
    outcome (records, or error) as letting the reader infer the count; and
    any explicit count with which the parse succeeds is such a count.
  */
  lemma InferredMatchesExplicit(lines: seq<string>, sep: char, cols: nat)
    requires cols > 0
    requires ParseStr(lines, sep, cols).Ok?
             || (DataLines(lines) != [] && cols == |Split(DataLines(lines)[0], sep)|)
    ensures ParseStr(lines, sep, 0) == ParseStr(lines, sep, cols)
  {
    var rows := DataLines(lines);
    CheckRowsShape(rows, sep, cols);
    CheckRowsShape(rows, sep, ExpectedCols(rows, sep, 0));
    if rows == [] {
    } else if ParseStr(lines, sep, cols).Ok? {
      assert ParseStr(lines, sep, cols).value[0] == Split(rows[0], sep);
    }
  }

  /** Empty and comment lines neither add a row nor cause an error. */
  lemma ParseStrIgnoresSkippedLine(a: seq<string>, line: string, b: seq<string>, sep: char, cols: nat)
    requires !IsDataLine(line)
    ensures ParseStr(a + [line] + b, sep, cols) == ParseStr(a + b, sep, cols)
  {
    SkippedLineIgnored(a, line, b);
  }
}
