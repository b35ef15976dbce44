/**
  The two CSV record stores. Each constructor reads the data lines in file
  order, tokenizes each, checks its width, and appends the record; at the
  first row of the wrong width it clears the records and raises the range
  error, which this model keeps in the field `thrown` (a Dafny constructor
  cannot fail). After construction the stores are only read.
*/
module CsvStores {
  import opened Wrappers
  import opened Tokenizer
  import opened CsvRecords

  /** The records and raised error a store holds agree with a parse outcome. */
  predicate Reflects<T(==)>(records: seq<T>, thrown: Option<RangeError>, outcome: Result<seq<T>, RangeError>) {
    match outcome
    case Ok(recs) => records == recs && thrown == None
    case Err(e) => records == [] && thrown == Some(e)
  }

  /**
    The heterogeneous constructor's loop: tokenize each data line, check its
    width, decode it; the first row of the wrong width clears the records
    and raises the range error.
  */
  method ReadRecords(types: seq<ColType>, lines: seq<string>, separator: char)
    returns (records: seq<Record>, thrown: Option<RangeError>)
    requires |types| >= 1
    ensures Reflects(records, thrown, Parse(types, lines, separator))
  {
    records := [];
    thrown := None;
    var k := 0;
    while k < |lines|
      invariant k <= |lines|
      invariant Parse(types, lines[..k], separator) == Ok(records)
    {
      ParseLineStep(types, lines, separator, k, records);
      if IsDataLine(lines[k]) {
        var tokens := Tokenize(lines[k], separator);
        if |tokens| != |types| {
          thrown := Some(RangeError(|records| + 1, |tokens|, |types|));
          records := [];
          return;
        }
        records := records + [DecodeRecord(types, tokens)];
      }
      k := k + 1;
    }
    assert lines[..k] == lines;
  }

  /** `CSVFileReader<TYPES...>`: fixed-arity records with one declared type per column. */
  class CsvFileReader {
    /** The column types, one per template argument. */
    const types: seq<ColType>
    ghost const lines: seq<string>
    ghost const separator: char
    /** `_records`. */
    var records: seq<Record>
    /** The range_error the constructor raised, if any. */
    var thrown: Option<RangeError>

    ghost predicate Valid()
      reads this
    {
      |types| >= 2 && Reflects(records, thrown, Parse(types, lines, separator))
    }

    /**
      Reads the lines. At least two column types are needed: a single type
      selects the homogeneous store, and none does not compile.
    */
    constructor (lines: seq<string>, separator: char, types: seq<ColType>)
      requires |types| >= 2
      ensures this.types == types && this.lines == lines && this.separator == separator
      ensures Valid()
    {
      this.types := types;
      this.lines := lines;
      this.separator := separator;
      var recs, err := ReadRecords(types, lines, separator);
      records := recs;
      thrown := err;
    }

    /** `size()`: one record per data line, none after a failed parse. */
    function Size(): (n: nat)
      reads this
      requires Valid()
      ensures thrown == None ==> n == |DataLines(lines)|
      ensures thrown != None ==> n == 0
    {
      ParseSuccess(types, lines, separator);
      |records|
    }

    /** `cols()`: the number of declared columns, which is every record's width. */
    function Cols(): (n: nat)
      reads this
      requires Valid()
      ensures n == |types| && n >= 2
      ensures forall i :: 0 <= i < |records| ==> |records[i]| == n
    {
      ParseSuccess(types, lines, separator);
      |types|
    }

    /**
      `operator[](row)`: the record of the row-th data line (from 0), decoded by
      the column types. The source does no bounds check, so `row` must be in range.
    */
    function Row(row: nat): (rec: Record)
      reads this
      requires Valid()
      requires row < |records|
      ensures Conforms(types, rec)
      ensures row < |DataLines(lines)| && |Split(DataLines(lines)[row], separator)| == |types|
      ensures rec == DecodeRecord(types, Split(DataLines(lines)[row], separator))
    {
      ParseSuccess(types, lines, separator);
      records[row]
    }
  }

  /**
    The homogeneous constructor's loop: the column count is the one given or,
    when 0 is given, the first data line's token count; the first row of a
    different width clears the rows and raises the range error.
  */
  method ReadRows(lines: seq<string>, separator: char, cols: nat)
    returns (records: seq<seq<string>>, thrown: Option<RangeError>)
    ensures Reflects(records, thrown, ParseStr(lines, separator, cols))
  {
    records := [];
    thrown := None;
    var numValues: nat := cols;
    var k := 0;
    while k < |lines|
      invariant 0 <= k <= |lines|
      invariant StrLoopState(lines, separator, cols, k, numValues, records)
    {
      var line := lines[k];
      StrLoopStep(lines, separator, cols, k, numValues, records);
      if IsDataLine(line) {
        var values := Tokenize(line, separator);
        if |records| == 0 && numValues == 0 {
          numValues := |values|;
        }
        if |values| != numValues {
          thrown := Some(RangeError(|records| + 1, |values|, numValues));
          records := [];
          return;
        }
        records := records + [values];
      }
      k := k + 1;
    }
    assert lines[..k] == lines;
  }

  /** `CSVFileReader<std::string>`: rows of text fields, with a given or inferred width. */
  class CsvFileReaderStr {
    ghost const lines: seq<string>
    ghost const separator: char
    /** The column count passed to the constructor (0: infer it from the first data line). */
    ghost const requestedCols: nat
    /** `_records`. */
    var records: seq<seq<string>>
    /** The range_error the constructor raised, if any. */
    var thrown: Option<RangeError>

    ghost predicate Valid()
      reads this
    {
      Reflects(records, thrown, ParseStr(lines, separator, requestedCols))
    }

    constructor (lines: seq<string>, separator: char, cols: nat)
      ensures this.lines == lines && this.separator == separator && this.requestedCols == cols
      ensures Valid()
    {
      this.lines := lines;
      this.separator := separator;
      this.requestedCols := cols;
      var recs, err := ReadRows(lines, separator, cols);
      records := recs;
      thrown := err;
    }

    /** `size()`: one row per data line, none after a failed parse. */
    function Size(): (n: nat)
      reads this
      requires Valid()
      ensures thrown == None ==> n == |DataLines(lines)|
      ensures thrown != None ==> n == 0
    {
      ParseStrSuccess(lines, separator, requestedCols);
      |records|
    }

    /**
      `cols()`: the width of the first row, which every row shares; it is the
      requested count, or the first data line's token count when 0 was requested.
      The source reads `_records[0]`, so the store must not be empty.
    */
    function Cols(): (n: nat)
      reads this
      requires Valid()
      requires |records| > 0
      ensures forall i :: 0 <= i < |records| ==> |records[i]| == n
      ensures requestedCols != 0 ==> n == requestedCols
      ensures requestedCols == 0 ==> n == |Split(DataLines(lines)[0], separator)|
    {
      ParseStrSuccess(lines, separator, requestedCols);
      |records[0]|
    }

    /** `operator[](row)`: the tokens of the row-th data line; `row` must be in range. */
    function Row(row: nat): (fields: seq<string>)
      reads this
      requires Valid()
      requires row < |records|
      ensures row < |DataLines(lines)| && fields == Split(DataLines(lines)[row], separator)
      ensures |fields| == Cols()
    {
      ParseStrSuccess(lines, separator, requestedCols);
      records[row]
    }
  }
}
