# file-reader: a Dafny model of the CSV and properties readers

This project models the two line-oriented readers of the `utils` header
library:

- **`CSVFileReader`** reads a CSV file into an in-memory store of records. It
  has two forms:
  - a *heterogeneous* store, with one declared type per column (text, integer
    or floating point);
  - a *homogeneous* store of text fields, whose column count is given or is
    inferred from the first data line.

  Empty lines and lines starting with `#` or `!` are skipped. Each data line is
  split on the separator by the `Tokenizer` functor. Integer columns are
  decoded with the lenient `atoi`/`atol`. The first line of the wrong width
  clears the store and raises a `range_error`. That error carries the number of
  records accepted so far plus one, the line's token count and the expected
  count.
- **`PropertiesFileReader`** reads `key = value` lines into a
  `std::multimap<std::string, std::string>`:
  - the key is the non-whitespace characters before the first separator;
  - comment lines and lines without a key are skipped;
  - the value is the rest of the line, trimmed at both ends.

  `keys()`, `values(key)`, `value(key)` and `operator[]` read the multimap back.

The file is given to the model as the sequence of its lines (`seq<string>`).

## Modules

The definitions below carry no contract of their own. Each is cited here by
the source lines it stands for (paths under `include/`); the lemmas in the
table state their properties.

- `Wrappers`: `Option` and `Result`.
- `LenientParse`: the C library's `atoi`/`atol` as a decimal-prefix parse
  (section 7.22.1.2 and 7.22.1.4 of ISO C11).
  - `Atoi` skips white space, takes an optional sign, then the longest run of
    digits, and gives 0 when there are no digits. It stands for the calls at
    csv_file_reader.h:196 and :198, properties_file_reader.h:166-168 and
    properties_file_reader.h:192-194.
  - `TrimLeft` is the white space `atoi` skips, and also the leading trim of a
    property value (properties_file_reader.h:125-126).
- `Tokenizer`:
  - `Find` is `std::string::find`;
  - `Split` is the tokenizer's result, written as a function, and `Join` is
    its inverse (csv_file_reader.h:292-303);
  - `Tokenize` is the functor's loop, proved equal to `Split`.
- `StringOrder`: `std::string`'s `operator<` (lexicographic). It is proved a
  strict total order, which the multimap relies on.
- `CsvRecords`: the specification of both CSV stores.
  - Column types and fields; `DecodeField` and `CopyToTuple` (`_copyToTuple`).
  - `IsDataLine` and `DataLines`: the kept lines, that is, the non-empty lines
    not starting with `#` or `!` (csv_file_reader.h:225 and :267).
  - `CheckRows`: the width check, stopping at the first bad row
    (csv_file_reader.h:229-234 and :275-280).
  - `Parse`: the heterogeneous outcome (csv_file_reader.h:207-245).
  - `ParseStr` and `ExpectedCols`: the homogeneous outcome
    (csv_file_reader.h:251-288), with the count inferred from the first kept
    line when 0 is given (csv_file_reader.h:272-273).
- `CsvStores`: the two store classes.
  - Each constructor runs its loop (`ReadRecords`, `ReadRows`) and keeps the
    range error it raised in the field `thrown`, because a Dafny constructor
    cannot fail.
  - `Valid()` ties the records and `thrown` to `Parse` / `ParseStr`.
- `Properties`:
  - the line parse, as a function (`ParseProperty`,
    properties_file_reader.h:112-130) and as the constructor's loops
    (`ParseLine`, `ScanKey`, `TrimLeading`, `TrimTrailing`);
    `ParsePropertyCases` is the proof step of `ParseLine`, unfolding
    `ParseProperty` in terms of the scanned key and the separator position;
  - `Parses`: the outcome of each line of a file, in file order
    (properties_file_reader.h:108-133);
  - `Entries`: the pairs the file's lines insert, in file order
    (properties_file_reader.h:132);
  - `ValuesOf`: the values stored under a key, in order
    (properties_file_reader.h:154-171);
  - the multimap, as a key-sorted sequence of pairs where `Insert` places a new
    pair at the upper bound of its key (ISO C++11 section 23.2.4, `a_eq.insert(t)`);
  - the class `PropertiesFileReader`, whose ghost field `entries` lists the
    pairs in file order.

## Model

| member | source | states |
|---|---|---|
| Tokenizer.Tokenize | include/csv_file_reader.h:292-303 | the functor's loop yields exactly the tokens `Split` defines: the text between consecutive separators, then the tail after the last one |
| Tokenizer.Find | include/csv_file_reader.h:296 | `find(sep, init_pos)` returns a position at or after `init_pos` that holds the separator, or npos |
| Tokenizer.FindSkips | include/csv_file_reader.h:296 | no position that `find` passes over holds the separator, so the result is the first occurrence |
| Tokenizer.FindAt | include/csv_file_reader.h:296 | `find` returns the first occurrence of the separator at or after its start |
| Tokenizer.FindNone | include/csv_file_reader.h:296 | `find` returns npos when no position from its start holds the separator |
| Tokenizer.TokenCount | include/csv_file_reader.h:295-301 | a line gives one token more than it has separator characters |
| Tokenizer.EmptyLineHasOneToken | include/csv_file_reader.h:301 | the empty line gives the single empty token |
| Tokenizer.JoinSplit | include/csv_file_reader.h:296-301 | joining the tokens with the separator gives back the line |
| Tokenizer.SplitJoin | include/csv_file_reader.h:296-301 | any non-empty list of separator-free fields is what its join splits into |
| Tokenizer.TokensExcludeSeparator | include/csv_file_reader.h:297 | no token contains the separator |
| Tokenizer.EmptyFieldKept | include/csv_file_reader.h:296-299 | `"a;;b"` gives `["a", "", "b"]` |
| Tokenizer.TrailingSeparatorKept | include/csv_file_reader.h:296-301 | `"a;b;"` gives `["a", "b", ""]` |
| Tokenizer.SplitAfterPrefix | include/csv_file_reader.h:296-301 | splitting the part of a line after a prefix does not depend on the prefix |
| LenientParse.AtoiOfDecimal | include/csv_file_reader.h:196-198 | after leading white space, a decimal numeral of any sign followed by a non-digit decodes to its value |
| LenientParse.AtoiAfterSpace | include/csv_file_reader.h:198 | leading white space does not change the decoded value |
| LenientParse.PositiveNumeral | include/csv_file_reader.h:198 | the digits of a natural number, then a non-digit, decode to that number |
| LenientParse.NegativeNumeral | include/csv_file_reader.h:198 | a minus sign, digits, then a non-digit decode to the negative number |
| LenientParse.AtoiWithoutDigits | include/csv_file_reader.h:198 | text with no digit after the white space and optional sign decodes to 0 instead of failing |
| LenientParse.AtoiTrailingText | include/csv_file_reader.h:198 | `"12x"` decodes to 12 |
| LenientParse.AtoiNonNumeric | include/csv_file_reader.h:198 | `"abc"` decodes to 0 |
| LenientParse.NatDigitsValue | include/csv_file_reader.h:198 | the digit string written for a natural number reads back as that number |
| LenientParse.DigitChar | include/csv_file_reader.h:198 | each digit value has a digit character that reads back as that value |
| LenientParse.DigitRun | include/csv_file_reader.h:198 | the digit run that `atoi` reads is the longest prefix of digits |
| CsvRecords.DecodeField | include/csv_file_reader.h:189-198 | a text column takes the token unchanged, an integer column its lenient `atoi` value, and a field always has its column's type |
| CsvRecords.CopyToTuple | include/csv_file_reader.h:186-203 | decoding from column `pos` on fills exactly the remaining columns, each decoded by its own type from its own token |
| CsvRecords.DecodeRecord | include/csv_file_reader.h:236-237 | a record conforms to the declared types, and field i is token i decoded by column type i |
| CsvRecords.DataLinesAreData | include/csv_file_reader.h:225 | every kept line is non-empty and does not start with `#` or `!` |
| CsvRecords.DataLinesAppend | include/csv_file_reader.h:222-225 | the kept lines of two parts of a file are the kept lines of each, in order |
| CsvRecords.SkippedLineIgnored | include/csv_file_reader.h:225 | an empty or comment line anywhere in the file contributes no kept line |
| CsvRecords.ParseIgnoresSkippedLine | include/csv_file_reader.h:225 | an empty or comment line changes neither the heterogeneous records nor its error |
| CsvRecords.ParseStrIgnoresSkippedLine | include/csv_file_reader.h:267 | an empty or comment line changes neither the homogeneous rows nor its error, whatever the column count |
| CsvRecords.CheckRowsShape | include/csv_file_reader.h:227-239 | a passing check keeps the tokens of every row, each of the expected width; a failing one names a row among the input and the expected count |
| CsvRecords.CheckRowsFirstMismatch | include/csv_file_reader.h:229-234 | the width check fails exactly when some row has the wrong width, and then reports the first such row (from 1) with its count, every earlier row having the expected count |
| CsvRecords.CheckRowsErrorStays | include/csv_file_reader.h:229-234 | once a row has failed, later lines cannot change the outcome |
| CsvRecords.CheckRowsLineStep | include/csv_file_reader.h:225-239 | one line of the loop: a skipped line changes nothing, a good line appends its tokens, a bad one fixes the error for the whole file |
| CsvRecords.ParseLineStep | include/csv_file_reader.h:222-240 | one line of the heterogeneous loop, on the records: skip, append the decoded record, or raise the error for the whole file |
| CsvRecords.DecodeAllElements | include/csv_file_reader.h:236-239 | record i is decoded from row i of tokens |
| CsvRecords.ParseSuccess | include/csv_file_reader.h:222-240 | the heterogeneous parse succeeds exactly when every kept line has as many tokens as there are column types; it then holds one conforming record per kept line, in file order |
| CsvRecords.ParseFailure | include/csv_file_reader.h:229-234 | a failed heterogeneous parse reports the first kept line of the wrong width: its number among kept lines from 1, its token count, and the column count |
| CsvRecords.StrLoopStep | include/csv_file_reader.h:264-283 | one line of the homogeneous loop, with the count inferred on the first kept line when 0 was given: skip, append, or raise the error for the whole file |
| CsvRecords.ExpectedColsOfPrefix | include/csv_file_reader.h:272-273 | the inferred count, once fixed by the first kept line, is the count for the whole file |
| CsvRecords.FirstDataLineOfPrefix | include/csv_file_reader.h:272-273 | the first kept line of a prefix is the first kept line of the file |
| CsvRecords.ParseStrSuccess | include/csv_file_reader.h:264-283 | the homogeneous parse succeeds exactly when every kept line has the expected count; its rows are the kept lines' tokens in order, all as wide as row 0 |
| CsvRecords.ParseStrFailure | include/csv_file_reader.h:275-280 | a failed homogeneous parse reports the first kept line of the wrong width: its number among kept lines from 1, its token count, and the expected count, every earlier kept line having that count |
| CsvRecords.InferredCountFirstRowAccepted | include/csv_file_reader.h:272-275 | with an inferred count the first kept line is always accepted, so an error names row 2 or later and a count of at least 1 |
| CsvRecords.InferredMatchesExplicit | include/csv_file_reader.h:262-282 | giving the first kept line's width explicitly, or any count that succeeds, yields the same records or error as inferring it |
| CsvStores.ReadRecords | include/csv_file_reader.h:222-240 | the heterogeneous loop ends with the records of `Parse`, or with no records and the range error `Parse` reports |
| CsvStores.CsvFileReader.constructor | include/csv_file_reader.h:207-245 | the store holds the outcome of `Parse` on the lines: all records, or none and the raised range error |
| CsvStores.CsvFileReader.Size | include/csv_file_reader.h:72 | `size()` is the number of kept lines after a successful read, 0 after a failed one |
| CsvStores.CsvFileReader.Cols | include/csv_file_reader.h:78 | `cols()` is the number of declared column types, at least 2, and every record has that many fields |
| CsvStores.CsvFileReader.Row | include/csv_file_reader.h:98 | record `row` is the row-th kept line's tokens decoded by the column types, and it conforms to them |
| CsvStores.ReadRows | include/csv_file_reader.h:262-283 | the homogeneous loop ends with the rows of `ParseStr`, or with no rows and the range error `ParseStr` reports |
| CsvStores.CsvFileReaderStr.constructor | include/csv_file_reader.h:251-288 | the store holds the outcome of `ParseStr` on the lines and the given count |
| CsvStores.CsvFileReaderStr.Size | include/csv_file_reader.h:130 | `size()` is the number of kept lines after a successful read, 0 after a failed one |
| CsvStores.CsvFileReaderStr.Cols | include/csv_file_reader.h:136 | `cols()` is the width of every row: the given count, or the first kept line's token count when 0 was given |
| CsvStores.CsvFileReaderStr.Row | include/csv_file_reader.h:156 | row `row` is the tokens of the row-th kept line, `cols()` of them |
| StringOrder.LessIrreflexive | include/properties_file_reader.h:50 | no key orders before itself |
| StringOrder.LessAsymmetric | include/properties_file_reader.h:50 | two keys never order before each other |
| StringOrder.LessTransitive | include/properties_file_reader.h:50 | the key order is transitive |
| StringOrder.LessTotal | include/properties_file_reader.h:50 | of two different keys one orders first |
| StringOrder.Equivalent | include/properties_file_reader.h:50 | keys equivalent under the order are equal |
| StringOrder.NotLessTransitive | include/properties_file_reader.h:50 | "not before" is transitive |
| Properties.NonSpace | include/properties_file_reader.h:114-117 | the key keeps no white space character |
| Properties.NonSpaceAppend | include/properties_file_reader.h:114-117 | the key of a concatenation is the concatenation of the keys |
| Properties.NonSpaceWhole | include/properties_file_reader.h:115-119 | the key is as long as its text exactly when that text has no white space |
| Properties.TrimShape | include/properties_file_reader.h:123-130 | the trimmed value is a slice of the text with only white space cut from either side |
| Properties.Trim | include/properties_file_reader.h:123-130 | a trimmed value is empty, or neither starts nor ends with white space |
| LenientParse.TrimLeft | include/properties_file_reader.h:125-126 | left trimming leaves empty text or text starting with a non-space |
| Properties.TrimRight | include/properties_file_reader.h:128-130 | right trimming leaves empty text or text ending with a non-space |
| Properties.TrimLeftShape | include/properties_file_reader.h:125-126 | left trimming cuts a run of white space off the front and nothing else |
| Properties.TrimRightShape | include/properties_file_reader.h:128-130 | right trimming cuts a run of white space off the back and nothing else |
| Properties.SepIndex | include/properties_file_reader.h:114 | the key scan stops at the first separator, or at the end of a line without one |
| Properties.ScanKey | include/properties_file_reader.h:112-118 | the key loop stops at the first separator and has collected the non-space characters before it |
| Properties.TrimLeading | include/properties_file_reader.h:125-126 | the leading-space loop and `substr` yield the text after the separator, left-trimmed |
| Properties.TrimTrailing | include/properties_file_reader.h:128-130 | the trailing-space loop and `erase` right-trim a value that starts with a non-space, leaving it non-empty |
| Properties.ParseLine | include/properties_file_reader.h:112-130 | the constructor's body for one line computes `ParseProperty`: skip, a pair, or one of the two undefined cases |
| Properties.PropertyKey | include/properties_file_reader.h:112-120 | a kept line has a separator, and its key is the non-space text before the first one, non-empty and not starting with `#` or `!` |
| Properties.KeyCharacters | include/properties_file_reader.h:114-116 | a key contains neither white space nor the separator |
| Properties.PropertyValue | include/properties_file_reader.h:123-130 | a value is the text after the first separator, trimmed, non-empty, with no white space at either end |
| Properties.CommentAfterSpace | include/properties_file_reader.h:119-120 | a line whose first non-space character is `#` or `!` is skipped, even when indented |
| Properties.LineWithSeparator | include/properties_file_reader.h:112-132 | a line with a separator is skipped when its key is empty or a comment, undefined when its value trims to empty, else gives the pair (key, trimmed rest) |
| Properties.LineWithoutSeparator | include/properties_file_reader.h:114-125 | a line without a separator is skipped when its key is empty or a comment or the line has no white space; otherwise the source reads past its end |
| Properties.SepIndexAt | include/properties_file_reader.h:114 | the scan position is the first separator whenever no separator precedes it |
| Properties.SpacedPropertyExample | include/properties_file_reader.h:112-130 | `key = value  ` gives (`key`, `value`) |
| Properties.LaterSeparatorsKeptExample | include/properties_file_reader.h:126 | `a=b=c` gives (`a`, `b=c`) |
| Properties.IndentedCommentExample | include/properties_file_reader.h:119 | `  #a=b` is a comment |
| Properties.BareWordExample | include/properties_file_reader.h:119 | a word without separator or space is skipped |
| Properties.UndefinedWithoutSeparatorExample | include/properties_file_reader.h:119-125 | `a b` passes the key test without a separator and is undefined |
| Properties.UndefinedEmptyValueExample | include/properties_file_reader.h:128-129 | `a=` has an empty value and is undefined |
| Properties.LowerBound | include/properties_file_reader.h:154 | the start of `equal_range`: every earlier key orders before `key`, the one there does not |
| Properties.UpperBound | include/properties_file_reader.h:154 | the end of `equal_range`: no earlier key orders after `key`, the one there does |
| Properties.Insert | include/properties_file_reader.h:132 | inserting adds exactly one pair |
| Properties.InsertSorted | include/properties_file_reader.h:132 | inserting at the upper bound keeps the multimap sorted by key |
| Properties.InsertValues | include/properties_file_reader.h:132 | after inserting, `key` has its earlier values followed by the new one, and other keys are unchanged |
| Properties.EqualRangeKeys | include/properties_file_reader.h:154 | in a sorted multimap the pairs of `key` are exactly those from its lower bound to its upper bound |
| Properties.EqualRange | include/properties_file_reader.h:154-171 | walking `equal_range` visits exactly the values of `key`, in insertion order |
| Properties.HasKeyIffValues | include/properties_file_reader.h:154-158 | a key has values exactly when some pair carries it |
| Properties.ValuesOfAppend | include/properties_file_reader.h:132 | the values of a key in two lists of pairs are those of each, in order |
| Properties.InsertStep | include/properties_file_reader.h:132 | inserting a pair keeps a sorted multimap holding, for every key, the file-order values of the pairs read so far |
| Properties.ReadStep | include/properties_file_reader.h:108-133 | one line of the constructor keeps the multimap in step with the pairs of the lines read |
| Properties.PairsAppend | include/properties_file_reader.h:132 | the pairs of two runs of lines are the pairs of each, in order |
| Properties.ValuesCount | include/properties_file_reader.h:132 | the number of values of a key is the number of lines defining it, so duplicates keep all their pairs |
| Properties.CountPositive | include/properties_file_reader.h:132 | some line defines a key exactly when its count is positive |
| Properties.FirstValue | include/properties_file_reader.h:132 | the first value of a key is the value on the first line defining it |
| Properties.ValuesCountLines | include/properties_file_reader.h:132 | for a file, the number of values of a key is the number of lines that define it |
| Properties.KeyPresentIff | include/properties_file_reader.h:132 | a key is present exactly when some line of the file defines it |
| Properties.FirstValueFromFirstLine | include/properties_file_reader.h:183-187 | the first value of a key is the value on the first line of the file that defines it |
| Properties.ReadProperties | include/properties_file_reader.h:108-133 | the constructor's loop builds a sorted multimap that holds, for every key, the values of the file's lines in file order |
| Properties.PropertiesFileReader.constructor | include/properties_file_reader.h:98-141 | the reader holds the file's pairs in file order in a sorted multimap |
| Properties.PropertiesFileReader.Keys | include/properties_file_reader.h:143-149 | `keys()` lists each key of the file exactly once, in strictly ascending order |
| Properties.PropertiesFileReader.Values | include/properties_file_reader.h:153-179 | `values(key)` is every value of `key` in file order, and empty when the key is absent |
| Properties.PropertiesFileReader.IntValues | include/properties_file_reader.h:163-168 | the numeric `values` are the lenient `atoi` of each stored value, in the same order |
| Properties.PropertiesFileReader.Value | include/properties_file_reader.h:182-199 | `value(key)` and `operator[]` give the first value of `key` in file order exactly when it is present, and otherwise fail with "Property not found: " + key |
| Properties.PropertiesFileReader.IntValue | include/properties_file_reader.h:189-194 | the numeric `value` is the lenient `atoi` of the first value, and fails the same way when the key is absent |

## Left out

- File handling is not modelled: opening the file, the `is_open` check and its `runtime_error`, the `eof`/`getline` loop, and `close`. Input is the sequence of lines, so a final empty line from a trailing newline is one more skipped empty line.
- Floating-point columns and accessors are not modelled: `atof` is not part of this model. A `Float` field keeps its token (`FloatField`), and the properties reader has no floating-point accessor.
- LenientParse.Atoi: uses unbounded integers. It does not model overflow in `atoi`/`atol`, which is undefined behaviour, nor the split between `int` and `long` results.
- `reserve`, `shrink_to_fit` and the initial vector sizes (`numValues || 1`) only affect capacity and are not modelled.
- The variadic template, `std::tuple` and the `static_assert` are not modelled: a list of `ColType` stands for the template arguments.
- The homogeneous store with a non-string `TYPE` is not modelled, because `push_back(values)` compiles only for `std::string`.
- Default arguments (separator `,` or `=`, `cols = 0`) are not modelled: the caller always passes them.
- `begin()` / `end()` iterators are not modelled; the record sequence stands for them.
- The try/catch blocks that rethrow as `runtime_error` are not modelled, since they change no data.
- Properties.PropertiesFileReader.constructor: requires that no line is `Undefined`. The source reads outside the string on a line whose key is non-empty and not a comment, and that either has no separator but contains white space (properties_file_reader.h:125) or has a value that trims to empty (properties_file_reader.h:129). The model names these cases (`ParseProperty` gives `Undefined`) and does not give them a meaning.
- Properties.PropertiesFileReader.constructor: requires ASCII lines. The source keeps bytes of 0x80 and above in the key, because `char` is signed there. It also steps over such a byte while trimming the value. That asymmetry is not modelled.
- CsvStores.CsvFileReader.Row, CsvStores.CsvFileReaderStr.Row and CsvStores.CsvFileReaderStr.Cols: require a row that exists. The source does no bounds check there, and `cols()` on an empty homogeneous store reads `_records[0]`.
- CsvStores.CsvFileReader.constructor: requires at least two column types. One type selects the homogeneous specialization, and none does not compile.
- CsvRecords.DecodeField: `Int` stands for an `int` or `long` column. The source converts the `atoi`/`atol` result to the column's own type (`VAL_TYPE(...)`, csv_file_reader.h:196 and :198). For a `bool`, `char`, `short` or unsigned column that conversion narrows or wraps, so an `unsigned` column holds 4294967295 for the token `-1`, and a `bool` column holds `true` for `2`. That conversion is not modelled; the field holds the `atoi` value. The same holds for the numeric `values` and `value` of the properties reader (`TYPE(...)`, properties_file_reader.h:163-168 and :189-194), modelled by `Properties.PropertiesFileReader.IntValues` and `Properties.PropertiesFileReader.IntValue`.

## Behaviour of the code worth knowing

The model states what the code does in these places:

- `keys()` (properties_file_reader.h:143-149) returns keys in ascending order, the multimap's own order, and not in the order they first appear in the file.
- The range error's message says "Line N" (csv_file_reader.h:233 and :279). N counts the records accepted so far plus one (`_records.size() + 1`), so it is a data-row number from 1, not a physical line of the file.
- `operator[]` of both stores is documented to throw `out_of_range` for a missing row (csv_file_reader.h:96 and :154). It indexes `_records[row]` without a check, so no exception is raised; the model requires a row that exists.
- `values()` is documented to throw `runtime_error` when a value cannot be converted (properties_file_reader.h:73). The conversion is `atoi`/`atol`, which never fails: text without digits gives 0 (`LenientParse.AtoiWithoutDigits`), so no such exception is raised.
- A line is kept as a property only if its key is shorter than the whole line (properties_file_reader.h:119). The code does not test whether a separator was found.
