# NumCpp Series and readCSV, modelled in Dafny

This project models two parts of the NumCpp header library:

- The indexed `Series` container. It is a sequence of (index label, value) entries. It is built either from two parallel vectors, which must have the same size, or from values alone, in which case the labels are 0..n-1. Its `sort()` reorders the entries by ascending value.
- The CSV loader `readCSV`. It turns every line of a file into a row of numbers. It can discard the first field of each line. It yields nothing when the file does not open or when a cell does not convert.

Layout:

- `wrappers.dfy` (module `Wrappers`):
  - `Option` stands for the null `shared_ptr`;
  - `Result` stands for a constructor that throws.
- `series.dfy` (module `Series`):
  - the entries, both constructors, `sort()`, and the properties of sorting.
- `parse.dfy` (module `Parse`):
  - how `std::getline(ss, cell, ',')` splits a line into fields;
  - conversion of the fields;
  - `readCSV` twice over: once as pure functions (`ParseLine`, `ReadRows`, `LoadRows`), and once as methods whose loops follow the C++ loops (`NextCell`, `ReadLine`, `ReadCsv`);
  - proofs that the two agree.

Modelling choices:

- **Values.** Values are `real`. This gives a total order with no NaN and no rounding. `std::sort` needs a strict weak order, and on reals `a.data < b.data` is one.
- **Index type.** The index label type is generic. The one-vector constructor builds `size_t` positions and converts each to the index type; that conversion is the parameter `toLabel` (the identity for a `size_t` index, `n % 256` for `uint8_t`).
- **Sorting.** `std::sort` is not stable, so `sort()` is specified as a relation, `IsSortOf`: the result is a permutation of the entries and its values ascend. The relation says nothing about the order of entries with equal values. `InsertionSort` is one concrete order that satisfies it; `Sort` uses it.
- **The file.** The file is `Option<seq<string>>`:
  - `None` when it cannot be opened;
  - otherwise the lines exactly as `std::getline(file, line)` delivers them.
- **Number conversion.** `std::stod` is the parameter `parseCell: string -> Option<real>`. It answers `None` where `stod` throws `std::invalid_argument`.
- **Splitting rules** (`SplitFields`):
  - an empty line gives no field, and so an empty row;
  - `"a,,b"` gives three fields, the middle one empty;
  - a trailing comma adds no empty last field;
  - `","` gives one empty field.
- **Skipping the first field.** When `skip_first_col` is set, the first field of every line is extracted by `getline` but dropped without being converted. The skip flag is fresh on every line.
- **One null result.** `readCSV` returns the same null pointer when the file does not open (Parse.hpp:21-24) and when a cell does not convert (Parse.hpp:45-48). Only the `std::cerr` messages tell the two apart. The model gives `None` for both.

## Model

| member | source | states |
|---|---|---|
| Series.Zip | Series.hpp:31-33 | entry i holds index[i] and data[i], so there are as many entries as data values; reading the value and label columns back gives exactly the two input vectors |
| Series.FromVectors | Series.hpp:26-34 | fails exactly when the two vectors differ in size, with the fixed `invalid_argument` message; otherwise entry i pairs index[i] with data[i], and unzipping the series returns both vectors |
| Series.Iota | Series.hpp:38-39 | the enumeration of size n whose element i is i |
| Series.FromData | Series.hpp:36-44 | never fails; entry i holds data[i] and is labelled with position i converted to the index type; the value column is the input and the label column is the converted 0..n-1 |
| Series.SizeLabelsEnumerate | Series.hpp:38-42 | with a `size_t` index the label column is exactly 0..n-1 |
| Series.RelabelIdentity | Series.hpp:42 | converting positions by the identity, as `emplace_back` does for a `size_t` index, keeps every label |
| Series.ByteLabelsWrap | Series.hpp:38-42 | with a `uint8_t` index the label of position 256 wraps to 0, the label of position 0 |
| Series.Insert | Series.hpp:46-51 | into entries already ascending by value, adds exactly one more copy of the new entry and keeps the values ascending |
| Series.InsertionSort | Series.hpp:46-51 | returns a permutation of its input whose values ascend |
| Series.Sort | Series.hpp:46-51 | the result is a permutation of the entries, ascending by value, of the same size; every entry of the result was an entry before |
| Series.PermutationKeepsColumns | Series.hpp:47-50 | entries move as whole pairs, so any reordering keeps the multiset of values and the multiset of labels |
| Series.SortedValuesDetermined | Series.hpp:46-51 | however equal values are arranged, any two sorts of the same entries have the same value sequence |
| Series.SortTwiceSameValues | Series.hpp:46-51 | sorting twice gives the value sequence of sorting once, with the size unchanged |
| Series.SortOfSortedKeepsValues | Series.hpp:46-51 | sorting a series whose values already ascend leaves its value sequence unchanged |
| Series.SortOfShortIsIdentity | Series.hpp:46-51 | a series of zero or one entries is unchanged by sorting |
| Series.EqualValuesMayTrade | Series.hpp:47-50 | the comparator `a.data < b.data` does not order two different entries of equal value: both arrangements are valid sorts, and they differ |
| Series.SortedEnumerationKeepsLabels | Series.hpp:36-51 | after sorting a series built from values alone, the labels are still a permutation of 0..n-1, the values a permutation of the input, and the values ascend |
| Parse.CommaFrom | Parse.hpp:35 | where one `getline(ss, cell, ',')` stops: at the first comma at or after the position, or at the end of the line when no comma follows |
| Parse.SplitFields | Parse.hpp:30-35 | a line yields no field exactly when it is empty |
| Parse.NextCell | Parse.hpp:35 | one extraction takes a comma-free cell that is the first of the remaining fields; the position moves past the cell and its comma |
| Parse.StepFields | Parse.hpp:35 | the fields of the text from a position on are the cell up to the next comma (or the end), then the fields of the text after that comma |
| Parse.FieldsHoldNoComma | Parse.hpp:35 | no extracted field contains a comma |
| Parse.JoinSplit | Parse.hpp:30-35 | joining the fields with commas, plus any trailing comma, gives the line back |
| Parse.SplitAfterField | Parse.hpp:35 | a comma-free field, a comma and more text split into that field followed by the fields of the text |
| Parse.SplitJoin | Parse.hpp:30-35 | splitting the join of comma-free fields, the last of them non-empty, gives the fields back |
| Parse.ParseCells | Parse.hpp:42-48 | yields a row exactly when every cell converts; the row then holds the conversions of all cells, in order |
| Parse.ParseLine | Parse.hpp:29-52 | yields a row exactly when every field after the skipped one converts; the row holds exactly those conversions, in field order |
| Parse.ReadLine | Parse.hpp:29-52 | the cell loop, with its fresh skip flag, its `continue` and its early return, computes ParseLine |
| Parse.ReadRows | Parse.hpp:28-53 | yields rows exactly when every line parses; then there is one row per line, and row i is line i's row |
| Parse.LoadRows | Parse.hpp:16-58 | an unopened file yields nothing; otherwise it yields rows exactly when every line parses, one per line, and row i is what ParseLine gives for line i |
| Parse.ReadCsv | Parse.hpp:16-58 | the line loop computes LoadRows on every input |
| Parse.EmptyLineGivesEmptyRow | Parse.hpp:29-52 | an empty line still pushes a row, an empty one, with or without skipping |
| Parse.LabelOnlyGivesEmptyRow | Parse.hpp:32-52 | with skipping on, a line of one field gives an empty row, whatever the field says |
| Parse.SkipDropsFirstField | Parse.hpp:32-40 | with skipping on, the first field is never converted: the line parses as its text after the first comma parses without skipping |
| Parse.NoSkipConvertsEveryField | Parse.hpp:37-48 | with skipping off, every field of the line is converted |
| Parse.ReadRowsSnoc | Parse.hpp:28-53 | reading one more line extends the rows so far by that line's row, and fails when either the earlier lines or the new line fail |
| Parse.BadLineAbortsLoad | Parse.hpp:42-48 | one line that does not parse makes the whole load yield nothing |
| Parse.ReadRowsAppend | Parse.hpp:28-53 | lines are parsed independently: the rows of two runs of lines are the rows of each run, concatenated, and either run failing fails the whole |
| Parse.BadCellAbortsLoad | Parse.hpp:42-48 | one unconvertible kept cell anywhere in the file leaves the whole call without a result, including the rows already read |
| Parse.LoadedCell | Parse.hpp:35-52 | on success, row i has one number per kept field of line i, and its cell j is the conversion of the j-th kept field |
| Parse.TwoCellLine | Parse.hpp:29-52 | a labelled line of two convertible cells gives the row of the two numbers when the label is skipped |
| Parse.TwoLineFile | Parse.hpp:28-53 | a file of two lines that both parse loads as their two rows, in order |
| Parse.LabelledExample | Parse.hpp:16-58 | the file "label1,1.0,2.0" / "label2,3.0,4.0" with the labels skipped loads as [[1.0, 2.0], [3.0, 4.0]] |

## Left out

- Stats.hpp: the statistics functions are floating-point arithmetic and are not part of this model.
- `Series::print`: it writes to the console.
- The `Numeric` concept and the value type's width. Values are reals, so there is no NaN, no infinity and no rounding.
- `Series.Iota`, `Series.FromData`: `std::iota` counts in `int`, the type of its literal 0, so from 2^31 values on its counter overflows, which is undefined behaviour. The model's positions are unbounded naturals.
- The algorithm inside `std::sort`: only its guarantee is modelled. The order in which a given implementation leaves entries of equal value is not modelled.
- Opening and closing the file, the `std::cerr` diagnostics, and `shared_ptr` ownership. The file arrives as its lines, and a null result is `None`.
- How `std::getline` cuts the file into lines: line terminators, a final newline and `'\r'` characters. The lines are an input.
- The internals of `std::stod` are abstract:
  - leading whitespace;
  - conversion of a numeric prefix such as "1.5abc";
  - hexadecimal and "inf"/"nan" spellings;
  - the `std::out_of_range` exception, which escapes `readCSV` uncaught.
- The default argument `skip_first_col = true` of the declaration. Every model operation takes the flag explicitly.
