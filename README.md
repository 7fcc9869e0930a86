# CSV analysis core in Dafny

This project models a small C++ CSV-analysis library and proves properties of the model. The library:

- loads a comma-separated file into a `CSV` table: a header map and rows of string cells;
- reads cells by header name and row index (`at_col_row`);
- fills a `CSV_Stat_View` with `to_stat_view`. This groups the rows that a `CSV_Filter` keeps by the cell in a name column, and reduces the numbers of a data column in each group with `mean`, `median` or `mode`;
- queries stat views with `gt` (the keys where one view is above another) and `bottom_n` (the keys with the `n` lowest values).

Modules, in the library's own order:

- `LineParser` (`line_parser.dfy`): `parse_next_line` over a `LineStream` class that stands for the input stream. The `getline`-based split is a loop (`SplitFields`), specified by the functions `Split` and `Fields`. Round-trip lemmas relate those to `Join`.
- `Table` (`table.dfy`): `CSV_Row`, plus the header map and the rows that a list of lines gives. It also proves that writing a table out and loading it back returns the same table, provided every row is writable. A row is writable when it has no cells, or when no cell holds ',' or '\n' and its last cell is non-empty and does not end in '\r'.
- `Filter` (`filter.dfy`): `Comparison`/`Equals_Str` and `CSV_Filter`, modelled as datatypes.
- `Grouping` (`grouping.dfy`): the `collection` map that the first loop of `to_stat_view` builds, together with a reference definition for each group.
- `Stats` (`stats.dfy`): `mean`, `median` and `mode`, implemented as loops and in-place array algorithms. Each is proved against a definition of what it computes: the sum over the count, the element of rank ⌊n/2⌋, and the most frequent value with the smallest value winning ties.
- `Sorting` (`sorting.dfy`): one in-place partial selection sort. It stands for both `std::sort` and `std::nth_element`.
- `KeyOrder` (`key_order.dfy`): the string order and the ascending key order in which a `std::map` is iterated.
- `StatViews` (`stat_view.dfy`): `CSV_Stat_View` as a class with a mutable `view` map, covering `operator[]`, `get_sm`, `gt` and `bottom_n`.
- `CsvTable` (`csv.dfy`): the `CSV` class, covering the constructor, `at_col_row` and both `to_stat_view` overloads. Its fields are constants set by the constructor, since nothing changes a table after it is loaded.
- `CsvExample` (`example.dfy`): a worked end-to-end instance of a filtered aggregation.

Inputs and conversions are modelled as follows:

- The input file is a sequence of lines. A file that cannot be opened is an empty sequence.
- `stod` is a parameter of type `string -> real`.
- Doubles are mathematical reals.

## Model

| member | source | states |
|---|---|---|
| LineParser.SplitFields | csv.cpp:238-241 | The getline loop returns `Fields(line)`: the ','-separated pieces, with the last piece dropped when it is empty. The fields hold no ','. They join back to the line when it does not end in ','. |
| LineParser.SplitJoin | csv.cpp:240-241 | Joining the pieces of any text with ',' gives the text back. |
| LineParser.SplitCommaFree | csv.cpp:240-241 | No piece holds a ','. |
| LineParser.JoinSplit | csv.cpp:240-241 | Splitting a join of comma-free pieces gives the pieces back. |
| LineParser.FieldsSpec | csv.cpp:238-241 | An empty line has no fields. A line not ending in ',' has exactly its pieces as fields. A line ending in ',' loses only its final empty piece. Fields hold no ','. |
| LineParser.SplitLastEmpty | csv.cpp:240-241 | The last piece is empty exactly when the text is empty or ends in ','. |
| LineParser.StripCRSpec | csv.cpp:235-236 | Exactly one trailing '\r' is removed, and only when there is one. |
| LineParser.ParseLineJoin | csv.cpp:229-245 | A writable row of cells, written as one line and parsed, gives back the same cells. Writable means no cells at all, or no cell holding ',' or '\n' and a last cell that is non-empty and does not end in '\r'. |
| LineParser.Split | csv.cpp:240-241 | The ','-separated pieces of a text. There is always at least one piece. |
| LineParser.Fields | csv.cpp:238-241 | The fields that the getline loop collects are the pieces, with at most the last one dropped. |
| LineParser.StripCR | csv.cpp:235-236 | Removing the trailing '\r' leaves a prefix of the line that is at most one character shorter. |
| LineParser.ParseLine | csv.cpp:229-241 | The fields of a line with its '\r' removed. No field holds ','. |
| LineParser.LineStream.constructor | csv.cpp:105-106 | A fresh stream is at its first line. |
| LineParser.ParseNextLine | csv.cpp:229-245 | At the end of input: returns 0, leaves the container and the position as they were. Otherwise: returns 1, consumes one line, and sets the container to that line's fields without its trailing '\r'. |
| Table.Row.At | csv.hpp:70-72 | `operator[]` returns one of the row's cells. |
| Table.HeaderFields | csv.cpp:108-109 | The parsed first line, or no fields for an empty input. No field holds ','. |
| Table.HeaderMap | csv.cpp:111-116 | Every column index in the header map lies within the header fields. |
| Table.DataRows | csv.cpp:121-125 | One row per line after the first. |
| Table.DataRowAt | csv.cpp:121-125 | Row `j` is the parse of line `j + 1`. |
| Table.DataRowsStep | csv.cpp:121-125 | Reading one more line appends its row. |
| Table.HeaderMapSpec | csv.cpp:112-116 | The header map's keys are exactly the header fields. Each key maps to an in-range column holding that name, and no later column holds it (a duplicate name keeps its last index). |
| Table.HeaderOnce | csv.cpp:112-116 | A header that occurs once maps to its own column. |
| Table.LoadWritten | csv.cpp:104-127 | Loading a file of one header line and one line per row gives back those headers and those rows, in order, when the header and every row are writable. |
| Table.WrittenRowAt | csv.cpp:121-125 | Each written row loads back unchanged. |
| Filter.Comparison.GetVal | csv.hpp:21-23 | `get_val` returns the literal the comparison was built with. |
| Filter.Comparison.Holds | csv.hpp:33 | `Equals_Str` holds exactly for strings equal to its literal. |
| Filter.CsvFilter.Accepts | csv.hpp:49-51 | The default filter accepts everything. A filter with a comparison accepts exactly what the comparison holds for. |
| Filter.CsvFilter.GetHeader | csv.hpp:49-52 | The default filter's header is empty. Otherwise the header is the one given at construction. |
| Filter.EqualsFilterSpec | csv.hpp:30-34 | An equality filter on header `h` accepts exactly the cells equal to its literal, and reports `h`. |
| Grouping.Passes | csv.cpp:145-146 | The filter call `f(...)`, with `operator()` as in csv.hpp:51. The default filter keeps every row. A comparison filter keeps exactly the rows whose filter cell exists and equals the filter's literal. |
| Grouping.Groups | csv.cpp:141-153 | The `collection` map. Every group is non-empty and has no more values than there are rows. |
| Grouping.InRangePrefix | csv.cpp:141-153 | If the cells that the grouping reads exist for all rows, they exist for every prefix of the rows. |
| Grouping.GroupsStep | csv.cpp:142-153 | One loop step adds the row's converted data cell to the end of its name's group, when the filter keeps the row. |
| Grouping.NamedStep | csv.cpp:142-153 | A name is used by the kept rows exactly when earlier rows or the last row use it. |
| Grouping.GroupsKeys | csv.cpp:141-153 | The groups are exactly the names of the kept rows. |
| Grouping.GroupsValues | csv.cpp:141-153 | Each group holds its name's kept values in row order, which equals the per-name reference definition. Other names have no values. |
| Grouping.GroupsNonEmpty | csv.cpp:141-153 | No group is empty. |
| Grouping.GroupsSpec | csv.cpp:141-153 | Combines the three lemmas above: keys iff kept names, values in row order, non-empty. |
| Grouping.GroupsAllKept | csv.hpp:51 | A filter that keeps every row gives the same groups as the default filter. |
| Grouping.GroupsNoneKept | csv.cpp:145-146 | A filter that keeps no row gives no groups. |
| Stats.ComputeMean | csv.cpp:182-190 | `mean` returns the sum divided by the count. |
| Stats.SumPerm | csv.cpp:182-190 | The sum does not depend on the order of the values. |
| Stats.ComputeMedian | csv.cpp:192-197 | After `nth_element` at n = size/2, the array is a permutation of the input, partitioned around n. The result is the element at n, which is the element of rank n of the input. |
| Stats.PartitionRank | csv.cpp:195-196 | The element at n of an array partitioned around n has rank n. |
| Stats.RankOfSorted | csv.cpp:192-197 | The element of rank n is the element at n of any ascending rearrangement. |
| Stats.RankUnique | csv.cpp:192-197 | At most one value has rank n. |
| Stats.AscendingRank | csv.cpp:192-197 | In an ascending sequence, the element at n has rank n. |
| Stats.CountPerm | csv.cpp:192-197 | Rank counts do not depend on order. |
| Stats.PermHead | csv.cpp:192-197 | The first element of one permutation sits somewhere in the other, and the rests are permutations of each other. |
| Stats.CountMonotone | csv.cpp:192-197 | Fewer elements lie at or below a value than below a larger one. |
| Stats.ComputeMode | csv.cpp:199-227 | The model leaves the array sorted and a permutation of the input (the C++ `mode` also removes its first element). It returns the most frequent value, the smallest of those on a tie. |
| Stats.ModeOfSorted | csv.cpp:201-226 | The run scan over ascending values returns that value. |
| Stats.ModeUnique | csv.cpp:199-227 | The mode is unique. |
| Stats.ModeExampleMajority | csv.cpp:199-227 | The mode of [3, 1, 2, 2, 1, 2] is 2. |
| Stats.ModeExampleTie | csv.cpp:199-227 | The mode of [5, 5, 1, 1] is 1 (a tie goes to the smaller value). |
| Stats.StatOrderIrrelevant | csv.cpp:157-169 | Each reducer's result depends only on the multiset of values. |
| Stats.StatUnique | csv.cpp:157-169 | Each reducer has at most one result. |
| Stats.RealLeTotalPreorder | csv.cpp:200 | `<` on doubles (as reals) sorts by a total preorder. |
| Sorting.SortPrefix | csv.cpp:83 | The array ends as a permutation of itself whose first k positions are each at or below every later position. k = length is `std::sort`; k = n + 1 is `std::nth_element` at n. |
| Sorting.MinIndex | csv.cpp:83 | Returns the position of a least element of the tail. |
| Sorting.Swap | csv.cpp:83 | Exchanges two positions, keeping the multiset. |
| KeyOrder.Less | csv.hpp:101 | The `std::string` order puts a proper prefix before its extensions, and nothing is below the empty string. |
| KeyOrder.LessIrreflexive | csv.hpp:101 | The string order is irreflexive. |
| KeyOrder.LessTransitive | csv.hpp:101 | The string order is transitive. |
| KeyOrder.LessTotal | csv.hpp:101 | The string order is total on distinct strings. |
| KeyOrder.StrictlyAscendingDistinct | csv.hpp:101 | Keys in ascending order repeat no key. |
| KeyOrder.LeastExists | csv.hpp:101 | Every non-empty key set has a least key. |
| KeyOrder.AscendingUnique | csv.hpp:101 | Two ascending key lists with the same members are equal, so map iteration order is determined. |
| KeyOrder.OrderedKeys | csv.cpp:157 | Iterating a map visits each key exactly once, in ascending order. |
| StatViews.StatView.constructor | csv.cpp:60 | A new view is empty and keeps its reducer. |
| StatViews.StatView.GetSm | csv.hpp:93 | `get_sm` returns the reducer. |
| StatViews.StatView.At | csv.cpp:90-92 | Reading `view[s]` yields the stored value, or 0.0 after inserting `s` with 0.0 when it is missing. Nothing else changes. |
| StatViews.StatView.Set | csv.cpp:90-92 | Writing through `view[s]` stores the value under `s`. |
| StatViews.Get0 | csv.cpp:66 | A key's value, or the 0.0 that `map::operator[]` inserts for a missing key. |
| StatViews.Above | csv.cpp:65-68 | The walk over the other view's keys keeps only keys it was given that the other view holds, and never more keys than it was given. |
| StatViews.StatView.Gt | csv.cpp:63-70 | `gt` returns, in ascending order, exactly the keys of the other view whose value here (0.0 if absent) is strictly greater. Absent keys end up inserted here with 0.0, and every existing value is kept. |
| StatViews.AboveSpec | csv.cpp:63-70 | Keeps exactly the listed keys that pass the comparison, preserving ascending order. |
| StatViews.GreaterKeysUnique | csv.cpp:63-70 | The result of `gt` is the only list meeting its specification. |
| StatViews.GtSelf | csv.cpp:63-70 | A view is never above itself: `a.gt(a)` is empty. |
| StatViews.AboveSelf | csv.cpp:63-70 | With the same view on both sides, the filtered walk keeps no key. |
| StatViews.StatView.BottomN | csv.cpp:73-88 | `bottom_n(n)` returns n distinct keys of the view (none for a negative n), ascending by (value, key). Each is at or below, by (value, key), every key left out. |
| StatViews.Inverted | csv.cpp:77-80 | The inverted list holds every (value, key) entry of the view exactly once, in key order. |
| StatViews.SortEntries | csv.cpp:83 | Sorting the pairs gives a permutation ascending by (value, key). |
| StatViews.TakeKeys | csv.cpp:84-86 | Returns the keys of the first n pairs. |
| StatViews.EntriesPerm | csv.cpp:83 | A rearrangement of an entry list is an entry list. |
| StatViews.LowestEntries | csv.cpp:83-86 | The first keys of a sorted entry list are distinct view keys, ascending, and at or below every other entry. |
| StatViews.PairLess | csv.cpp:83 | The `std::pair` order compares values first: a smaller value is less, and a pair is never less than one with a smaller value. |
| StatViews.PairLeTotalPreorder | csv.cpp:83 | Pair order is a total preorder. |
| StatViews.DistinctMultiset | csv.cpp:83 | A list has no repeats exactly when every element occurs at most once in its multiset. |
| CsvTable.Csv.constructor | csv.cpp:104-127 | After loading, the header map, the column count, the rows and the row count agree with the header line and the data lines (`Valid`). |
| CsvTable.IndexHeaders | csv.cpp:111-117 | The header loop builds the header map and counts the columns. |
| CsvTable.ReadRows | csv.cpp:119-126 | The read loop collects one row per remaining line, in order, counts them, and stops with the stream at its end. |
| CsvTable.Csv.ColumnOf | csv.cpp:131 | `headers[h]` is h's column, or 0 for an unknown header. |
| CsvTable.Csv.AtColRow | csv.cpp:130-132 | Returns a cell of row i. |
| CsvTable.CellOfLine | csv.cpp:130-132 | The cell is field `headers[h]` of line i + 1. That is the last column named h, or column 0 when no column is named h. |
| CsvTable.Csv.Collect | csv.cpp:141-153 | The first loop builds exactly the grouping of the kept rows. |
| CsvTable.Reduce | csv.cpp:158-168 | The reducer chosen by the view's method gives mean, median or mode of the group. |
| CsvTable.ReduceInto | csv.cpp:155-169 | Every group's key gets its reduced value. Keys without a group keep their values, and no other key is added. |
| CsvTable.Csv.ToStatView | csv.cpp:135-170 | The view gains exactly the names of the kept rows. Each holds the reducer's result over its group's values in row order. Other keys are untouched. |
| CsvTable.Csv.ToStatViewAll | csv.cpp:173-176 | The same, with the default filter that keeps every row. |
| CsvExample.PracticeSpeeds | csv.cpp:10-13 | For a file with rows (Al, Practice, 10), (Al, Game, 20), (Bo, Practice, 30), filtering on Session_Type == Practice and grouping Max_Speed by Name gives exactly {Al: [10], Bo: [30]}. |
| CsvExample.MeanOfOne | csv.cpp:182-190 | The mean of one value is that value. |
| CsvExample.PracticeView | csv.cpp:155-169 | A mean view whose keys are those of the practice groups {Al: [10], Bo: [30]} holds 10 for Al and 30 for Bo. |
| CsvExample.PracticeMeanSpeeds | csv.cpp:10-13 | Loading the sessions file and running `to_stat_view` with the practice filter into a new mean view gives exactly {Al: 10, Bo: 30}. |

## Left out

- `main` and `CSV_Stat_View::print` are left out, because they only do console output.
- The input stream: the file is given as its sequence of lines, already split at '\n'. A file that cannot be opened gives no lines, which is what a failed `ifstream` returns.
- `stod` is a function parameter. Its exceptions on non-numeric text are not modelled.
- Doubles are real numbers, so rounding, NaN and infinities are not modelled. The count in `mean` is an unbounded integer.
- Undefined behaviour in the source becomes a precondition:
  - `at_col_row` requires the row index and the column to be in range;
  - `to_stat_view` requires the filter, name and data columns to exist in every row it reads (`InRange`);
  - `bottom_n` requires `n` to be at most the number of keys.
- CsvTable.Csv.ToStatView: with the default filter the source still evaluates `at_col_row("", i)` and throws the cell away. The model skips that read. So a row no wider than the column of `headers[""]` is accepted, where the source would read out of range (column 0 unless some column is named "").
- The header lookup `headers[h]` inserts a missing header with column 0. The model gives 0 without inserting. The insertion cannot be observed through the class's operations.
- Comparisons are a datatype with one variant. Pointers and the virtual call are modelled as `Filtered`. `NoOp` is the default filter, whose header is "".
- A filter with a header but a null comparison, `CSV_Filter(h, nullptr)`, cannot be expressed (csv.hpp:50-52). It keeps every row, yet `to_stat_view` still reads column `headers[h]` of each row (csv.cpp:145).
- `init_val` and `get_view` are left out: the first is never used, and the second is only read, as `other.view`, inside `Gt`.
- `mode`'s `v.erase(v.begin())`: the model scans from index 1 of the sorted array and does not shrink it. The caller discards the vector either way.
- `median` and `mode` work on a scratch copy of each group in `Reduce`. The source changes `collection` in place, but never reads it again.
- Table.Row.At: its contract says only that the result is one of the row's cells; DataRowAt and CellOfLine say which.
- CsvTable.Csv.AtColRow: its contract says only that the result is a cell of the row. Which cell it is, is stated by CellOfLine.
- Rows may have any number of cells. The source does not check row widths against the header, and neither does the model.
- An empty line gives no fields, because `getline` fails at once on an empty stream (csv.cpp:240).
- An unknown header reads column 0 (csv.cpp:131).
- `gt` inserts missing keys with 0.0 (csv.cpp:66).
