# tabstream in Dafny

A model of the filters of `tabstream`, a small Python 2 library of filters
over header-tagged row streams, and of its two earlier iterations, the `csvx`
package and the `csvx` module. A header-tagged stream yields a header (a tuple
of column labels) first and rows (tuples of values) after it. A filter maps
such a stream to another one. The filters are:

- `pad`: repairs row lengths;
- `select`: projects rows by column names;
- `make_field_adder`: appends a derived column;
- `delete_fields`: drops columns;
- `rename`: relabels, duplicates and overwrites columns;
- `add_row_number`: numbers the rows;
- `pipe`: composes filters.

A generator's run is modelled by what it produces: the header (unless the run
stops before one), the rows, and the exception raised after them, if any
(`Streams.Stream`). The loop `for row in stream: yield f(row)` is
`Streams.Drain`. Each filter the source writes as a generator loop is a
method with a loop over the rows. The method is proved equal to a function
that gives the whole run, and the library's promises are proved as lemmas
about those functions.

Files:

- `streams.dfy`: values, errors, streams, `list.index`, the generator loop.
- `extractors.dfy`: names resolved to positions; `itemgetter` and the tuple-always extractor.
- `tabstream.dfy`: `pad`, `select`, `make_field_adder`, `delete_fields`, `add_row_number`, `pipe`.
- `ordering.dfy`: the sort key of `rename` and the sort itself.
- `renaming.dfy`: `rename`.
- `pipeline.dfy`: the eager header pull shared by the filters, and its effect on a pipe.
- `csvx_package.dfy`: the `csvx` package.
- `csvx_script.dfy`: the `csvx` module.

Notes on the semantics followed:

- **Header-less input.** In `tabstream`, `stream_filter` pulls the header when
  the filter is applied, so an input with no header raises StopIteration (or
  the input's own exception). The `csvx` filters pull the header inside the
  generator body. Python 2 ends a generator quietly when StopIteration escapes
  its body, so there an empty input gives an empty run.
- **Selecting no column.** `select` with no column name raises the TypeError
  of `operator.itemgetter()` (`NoIndices`). It raises eagerly, once the header
  has been read.
- **Iteration order in `rename`.** The order in which `rename` visits its map
  is a parameter, `order`, constrained only to list each key once. The model
  proves that this order changes nothing but which missing label an
  AssertionError reports.

## Model

| member | source | states |
|---|---|---|
| Streams.FirstIndex | tabstream/__init__.py:48 | `header.index(x)`: absent exactly when `x` is not in the sequence, otherwise a position holding `x` with no earlier occurrence |
| Streams.Drain | tabstream/__init__.py:124-125 | a generator loop yields the step results up to the first step that raises, then that exception; if no step raises, the input's exception passes through |
| Streams.DrainUnique | tabstream/__init__.py:124-125 | any output that agrees with the steps up to the first raising one is the run of the loop |
| Extractors.GetItems | tabstream/__init__.py:71 | `itemgetter(*indices)` on a row: the values at the indices, one per index, or IndexError when any index is past the row |
| Extractors.FieldsFor | tabstream/__init__.py:56-71 | `_fields_extractor_for`: always a tuple of length `len(indices)` whose k-th value is `row[indices[k]]`, including the 0- and 1-index cases; IndexError for a short row |
| Extractors.Resolve | tabstream/__init__.py:75 | names resolve to their leftmost positions, one per name and in order, when all occur; otherwise ValueError for the first missing name |
| Extractors.ExtractByNames | tabstream/__init__.py:74-76 | `_fields_extractor_by_names` applied to a row gives the value at each name's leftmost position, in request order, exactly when the row is long enough |
| Extractors.ExtractHeader | tabstream/__init__.py:121-123 | projecting the header by names it holds gives back the names |
| Tabstream.PadRow | tabstream/__init__.py:27-35 | one row of `pad`: kept when of header length, filled with empty strings to header length when shorter (prefix unchanged), ValueError when longer |
| Tabstream.Pad | tabstream/__init__.py:18-35 | the generator loop of `pad` produces the run `Padded` |
| Tabstream.PadContract | tabstream/__init__.py:22-35 | header first and unchanged; every emitted row is the input row plus `len(header)-len(row)` empty strings, so it has header length; the first long row raises ValueError and nothing follows |
| Tabstream.PadIdentity | tabstream/__init__.py:28-29 | a stream whose rows all have header length passes unchanged |
| Tabstream.PadIdempotent | tabstream/__init__.py:18-35 | padding twice is padding once |
| Tabstream.Select | tabstream/__init__.py:38-53 | header-less input raises at once; the result is a row stream exactly when the names are non-empty and all in the header; no names raises TypeError; otherwise ValueError names a missing name |
| Tabstream.SelectRows | tabstream/__init__.py:48-51 | each output is the values at the first index of each requested name, in request order with repeats, bare for a single name; a short row raises IndexError and ends the run |
| Tabstream.MakeFieldAdder | tabstream/__init__.py:79-94 | the generator loop of the field adder produces the run `FieldAdded` |
| Tabstream.FieldAdderContract | tabstream/__init__.py:87-92 | header gains the output label at the end; an unknown input name raises ValueError right after the header; each row keeps its values and gains `derive` of its input values, so it grows by one |
| Tabstream.AddedThenDeleted | tabstream/__init__.py:87-92 | deleting the added column gives back the input, for a header without repeats not holding the output label and rows of header length |
| Tabstream.Surviving | tabstream/__init__.py:118-119 | the surviving labels are exactly the header's labels not to be deleted |
| Tabstream.SurvivingAppend | tabstream/__init__.py:118-119 | survivors keep their relative order: deletion distributes over concatenation |
| Tabstream.SurvivingIgnoresAbsent | tabstream/__init__.py:118-119 | doomed names absent from the header do not change the survivors |
| Tabstream.DeleteFields | tabstream/__init__.py:113-127 | the generator loop of `delete_fields` produces the run `FieldsDeleted` |
| Tabstream.DeleteFieldsContract | tabstream/__init__.py:117-125 | header becomes the survivors in original order; each row becomes the values at the survivors' positions, of the header's length; a short row raises IndexError and ends the run |
| Tabstream.DeleteFieldsIgnoresAbsent | tabstream/__init__.py:118-119 | deleting names absent from the header is a no-op |
| Tabstream.DeleteFieldsIdempotent | tabstream/__init__.py:117-125 | applying the same deletion twice equals applying it once |
| Tabstream.DeleteFieldsRepeatedLabel | tabstream/__init__.py:121 | example: deleting an absent label from header `(a,b,a)` turns row `(1,2,3)` into `(1,2,1)`, because both `a` columns are read at the first `a` (the general rule is in `DeleteFieldsContract`) |
| Tabstream.AddRowNumber | tabstream/__init__.py:178-187 | the label goes in front of the header and row k (from 0) is preceded by the number k+1 |
| Tabstream.NumberedThenDeleted | tabstream/__init__.py:182-185 | deleting the number column gives back the input, for a header without repeats not holding the label and rows of header length |
| Tabstream.Pipe | tabstream/__init__.py:190-197 | the loop that reassigns the stream applies the filters first to last |
| Tabstream.PipeOrder | tabstream/__init__.py:194-196 | `pipe(f1, f2)(s) == f2(f1(s))` |
| Tabstream.ComposedAppend | tabstream/__init__.py:190-197 | a pipe of pipes is the pipe of all their filters |
| Pipeline.FiltersPullHeader | tabstream/__init__.py:9-15 | `pad`, the field adder, `delete_fields` and `add_row_number` pull the header when applied: on an input that raised before its header they raise the same exception, on an empty input StopIteration |
| Pipeline.RenamePullsHeader | tabstream/__init__.py:162-163 | `rename` pulls the header in the same way, before its assertion is checked |
| Pipeline.PipeHeaderless | tabstream/__init__.py:190-197 | a pipe of one or more such filters fails at once on an input without a header, with the input's own exception or StopIteration |
| Ordering.StrLessIrreflexive | tabstream/__init__.py:158 | no label sorts before itself |
| Ordering.StrLessTransitive | tabstream/__init__.py:158 | the label order is transitive |
| Ordering.StrLessTotal | tabstream/__init__.py:158 | distinct labels always compare |
| Ordering.KeyLessIrreflexive | tabstream/__init__.py:156-158 | no item's sort key is below itself |
| Ordering.KeyLessTransitive | tabstream/__init__.py:156-158 | the key `(index, label not in header, label)` orders transitively |
| Ordering.KeyLessTotal | tabstream/__init__.py:156-158 | distinct items always compare by key |
| Ordering.Insert | tabstream/__init__.py:160 | inserting adds exactly the one item |
| Ordering.InsertAscending | tabstream/__init__.py:160 | inserting into a key-ordered list keeps it key-ordered |
| Ordering.Sort | tabstream/__init__.py:160 | `sorted(..., key=sort_key)`: a permutation of its input in key order |
| Ordering.AscendingUnique | tabstream/__init__.py:160 | two key-ordered arrangements of the same items are equal, so the sort's result does not depend on the input order |
| Ordering.AscendingStrict | tabstream/__init__.py:160 | key-ordered items without repeats are strictly increasing |
| Renaming.Positions | tabstream/__init__.py:140 | the label-to-index comprehension has exactly the header's labels as keys |
| Renaming.PositionsRightmost | tabstream/__init__.py:140 | with repeated labels the comprehension keeps the last index: a position holding the label with no later occurrence |
| Renaming.FirstUnknown | tabstream/__init__.py:142-143 | the assertion passes exactly when every renamed-from label is in the header; otherwise it names the first missing one in iteration order |
| Renaming.KnownIff | tabstream/__init__.py:142-143 | whether the assertion fails does not depend on the iteration order |
| Renaming.PlanMapMeaning | tabstream/__init__.py:139-151 | the merged map holds the new labels and the unrenamed original labels; a new label maps to its old label's first index, a surviving label to its last index |
| Renaming.MergedIsPlan | tabstream/__init__.py:150 | after the loop, `old_header.update(new_header)` is the merged map |
| Renaming.Items | tabstream/__init__.py:151 | `items()` lists each item of the map once |
| Renaming.ListItems | tabstream/__init__.py:151 | the item listing loop yields each item of the map once |
| Renaming.LabelIndexSeq | tabstream/__init__.py:139-151 | the dict-mutating loop succeeds exactly when no renamed-from label is missing, else raises AssertionError naming the first missing one; on success it lists the merged map's items |
| Renaming.Rename | tabstream/__init__.py:162-173 | the generator loop of `rename` produces the run `Renamed`, whatever order the items were listed in |
| Renaming.PlanItems | tabstream/__init__.py:153-160 | the sorted plan holds exactly the items of the merged map |
| Renaming.PlanStrict | tabstream/__init__.py:153-160 | the plan is strictly ordered by `(index, label not in header, label)`, so no label repeats |
| Renaming.PlanIs | tabstream/__init__.py:153-160 | any repeat-free key-ordered listing of the merged map is the plan |
| Renaming.RenameHeader | tabstream/__init__.py:153-167 | the output header holds each label of the merged map once, sorted by source index, then original-before-new, then label |
| Renaming.RenameRows | tabstream/__init__.py:166-173 | each output row has the header's length and holds under each label the value at its source index; a short row raises IndexError |
| Renaming.RenameOrderIndependent | tabstream/__init__.py:139-151 | a missing renamed-from label raises AssertionError naming some missing label in every order; otherwise every iteration order gives the same run |
| Renaming.InPlaceHeader | tabstream/test.py:254-300 | when the relabelling is in place, each column keeps its position under the label renamed from it, or its own label |
| Renaming.InPlaceRows | tabstream/test.py:254-300 | in-place relabelling keeps the row values, cut to the header's length |
| Renaming.RenameInPlace | tabstream/test.py:254-300 | the in-place, swap and special-character tests: columns stay in place under their new labels, values unmoved |
| Renaming.RenameOverwrite | tabstream/test.py:266-276 | `b='a'` on `(a,b,c,d)`, `(1,2,3,4)` gives `(b,c,d)`, `(1,3,4)` |
| Renaming.RenameSwap | tabstream/test.py:278-288 | `b='a', a='b'` gives `(b,a,c,d)`, `(1,2,3,4)` |
| Renaming.RenameDuplicate | tabstream/test.py:302-312 | `d='a', a='a'` on `(a,b)`, `(1,2)` gives `(a,d,b)`, `(1,1,2)` |
| CsvxPackage.Pad | csvx/__init__.py:16-33 | `pad` of the package produces the run `Padded` |
| CsvxPackage.PadContract | csvx/__init__.py:16-33 | header re-emitted first; rows padded with empty strings to header length, equal-length rows unchanged; a long row raises ValueError; an empty input gives an empty run |
| CsvxPackage.PadVersions | csvx/__init__.py:16-20 | the package's `pad` agrees with tabstream's on every input except an empty one, where tabstream raises StopIteration |
| CsvxPackage.FieldsExtractor | csvx/__init__.py:54-67 | `_fields_extractor`: a name missing from the header raises ValueError; otherwise a tuple of length `len(fields)` whose k-th value is at the first index of `fields[k]`, or IndexError for a short row |
| CsvxPackage.MakeFieldAdder | csvx/__init__.py:70-89 | the package's field adder produces the run `FieldAdded` |
| CsvxPackage.FieldAdderContract | csvx/__init__.py:78-87 | output label appended to the header; each row keeps its values in place and gains `derive` of its input values; an unknown input name raises right after the header |
| CsvxPackage.FieldAdderVersions | csvx/__init__.py:78-81 | the package's field adder agrees with tabstream's on every input except an empty one |
| CsvxPackage.DeleteFields | csvx/__init__.py:108-123 | the package's `delete_fields` produces the run `FieldsDeleted` |
| CsvxPackage.DeleteFieldsContract | csvx/__init__.py:112-121 | survivors keep their order; names absent from the header change nothing; header and rows go through the same extractor, so lengths agree |
| CsvxPackage.DeleteFieldsIdempotent | csvx/__init__.py:112-121 | deleting twice is deleting once |
| CsvxPackage.DeleteFieldsVersions | csvx/__init__.py:112-113 | the package's `delete_fields` agrees with tabstream's on every input except an empty one |
| CsvxPackage.SelectEager | csvx/__init__.py:44-51 | whether `select` raises, and what, depends on the header and names only, not on any row |
| CsvxScript.FixMissingColumns | csvx.py:6-22 | `fix_missing_columns` produces the run of the package's `pad` |
| CsvxScript.FixMissingColumnsContract | csvx.py:7-22 | header yielded first, unchanged; equal-length rows unchanged; shorter rows get exactly the missing number of empty strings; every row before the first long one is yielded, that row raises ValueError carrying it and nothing follows; otherwise the run ends as the input does |
| CsvxScript.Select | csvx.py:25-36 | header-less input raises at once; an unknown name raises ValueError before any row is produced; no names raises TypeError; otherwise each row yields the values at the names' leftmost positions, in request order with repeats, bare for a single name, and a short row raises IndexError and ends the run |

## Left out

- `selectx` (csvx.py): opening an external file, text decoding and CSV parsing are I/O and foreign library calls.
- The decorators `field_adder` and `add_field`: they read a function's name and argument names by introspection. `make_field_adder` is modelled with an explicit output label, input names and derivation function.
- The derivation function of `make_field_adder` is any total function from the input values to one value. Exceptions it might raise, and the float arithmetic of the examples, are not modelled.
- Values are text or integers. Row container types (`row.__class__`, tuples against lists) and `functools.wraps` metadata are not modelled.
- Laziness: a run is modelled as a finite sequence, and an unending input is not covered. The model does not capture when an error is raised relative to the consumer's pulls. For example, `tabstream` pulls the header as soon as a filter is applied.
- Renaming.Renamed: takes the mapping as given. The choice between `new_to_old_dict` and keyword arguments (`new_to_old_dict or new_to_old_kw`) is argument handling and is not modelled.
- Renaming.Renamed: assumes assertions are enabled. Under `python -O` the assertion in `rename` is stripped and a missing label raises ValueError from `header.index` instead; this is not modelled.
- Renaming.LabelIndexSeq: Python leaves the dict iteration order unspecified. The model takes it as a parameter, `order`, and lists the items of the merged map in an unspecified order.
- CsvxPackage.Pad, CsvxPackage.MakeFieldAdder, CsvxPackage.DeleteFields and CsvxScript.FixMissingColumns: their row loops are the same code as tabstream's, so they run `Tabstream.Pad`, `Tabstream.MakeFieldAdder` and `Tabstream.DeleteFields` rather than a copy of the loop.
