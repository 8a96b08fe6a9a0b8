# ET-Control: a verified model of the framework comparison scripts

ET-Control compares compliance frameworks. A framework maps each control name to the list of
evidence-task (ET) ids the control requires. Given one or more "implemented" frameworks, the
scripts collect every ET id they hold. They then sort each control of a target framework into
one of three buckets:

- **collected**: every required ET is implemented, which includes a control that requires nothing;
- **partially collected**: some required ETs are implemented;
- **outstanding**: none are implemented.

There are two ways to build the frameworks.

- **Catalog mode** (`examine_ETs.py`) reads two exports. The control export registers every
  control under each framework named in its newline-separated column 6. The evidence-task export
  then appends each ET id to the registered controls named in its column 7, under the
  frameworks named in its column 8.
- **Wide-table mode** (`csv-converter.py`) reads one table. Each row adds its ET id to the SOC
  framework under column 4 and to the ISO framework under column 5.

The model works on already-parsed CSV rows (`seq<seq<string>>`, header row removed). The files
and their modules are:

- `strings.dfy` (`Strings`):
  - `Split` is Python's `str.split('\n')`;
  - `Join` is its inverse. No script calls it; it serves only the round-trip lemmas and
    `ContainsTscJoined`;
  - `Less` is the Python 2 ordering of byte strings;
  - `Sorted` is `sorted` over a set of strings.
- `frameworks.dfy` (`Frameworks`):
  - `Framework` is the framework type;
  - `EtIds` and `AllEtIds` are the ET-id union;
  - `Classify` is the `all`/`any` coverage test of one control, and `ClassifiedAs` gives its
    three buckets;
  - `Added` is `add_to_framework_dict` as a function, and `FrameworkTable.Add` is the same
    update done in place;
  - `AddFrameworkEts` is the loop that adds a framework's ET ids to a set.
- `catalog.dfy` (`Catalog`):
  - `Universe` specifies `create_dict_of_frameworks`, and the constructor of `FrameworkCatalog`
    carries it out with the script's nested loops;
  - `Filled` specifies `fill_frameworks_with_ets`, and `FrameworkCatalog.FillWithEts` carries
    it out in place;
  - `Contributions` independently describes what the rows add to one control.
- `examine_ets.dfy` (`ExamineEts`):
  - `FindImplementedEts` is `find_implemented_ETs`;
  - `ControlImplementedStatus` is `control_implemented_status`;
  - `CompareFrameworkEts` gives the counts of `compare_framework_ETs`;
  - `ContainsTsc` is `contains_TSC`.
- `csv_converter.dfy` (`CsvConverter`):
  - `GetFrameworkEts` is `get_framework_ETs`;
  - `ColumnFramework` specifies the row loop of `main`, and `BuildSocIso` carries it out.
- `scenarios.dfy` (`Scenarios`): small concrete exports and what the scripts make of them.

Python 2.7 iterates over a dict in no particular order. The loops over a framework's controls
therefore pick the next control with `:|`. Every contract speaks of sets and counts, never of
the order of the output lists. A Python `IndexError` on a short row becomes a `requires` on row
length:

- the control export needs 7 columns;
- the evidence-task export needs 9 columns;
- the wide table needs 6 columns.

## Model

| member | source | states |
|---|---|---|
| Strings.Split | examine_ETs.py:34 | `str.split('\n')`, character by character: always at least one piece, even for the empty cell |
| Strings.SplitPiecesHaveNoNewline | examine_ETs.py:34 | no piece of a split contains the separator |
| Strings.JoinSplit | examine_ETs.py:34 | joining the pieces with newlines gives back the cell text |
| Strings.SplitJoin | examine_ETs.py:34 | newline-free pieces joined with newlines split back into exactly those pieces |
| Strings.SplitWithoutNewline | examine_ETs.py:57 | a cell without a newline names exactly one item, itself |
| Strings.LessIrreflexive | examine_ETs.py:95 | the Python 2 string order used by `sorted` is irreflexive |
| Strings.LessTransitive | examine_ETs.py:95 | the string order is transitive |
| Strings.LessTotal | examine_ETs.py:95 | any two distinct strings are ordered one way or the other |
| Strings.Sorted | examine_ETs.py:95 | `sorted(ET_set)` is strictly increasing, holds exactly the set's elements, and is as long as the set |
| Frameworks.AllEtIdsMember | examine_ETs.py:89-95 | an id is in the union iff some framework of the list has it in some control list |
| Frameworks.AllEtIdsConcat | examine_ETs.py:89-95 | the union over two lists of frameworks passed one after the other is the union of the two unions |
| Frameworks.AllEtIdsReorder | examine_ETs.py:89-95 | the union depends only on which frameworks are passed, not on their order |
| Frameworks.AllImplementedMeans | examine_ETs.py:108 | Python's `all(...)` holds iff every listed id is implemented |
| Frameworks.AnyImplementedMeans | examine_ETs.py:110 | Python's `any(...)` holds iff some listed id is implemented |
| Frameworks.ClassifyCollected | examine_ETs.py:108-109 | a control is collected iff every required id is implemented, so always when it requires nothing |
| Frameworks.ClassifyPartial | examine_ETs.py:110-111 | partial iff some but not every required id is implemented |
| Frameworks.ClassifyOutstanding | examine_ETs.py:112-113 | outstanding iff the list is non-empty and no required id is implemented |
| Frameworks.ClassifyMonotone | examine_ETs.py:108-113 | implementing more ids never moves a control from collected, nor from partial to outstanding |
| Frameworks.ClassifiedPartition | examine_ETs.py:101-114 | the three buckets are pairwise disjoint, their union is the controls, and their sizes sum to the number of controls |
| Frameworks.ClassifiedMonotone | examine_ETs.py:108-113 | a larger implemented set collects a superset of the controls and leaves a subset outstanding |
| Frameworks.SelfCovered | csv-converter.py:33-48 | against its own ET ids every control of a framework is collected and none is partial or outstanding |
| Frameworks.NoDuplicatesCard | examine_ETs.py:101-114 | a duplicate-free list of controls is exactly as long as the set of its elements |
| Frameworks.Added | examine_ETs.py:78-85 | empty control: unchanged; otherwise the control's list gets `ET_id` appended (or becomes `[ET_id]` if new), the keys gain only that control, and every other control is unchanged |
| Frameworks.AddFrameworkEts | csv-converter.py:33-36 | the loop over a framework's controls and lists adds exactly the framework's ET ids to the set |
| Frameworks.FrameworkTable.Add | csv-converter.py:22-29 | the in-place update leaves the dictionary equal to `Added` of the old one, unchanged for an empty control, other controls untouched |
| Catalog.RegisterUnderEffect | examine_ETs.py:35-42 | registering a control under a list of names creates exactly the missing named frameworks and sets that control to `[]` in each, leaving other entries as they were |
| Catalog.ListedIsRegistered | examine_ETs.py:32-42 | a control whose row lists a framework is registered in that framework |
| Catalog.RegisteredIsListed | examine_ETs.py:32-42 | every registered control comes from a row listing its framework, and its list is empty |
| Catalog.RegisteredFrameworkHasControl | examine_ETs.py:39-42 | no framework is created without a control |
| Catalog.UniverseFrameworks | examine_ETs.py:32-42 | the frameworks created are exactly those named by some row with a non-empty column 6 |
| Catalog.UniverseControls | examine_ETs.py:32-42 | a framework holds exactly the column-1 controls of the rows naming it, each mapped to `[]` |
| Catalog.UniverseRegistersRow | examine_ETs.py:33-42 | after the loop, every framework a row names exists and maps that row's control to `[]` |
| Catalog.FrameworkCatalog.constructor | examine_ETs.py:26-45 | the nested loops of `create_dict_of_frameworks` build exactly `Universe` of the rows |
| Catalog.AppendToControlsKeys | examine_ETs.py:63-69 | the innermost loop never adds a control |
| Catalog.AppendToControlsAt | examine_ETs.py:63-69 | the innermost loop appends the ET id to a known control once per time the row lists it |
| Catalog.FillUnderKeys | examine_ETs.py:59-69 | the middle loop never adds a framework or a control |
| Catalog.FillUnderAt | examine_ETs.py:59-69 | the middle loop appends to control `c` of framework `f` once per listing of `f` times listing of `c` |
| Catalog.FilledKeys | examine_ETs.py:51-73 | `fill_frameworks_with_ets` preserves the set of frameworks and each framework's set of controls, so unknown frameworks and controls are skipped and receive nothing |
| Catalog.FilledAt | examine_ETs.py:51-73 | each control's list becomes its old list followed by exactly the rows' contributions, in row order |
| Catalog.ContributionsMember | examine_ETs.py:56-69 | an id is among the contributions to (`f`, `c`) iff some row has that id in column 0 and lists `f` in column 8 and `c` in column 7 |
| Catalog.SingleRowContributions | examine_ETs.py:57-69 | a row naming one control under one framework contributes its id to exactly that pair, once |
| Catalog.SingleRowFill | examine_ETs.py:57-69 | such a row appends its id to that control of that framework and leaves every other list unchanged |
| Catalog.FrameworkCatalog.FillWithEts | examine_ETs.py:51-73 | the nested loops leave `Filled` of the old dictionaries: same keys at both levels, each list extended by its contributions |
| ExamineEts.FindImplementedEts | examine_ETs.py:89-95 | the result is strictly sorted, has no duplicates, and holds exactly the ET ids of the given frameworks |
| ExamineEts.ControlImplementedStatus | examine_ETs.py:101-114 | each list is exactly its bucket of the non-`'label'` controls; together they list every non-`'label'` control exactly once, never `'label'`, and their lengths sum to the number of such controls |
| ExamineEts.BucketsComplete | examine_ETs.py:101-114 | duplicate-free lists holding the three buckets concatenate to a duplicate-free list of all the controls, bucket by bucket as long as the buckets |
| ExamineEts.CompareFrameworkEts | examine_ETs.py:136-143 | `col_num`, `par_num` and `out_num` are the bucket sizes for the union of the implemented frameworks, and `all_num` is the number of non-`'label'` controls |
| ExamineEts.ContainsTscJoined | examine_ETs.py:235-241 | on newline-joined codes, true iff the code is empty or is one of the codes |
| ExamineEts.ContainsTscNewline | examine_ETs.py:235-241 | a code containing a newline never matches |
| CsvConverter.GetFrameworkEts | csv-converter.py:32-48 | the counts are the bucket sizes of `fw2` against the ET ids of `fw1`; they sum to the number of controls; comparing a framework with itself gives all completed |
| CsvConverter.CountBuckets | csv-converter.py:38-48 | duplicate-free bucket lists are as long as the buckets and add up to the number of controls |
| CsvConverter.CellOccursPrefix | csv-converter.py:100-105 | a cell value occurs in the rows iff it occurs in the earlier rows or in the last |
| CsvConverter.ColumnFrameworkContents | csv-converter.py:100-105 | after the row loop a control is a key iff it is a non-empty cell of the column, and maps to the ids of the rows carrying it, in row order |
| CsvConverter.IdsWithCellAbsent | csv-converter.py:100-105 | a cell value that no row carries has no ids |
| CsvConverter.IdsWithCellMember | csv-converter.py:100-105 | the ids listed for a control are exactly the column-0 ids of the rows carrying it |
| CsvConverter.BuildSocIso | csv-converter.py:97-105 | the row loop builds two distinct fresh dictionaries: SOC from column 4 and ISO from column 5 |
| Scenarios.WideTableExample | csv-converter.py:100-105 | two rows with different controls in one column give one ET per control |
| Scenarios.SplitTwoNames | examine_ETs.py:34 | a two-line cell names two frameworks |
| Scenarios.CatalogExample | examine_ETs.py:32-42 | a control listed under two frameworks is registered, with no ETs, under both |
| Scenarios.ComparisonExample | examine_ETs.py:89-113 | a control whose ET is implemented is collected; one whose ET is elsewhere is outstanding |

## Left out

- File and CSV input: `open`, `csv.reader`, `parse_csv` (csv-converter.py:10-19) and the skipped
  header row. Rows are given already parsed, without their header.
- The `sys.exit` error paths on malformed CSV. They belong to the input side. `parse_csv` would
  raise `NameError` there, because `csv-converter.py` never imports `sys`.
- `output_to_file`, all console printing, and the float percentage at examine_ETs.py:147. That
  percentage is floating point, and it divides by zero when the target has no controls.
- Chart rendering (`dual_stacked_bar`, `single_stacked_bar`, `create_visuals`). It is
  matplotlib and numpy presentation.
- The hard-coded file names and framework labels of both `main` functions, outside the row loop
  of `csv-converter.py`.
- `main` of `examine_ETs.py` stores the framework's name as a string under the key `'label'`
  (`x['label'] = label1`). A framework's values are ET lists here, so that entry cannot be
  written. `control_implemented_status` skips the key, and the model does the same.
  `find_implemented_ETs` would iterate over the characters of the label string. That
  behaviour is not modelled.
- Strings are Python 2 byte strings, modelled as `seq<char>`. The order `sorted` uses is the
  code-point order on those characters.
- The dictionaries are modelled as values, and the in-place updates as reassignments of
  the `map` fields of `FrameworkTable` and `FrameworkCatalog`. No two dictionaries or ET lists
  of the core share storage, so no aliasing is lost.
- Output order: Python 2.7 dict iteration order is unspecified, so no contract speaks of the
  order of the three bucket lists.
