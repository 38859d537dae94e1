# KDE localization statistics page: a verified model of its data engine

The statistics page of `kde-localization` loads a JSON list of records. Each record is a path `folder/file` with three
message counts: translated, fuzzy and untranslated. The page then:

- groups the records into folders and sums them;
- shows the grand totals with their percentages and the change since the previous load;
- lays out a table of folder rows, each followed by the rows of its files;
- re-sorts that table when a column header is clicked.

This project models that engine, with the DOM left out. Table rows are plain records holding the integers the cells were
written from. The modules follow the page's own parts:

| file | module | what it models |
|---|---|---|
| `strings.dfy` | `Strings` | the string order the `item` column sorts by |
| `records.dfy` | `Records` | the `{translated, fuzzy, untranslated}` counts and the `path.split('/')` of a record |
| `aggregation.dfy` | `Aggregation` | the `data.forEach` loop that fills `folderStats` and the grand totals, and the folder list `Object.entries` yields |
| `summary.dfy` | `Summary` | the three percentages of the sum display, in integer tenths, and the delta tracker over `lastTotal*` |
| `sortspecs.dfy` | `SortSpecs` | the `currentSort` state machine of the header click handler, and `getColumnIndex` |
| `ranking.dfy` | `Ranking` | `sortTable`: the comparator, the stable sort (an insertion sort, on arrays in place), the `fileRowsMap` grouping and the folder-then-files layout |
| `statspage.dfy` | `StatsPage` | the rows `addRow` appends, the bar-width clamp, and a `Dashboard` class holding the page's state across loads and clicks |

Each loop of the page is a method with a loop and its invariants. Each such method is proved against a function that
specifies it, and the properties are lemmas about those functions:

- folder sums and grand totals;
- the grouping is a partition in first-seen order;
- the percentages lie in range and add up to 100.0%;
- the deltas add up;
- the sort is a stable permutation that is idempotent;
- the table shows each folder's own files.

The page's module-level variables (`currentSort` and the three `lastTotal*`) and its table are the fields of
`StatsPage.Dashboard`. `Load` and `SelectColumn` keep the invariant `Valid()`: folder titles are distinct, and the table
is a fixed point of ranking under the current sort spec.

## Model

| member | source | states |
|---|---|---|
| Strings.Compare | kde-localization/stats.js:23 | the `item` comparison of two titles is -1, 0 or 1, and 0 exactly when the titles are equal |
| Strings.CompareAntisymmetric | kde-localization/stats.js:23 | swapping the titles negates the comparison |
| Strings.CompareTransitive | kde-localization/stats.js:23 | "not after" between titles is transitive, so the `item` comparator is a total order |
| Records.PlusAssoc | kde-localization/stats.js:94-100 | proof helper of `Aggregation.GroupsGain` and `Summary.DeltasTelescope`: adding counts field by field is associative |
| Records.PlusSwap | kde-localization/stats.js:94-100 | proof helper of `Aggregation.GroupsGain`: the order in which two counts are added to a running sum does not matter |
| Records.FolderKey | kde-localization/stats.js:89 | the folder of a path, `path.split('/')[0]`: its shape is `Records.FolderKeyShape` |
| Records.FileName | kde-localization/stats.js:89 | the file of a path, the second segment of `path.split('/')`: its shape is `Records.FileNameShape`, and it rebuilds the path with `Records.JoinSplit` |
| Records.FolderKeyShape | kde-localization/stats.js:89 | the folder key is a prefix of the path, holds no `/`, and is followed by `/` when shorter than the path |
| Records.FileNameShape | kde-localization/stats.js:89 | the file name (second segment of the split) holds no `/` |
| Records.SplitJoin | kde-localization/stats.js:89 | splitting `folder/file` gives back the folder and the file when neither holds a `/` |
| Records.FolderKeyWhole | kde-localization/stats.js:170 | a name without `/` is its own `data-folder` (the folder rows' attribute) |
| Records.FolderKeyOfJoin | kde-localization/stats.js:134 | the `data-folder` of the file row `folder/...` is `folder` whatever follows the first `/` |
| Records.KeyShorter | kde-localization/stats.js:89 | a path holding `/` has a folder key shorter than itself |
| Records.KeyThenRest | kde-localization/stats.js:89 | a path is its folder key, a `/`, and the rest |
| Records.JoinSplit | kde-localization/stats.js:89 | a path with exactly one `/` is rebuilt from its folder key and file name |
| Aggregation.FolderOrder | kde-localization/stats.js:91-92 | the reference order of the dictionary's keys, each folder where its first record is: distinct and exactly the records' keys (`Aggregation.FolderOrderKeys`), in first-seen order (`Aggregation.FirstSeenOrder`) |
| Aggregation.FilesOf | kde-localization/stats.js:102 | the reference file list of folder `k`, the entries of its records in input order (`Aggregation.FilesStep`, `Aggregation.EntryInPrefix`) |
| Aggregation.TotalOf | kde-localization/stats.js:98-100 | the reference grand totals, the sum of all records' counts (`Aggregation.TotalOfStep`, `Aggregation.GrandTotals`) |
| Aggregation.GroupOf | kde-localization/stats.js:91-102 | the reference entry of folder `k`: its file list and their sum (`Aggregation.GroupOfOwn`, `Aggregation.GroupOfOther`) |
| Aggregation.Grouped | kde-localization/stats.js:131 | the reference `Object.entries(folderStats)`: one group per folder in first-seen order (`StatsPage.GroupNames`), whose sums give the grand totals (`Aggregation.GrandTotals`) |
| Aggregation.Aggregate | kde-localization/stats.js:81-103 | the loop yields the folder groups of `Grouped` and the grand totals `TotalOf`; the folder sums add up to the grand totals and the files number the records |
| Aggregation.Accumulate | kde-localization/stats.js:86-103 | after the loop the dictionary holds exactly the folders seen, in first-seen insertion order, each with its records' entries in input order and their sum, and the three running totals are the sums over all records |
| Aggregation.Entries | kde-localization/stats.js:131 | reading the dictionary in insertion order gives the groups of `Grouped`, one per folder in first-seen order |
| Aggregation.FolderOrderKeys | kde-localization/stats.js:91-92 | the folder list holds each folder key of the records once and nothing else |
| Aggregation.GroupsOf | kde-localization/stats.js:131 | one group per folder key, group `i` being that of key `i` (`StatsPage.GroupsAt`) |
| Aggregation.FilesStep | kde-localization/stats.js:102 | record `i` is appended to its own folder's file list and to no other |
| Aggregation.OrderStep | kde-localization/stats.js:91-92 | record `i` adds its folder to the end of the order exactly when that folder was not seen before |
| Aggregation.FirstFile | kde-localization/stats.js:91-102 | the first record of a folder starts that folder's file list with its own entry |
| Aggregation.Advance | kde-localization/stats.js:91-102 | bringing record `i`'s folder entry up to date, with every other entry unchanged, advances the loop state by one record |
| Aggregation.AccumulateNew | kde-localization/stats.js:91-102 | a record of an unseen folder creates a zeroed entry at the end of the insertion order, and the loop state then covers one more record |
| Aggregation.AccumulateSeen | kde-localization/stats.js:94-102 | a record of a seen folder adds to the existing entry, and the loop state then covers one more record |
| Aggregation.TotalOfStep | kde-localization/stats.js:98-100 | one more record adds its counts to the grand totals |
| Aggregation.NoKeyNoFiles | kde-localization/stats.js:91-102 | a folder key no record has gets no files |
| Aggregation.SumGroupsSnoc | kde-localization/stats.js:131 | one more group adds its sums and its files to the overall sums and file count |
| Aggregation.GroupOfOther | kde-localization/stats.js:94-102 | a record leaves the groups of other folders unchanged |
| Aggregation.GroupOfOwn | kde-localization/stats.js:94-102 | a record adds its counts and its entry to its own folder's group |
| Aggregation.GroupsUnchanged | kde-localization/stats.js:91-102 | a record of a folder outside the given keys leaves their groups unchanged |
| Aggregation.DistinctSplit | kde-localization/stats.js:131 | proof helper of `Aggregation.GroupsGain` and `Aggregation.GroupsGainEntry`: a distinct key list without its last key stays distinct, and a key is the last one or in the rest, not both |
| Aggregation.GroupsGain | kde-localization/stats.js:94-100 | a record of a listed folder raises the sum over the groups by exactly its counts |
| Aggregation.GroupsGainEntry | kde-localization/stats.js:102 | a record of a listed folder adds exactly one file entry over all groups |
| Aggregation.SeenFolderStep | kde-localization/stats.js:91-102 | a record of a folder seen before keeps the folder list and raises the sums by its counts and the file count by one |
| Aggregation.NewFolderGroups | kde-localization/stats.js:91-92 | a record of a new folder appends that folder's group to the earlier groups |
| Aggregation.NewFolderGroup | kde-localization/stats.js:91-102 | the new folder's group holds just this record's counts and entry |
| Aggregation.NewFolderStep | kde-localization/stats.js:91-102 | a record of a new folder raises the sums by its counts and the file count by one |
| Aggregation.GrandTotals | kde-localization/stats.js:94-100 | the sums over all folders are the grand totals, and the files over all folders number the records |
| Aggregation.RecordInItsFolder | kde-localization/stats.js:89-102 | every record's folder is listed, its entry is in that folder's files, and it adds no entry to any other folder |
| Aggregation.EntryInPrefix | kde-localization/stats.js:102 | the entry of any record is in the file list of its folder |
| Aggregation.FirstSeenOrder | kde-localization/stats.js:131 | the folders come in first-seen order: before any record of a later folder there is a record of every earlier folder |
| Summary.FloorDiv | kde-localization/stats.js:107-108 | `Math.floor` of an exact quotient, for divisors of either sign |
| Summary.Percentages | kde-localization/stats.js:106-109 | the three shares in tenths add up to exactly 1000 (100.0%); the translated and fuzzy ones are the floors of their exact shares; the untranslated one is within two tenths above its exact share |
| Summary.PercentagesInRange | kde-localization/stats.js:106-109 | with counts that are not negative and some messages, each share lies between 0 and 1000 tenths |
| Summary.FullyTranslated | kde-localization/stats.js:107 | the translated share is 100.0% exactly when nothing is fuzzy or untranslated |
| Summary.ShareBounds | kde-localization/stats.js:107-108 | a floored share of a count between none and all is at most 100.0%, and not negative |
| Summary.ShareNotNegative | kde-localization/stats.js:107-108 | the floored share of a count that is not negative is not negative |
| Summary.LessTimes | kde-localization/stats.js:107-108 | proof helper of `Summary.ShareBounds`, `Summary.PercentagesInRange` and `Summary.FullyTranslated`: a positive factor cancels from both sides of `<=` |
| Summary.MulMono | kde-localization/stats.js:107-108 | proof helper of `Summary.ShareNotNegative` and `Summary.LessTimes`: multiplying by a factor that is not negative keeps the order |
| Summary.Unset | kde-localization/stats.js:2-4 | the last totals before the first load, -1 each; from them the first load shows no change (`Summary.FirstLoadNoDelta`) |
| Summary.Deltas | kde-localization/stats.js:111-119 | when the previous untranslated total was positive, the last totals plus the deltas are the current totals; otherwise all deltas are 0 |
| Summary.FirstLoadNoDelta | kde-localization/stats.js:2-4 | from the initial last totals -1 the first load shows no change |
| Summary.DeltaZeroIff | kde-localization/stats.js:115-119 | after a load with untranslated messages, the next load shows no change exactly when its totals are the same |
| Summary.Previous | kde-localization/stats.js:121-123 | the last totals a load sees: the totals of the load before it, or the initial ones, as the unconditional overwrite leaves them (`Summary.DeltaTrace`) |
| Summary.DeltaTrace | kde-localization/stats.js:111-123 | a sequence of loads shows one set of deltas per load |
| Summary.DeltasTelescope | kde-localization/stats.js:115-123 | while every previous load had untranslated messages, the first totals plus all deltas shown give the last totals |
| Summary.TraceStartsAtZero | kde-localization/stats.js:2-4 | from the page's initial state, the first of any sequence of loads shows no change |
| SortSpecs.DefaultSort | kde-localization/stats.js:1 | the initial sort spec, `total` descending; the first load sorts by it (`StatsPage.Dashboard.constructor`, `StatsPage.Dashboard.Load`) |
| SortSpecs.Flip | kde-localization/stats.js:149 | toggling changes the direction |
| SortSpecs.Select | kde-localization/stats.js:148-152 | a click sorts by the clicked column; the same column toggles the direction, another column starts ascending |
| SortSpecs.SelectTwice | kde-localization/stats.js:148-149 | two clicks on the current column restore the sort spec |
| SortSpecs.SelectOtherTwice | kde-localization/stats.js:148-152 | two clicks on another column sort it descending |
| SortSpecs.Clicks | kde-localization/stats.js:145-155 | the sort spec after a sequence of header clicks, each moving it as `SortSpecs.Select` does (`SortSpecs.ClicksRun`) |
| SortSpecs.ClicksRun | kde-localization/stats.js:145-155 | after a run of `n` clicks on a column that was not the current one, the table sorts by it ascending when `n` is odd and descending when even |
| SortSpecs.Name | kde-localization/stats.js:55 | each column's `data-sort` name is one of the five column names |
| SortSpecs.IndexOf | kde-localization/stats.js:56 | `indexOf` gives the first position of the name, and -1 exactly when it is absent |
| SortSpecs.ColumnIndex | kde-localization/stats.js:54-57 | `getColumnIndex` is 0 exactly for an unknown name, and otherwise the 1-based position of the name in the column list |
| SortSpecs.Position | kde-localization/stats.js:171-175 | each column's cell sits at a position from 1 to 5 |
| SortSpecs.ColumnPositions | kde-localization/stats.js:54-57 | `getColumnIndex` maps each column's name to its cell position, and different columns to different positions |
| Ranking.NumberCell | kde-localization/stats.js:21-23 | the number in the cell at `nth-child(index)` of a row: translated, fuzzy, untranslated or total for positions 2 to 5 (`SortSpecs.ColumnPositions`) |
| Ranking.Compare | kde-localization/stats.js:20-24 | for `item`, the string comparison of the titles, 0 exactly when they are equal; for the other columns, the difference of the two rows' values in that column |
| Ranking.Order | kde-localization/stats.js:27-29 | the comparator passed to `sort`: `compare(a, b)` ascending and `compare(b, a)` descending (`Ranking.DescSwaps`), antisymmetric and transitive (`Ranking.OrderAntisymmetric`, `Ranking.OrderTransitive`) |
| Ranking.DescSwaps | kde-localization/stats.js:28 | descending on `(a, b)` is ascending on `(b, a)` |
| Ranking.OrderAntisymmetric | kde-localization/stats.js:20-29 | swapping the rows negates the comparator |
| Ranking.OrderTransitive | kde-localization/stats.js:20-29 | "may stand before" is transitive, so the comparator is consistent |
| Ranking.TiedEitherDirection | kde-localization/stats.js:28 | rows tie in ascending order exactly when they tie in descending order |
| Ranking.Insert | kde-localization/stats.js:27-29 | one step of the stable sort adds exactly one row; where it goes is `Ranking.InsertPlace`, what it keeps is `Ranking.InsertMultiset`, `Ranking.InsertOrdered` and `Ranking.InsertTies` |
| Ranking.SortRows | kde-localization/stats.js:27-29 | sorting keeps the number of rows; that it is a stable, ordered permutation is `Ranking.SortRowsPermutation`, `Ranking.SortRowsOrdered` and `Ranking.SortRowsStable` |
| Ranking.InsertMultiset | kde-localization/stats.js:27-29 | an insertion adds exactly the inserted row |
| Ranking.SortRowsStep | kde-localization/stats.js:27-29 | sorting one more row adds exactly that row to the sorted rows |
| Ranking.SortRowsPermutation | kde-localization/stats.js:27-29 | the sorted rows are a permutation of the input rows |
| Ranking.SortedFrom | kde-localization/stats.js:27-29 | every sorted row is an input row |
| Ranking.InsertFrom | kde-localization/stats.js:27-29 | every row after an insertion was there before or is the inserted one |
| Ranking.InsertOrdered | kde-localization/stats.js:27-29 | inserting into ordered rows keeps them ordered |
| Ranking.SortRowsOrdered | kde-localization/stats.js:27-29 | the sorted rows are ordered under the spec's comparator |
| Ranking.TiesAppend | kde-localization/stats.js:27-29 | a row appended to some rows joins the end of its ties |
| Ranking.InsertTies | kde-localization/stats.js:27-29 | an inserted row goes after the rows that tie with it |
| Ranking.NotBothTied | kde-localization/stats.js:27-29 | a row that may not stand before another does not tie with it |
| Ranking.TiedTransitive | kde-localization/stats.js:20-29 | ties are transitive |
| Ranking.SortRowsStable | kde-localization/stats.js:27-29 | stability: rows that tie keep their input order |
| Ranking.SortRowsOfOrdered | kde-localization/stats.js:27-29 | ordered rows are left as they are |
| Ranking.SortRowsIdempotent | kde-localization/stats.js:27-29 | sorting twice with the same spec is sorting once |
| Ranking.TiedSelf | kde-localization/stats.js:20-24 | every row ties with itself |
| Ranking.TiesMembers | kde-localization/stats.js:27-29 | the ties of a row are rows of the sequence that tie with it |
| Ranking.TiesSameColumn | kde-localization/stats.js:28 | specs on the same column have the same ties whatever the direction |
| Ranking.OrderedLast | kde-localization/stats.js:27-29 | every row of ordered rows may stand before the last one |
| Ranking.OrderedUnique | kde-localization/stats.js:27-29 | two ordered sequences whose ties come in the same order are equal |
| Ranking.SameLast | kde-localization/stats.js:27-29 | two sequences whose last rows tie, with the same ties of the first, end with the same row |
| Ranking.DropLastTies | kde-localization/stats.js:27-29 | dropping the same last row keeps the ties equal |
| Ranking.LastInTies | kde-localization/stats.js:27-29 | the last row is among its own ties |
| Ranking.LastsTied | kde-localization/stats.js:27-29 | the last rows of two ordered sequences with the same ties tie |
| Ranking.SortRowsResort | kde-localization/stats.js:27-29 | sorting rows already sorted on the same column, in either direction, gives what sorting the original rows gives |
| Ranking.SortInPlace | kde-localization/stats.js:27-29 | sorting the array in place leaves in it the stable sort of its old contents |
| Ranking.InsertInPlace | kde-localization/stats.js:27-29 | one pass puts element `i` into place: the first `i + 1` elements become the insertion of it into the sorted front, and the rest are untouched |
| Ranking.ShiftPast | kde-localization/stats.js:27-29 | the rows that may not stand before the new row move one place right, and the stop is after the last that may |
| Ranking.InsertPlace | kde-localization/stats.js:27-29 | the insertion puts the row after the last one that may stand before it |
| Ranking.FolderRows | kde-localization/stats.js:8 | the `tr.folder` rows in table order: exactly the rows of class `folder` (`Ranking.FolderRowsMembers`) |
| Ranking.FilesIn | kde-localization/stats.js:12-18 | the `fileRowsMap` entry for `k`: exactly the file rows whose `data-folder` is `k`, in table order (`Ranking.FilesInMembers`) |
| Ranking.FolderRowsMembers | kde-localization/stats.js:8 | the folder rows are exactly the rows of class `folder` |
| Ranking.FilesInMembers | kde-localization/stats.js:12-18 | the map entry for `k` holds exactly the file rows whose `data-folder` is `k` |
| Ranking.Layout | kde-localization/stats.js:35-49 | the rebuilt table: each given folder row, followed by its map entry sorted (`Ranking.LayoutFolders`, `Ranking.LayoutFiles`) |
| Ranking.Ranked | kde-localization/stats.js:6-49 | the table `sortTable` leaves: folder rows sorted (`Ranking.RankedFolders`), each followed by its own file rows sorted (`Ranking.RankedFiles`); implemented by `Ranking.SortTable` |
| Ranking.SortTable | kde-localization/stats.js:6-49 | `sortTable` yields the ranked table: folder rows sorted, each followed by its own file rows sorted |
| Ranking.SortedFolders | kde-localization/stats.js:8 | the folder rows, copied to a new array and sorted in place |
| Ranking.AppendSorted | kde-localization/stats.js:35-49 | the rebuild loop appends each folder row in array order, then its map entry sorted |
| Ranking.LayoutStep | kde-localization/stats.js:35-49 | laying out one more folder appends its row and its sorted file rows |
| Ranking.GroupFiles | kde-localization/stats.js:12-18 | the grouping loop builds a map whose entry for each folder holds its file rows in table order, and that lacks the folders without file rows |
| Ranking.FilesInStep | kde-localization/stats.js:12-18 | a row joins the entry of its own `data-folder` when it is a file row |
| Ranking.SortCopy | kde-localization/stats.js:41-43 | a folder's file rows sorted with the same comparator |
| Ranking.InsertUniqueTitles | kde-localization/stats.js:27-29 | inserting a row with a new title keeps the titles distinct |
| Ranking.SortRowsUniqueTitles | kde-localization/stats.js:27-29 | sorting keeps the titles distinct |
| Ranking.SortRowsHasTitle | kde-localization/stats.js:27-29 | sorting neither adds nor removes a title |
| Ranking.FolderRowsConcat | kde-localization/stats.js:8 | the folder rows of two parts of a table are those of the first part, then those of the second |
| Ranking.FilesInConcat | kde-localization/stats.js:12-18 | the file rows for `k` of two parts of a table are those of the first part, then those of the second |
| Ranking.FilesInOwn | kde-localization/stats.js:12-18 | file rows all filed under one folder appear under that folder only |
| Ranking.SortedFilesOwn | kde-localization/stats.js:41-43 | a folder's sorted file rows hold no folder row and appear under that folder only |
| Ranking.LayoutFoldersStep | kde-localization/stats.js:35-36 | laying out one more folder adds only its own row to the folder rows |
| Ranking.LayoutFolders | kde-localization/stats.js:35-36 | the folder rows of the layout are the folders in the given order |
| Ranking.LayoutFilesStep | kde-localization/stats.js:35-49 | laying out one more folder adds only its own sorted files |
| Ranking.HasTitleSplit | kde-localization/stats.js:37 | proof helper of `Ranking.LayoutFiles`: a title is among some folders exactly when it is among the earlier ones or is the last one's |
| Ranking.LayoutFiles | kde-localization/stats.js:35-49 | with distinct titles, the layout holds each listed folder's file rows sorted, right after it, and none for other folders |
| Ranking.RankedFolders | kde-localization/stats.js:27-36 | the folder rows of the ranked table are the folder rows sorted |
| Ranking.RankedFiles | kde-localization/stats.js:35-49 | with distinct folder titles, the file rows for `k` in the ranked table are the sorted file rows of folder `k`, and none when no folder row is titled `k` |
| Ranking.LayoutCongruent | kde-localization/stats.js:35-49 | two tables that give each folder the same sorted files lay out the same |
| Ranking.RankedIdempotent | kde-localization/stats.js:6-49 | ranking a ranked table again with the same spec changes nothing |
| Ranking.RankedResort | kde-localization/stats.js:6-49 | ranking a ranked table again on the same column, in either direction, is ranking the original table |
| StatsPage.FolderRowOf | kde-localization/stats.js:132 | `addRow` for a folder: class `folder`, titled with the folder name, `data-folder` the name itself (`Records.FolderKeyWhole`) |
| StatsPage.FileRowOf | kde-localization/stats.js:134 | `addRow` for a file: class `file`, titled with the file name, `data-folder` the folder (`Records.FolderKeyOfJoin`, `StatsPage.FileRowsOwn`) |
| StatsPage.FileRowsOf | kde-localization/stats.js:133-135 | one file row per file of the folder, filed under that folder (`StatsPage.FileRowsOwn`) |
| StatsPage.Names | kde-localization/stats.js:131 | one name per folder group; for a load these are the folders in first-seen order (`StatsPage.GroupNames`) |
| StatsPage.Headers | kde-localization/stats.js:132 | one folder row per folder group; they are the table's folder rows (`StatsPage.TableHeaders`) |
| StatsPage.GraphWidth | kde-localization/stats.js:162-168 | the bar is 0 wide for a total of 0, 50 for totals from 1 to 199, a quarter of the total from 200 to 4000, and 1000 above; for totals that are not negative it is 0 or between 50 and 1000 |
| StatsPage.GraphWidthMonotone | kde-localization/stats.js:162-168 | a larger total never gets a narrower bar |
| StatsPage.FileRowsOwn | kde-localization/stats.js:134 | a folder's file rows are of class `file` and their `data-folder` is the folder |
| StatsPage.FileRowsNoFolders | kde-localization/stats.js:134 | file rows hold no folder row |
| StatsPage.TableRows | kde-localization/stats.js:131-136 | the rows a load appends: each folder row, then its file rows; its folder rows are `StatsPage.TableHeaders` and its file rows `StatsPage.TableFiles`; built by `StatsPage.AppendRows` |
| StatsPage.TableHeaders | kde-localization/stats.js:131-136 | the folder rows of the appended table are the groups' rows, one per group, in the groups' order |
| StatsPage.HeadersUnique | kde-localization/stats.js:132 | groups with distinct names give folder rows with distinct titles |
| StatsPage.HeadersTitle | kde-localization/stats.js:132 | a folder row is titled `k` exactly when a group is named `k` |
| StatsPage.TableFilesStep | kde-localization/stats.js:131-136 | one more group adds its own file rows, and only under its own name |
| StatsPage.OwnFiles | kde-localization/stats.js:134 | a folder's file rows are filed under that folder and no other |
| StatsPage.TableFiles | kde-localization/stats.js:131-136 | the file rows filed under `k` in the appended table are those of the groups named `k` |
| StatsPage.RowsNamedUnique | kde-localization/stats.js:131-136 | with distinct names, those are the rows of the one group named `k`, and none when no group has that name |
| StatsPage.GroupsAt | kde-localization/stats.js:131 | group `i` is the group of the `i`-th folder key |
| StatsPage.GroupNames | kde-localization/stats.js:89-92 | the groups of a load are named after the folders in first-seen order, distinct, and without `/` |
| StatsPage.LoadedHeaders | kde-localization/stats.js:131-136 | the loaded table has one folder row per folder, titles distinct, a title `k` exactly for each folder `k` seen |
| StatsPage.LoadedFiles | kde-localization/stats.js:131-136 | under each folder `k` the loaded table files exactly the rows of the records of `k`, in input order, and none for a key no record has |
| StatsPage.LoadedTable | kde-localization/stats.js:131-157 | after the sort a load ends with, the folder rows are the folders' rows sorted, and each folder's file rows are its records' rows sorted; no other rows are filed anywhere |
| StatsPage.RankedStays | kde-localization/stats.js:6-49 | a ranked table keeps its folder titles distinct and is a fixed point of ranking by the same spec |
| StatsPage.ClickTwice | kde-localization/stats.js:145-155 | two clicks on the sorted column give back both the sort spec and the table as they were, ties included |
| StatsPage.AppendRows | kde-localization/stats.js:131-136 | the `addRow` loop appends the rows of `TableRows`: each folder row, then its file rows |
| StatsPage.Display | kde-localization/stats.js:106-127 | the sum display of a load: its totals, their shares in tenths when there are messages (`Summary.Percentages`), and the deltas against the last totals (`Summary.Deltas`) |
| StatsPage.Refresh | kde-localization/stats.js:81-157 | a load shows the totals, shares and deltas of `Display`, and the table built from the groups and ranked by the current spec, settled under it |
| StatsPage.Dashboard.constructor | kde-localization/stats.js:1-4 | the page starts sorted by total descending, with last totals -1, an empty table, and no load yet, so no click handler |
| StatsPage.Dashboard.Load | kde-localization/stats.js:77-158 | a load keeps the sort spec, stores its totals as the last totals unconditionally, shows the sum display computed from the previous last totals, and shows the loaded table ranked by the current spec; after it the header click handler is attached |
| StatsPage.Dashboard.Commit | kde-localization/stats.js:121-157 | a load's results are stored: its totals as the last totals, its sum display, its settled rows as the table, and the loaded flag; the sort spec is kept |
| StatsPage.Dashboard.Show | kde-localization/stats.js:31-49 | the table is replaced by rows settled under the current spec, and nothing else changes |
| StatsPage.Dashboard.SelectColumn | kde-localization/stats.js:145-155 | a click, possible only after a load, moves the sort spec as `Select` does and re-ranks the current table by the new spec, keeping the totals and the sum display |

## Left out

- DOM and d3 rendering are not modelled. This covers appending rows and cells, the sort-arrow classes of `updateSortArrows`, the folder collapse toggle (lines 138–143) and the SVG bar segments (lines 177–196). Rows are records holding the integers their cells were written from, so reading `Number(text)` back from a cell is the identity.
- Fetching the file, the cache-busting timestamp, the promise chain, the file selector and `loadSelectedFile` are left out. `Load` takes the parsed records as its parameter.
- `localeCompare` is the browser's collation routine. `Strings.Compare` replaces it by lexicographic order on characters. What the sort relies on, a total order, is proved of the replacement; real collation is not modelled.
- The percentages are computed in exact integer tenths. The page computes them in floating point, where `Math.ceil((100 - t - f) * 10)` can land one tenth higher because of rounding error; that rounding is not modelled. In exact arithmetic the untranslated share is fixed by the three shares adding up to 1000, and it lies within two tenths above its exact value because of the two floors.
- With no messages at all the page divides by zero and shows `NaN`. The model shows no shares (`None`) in that case, and `Summary.Percentages` requires a non-zero total.
- The sum display's text (`+` before a positive delta, number formatting) is presentation and is left out; `SumDisplay` holds the numbers.
- Folder names that `Object.entries` would reorder are assumed not to occur. These are integer-like names, which a JavaScript object lists first in numeric order. The model lists folders in first-seen order.
- Folder names that a JavaScript object already holds through its prototype (such as `constructor`) are likewise assumed not to occur.
- Paths with no `/` or with more than one are modelled as the page splits them: the folder is the first segment and the file the second, possibly empty. The segments after the second are dropped, no error is raised, and an empty file name stands for the page's `undefined`.
- Counts are unbounded integers. JavaScript numbers lose precision above 2^53, which is not modelled.
- On the page the header click handler is attached only by a load (line 145, inside the load callback), so a click before the first load does nothing. The model has no click before a load: `StatsPage.Dashboard.SelectColumn` requires the `loaded` flag that only `Load` sets, and the first load therefore sorts by `SortSpecs.DefaultSort`.
- `Ranking.Ranked` drops file rows whose folder has no folder row, as the page does when it rebuilds the table. Tables built by a load have no such rows (`StatsPage.LoadedTable`).
- Two folder rows with the same title are not modelled. On the page `fileRowsMap.get` would then give both the same array of file rows, which `appendChild` would move, so all those file rows would end up under the later folder while the earlier one kept none. The model keeps folder titles distinct, which holds for every table a load builds.
- The header names come from the page's HTML (`data-sort`), so the column clicked is one of the five `SortSpecs.Column` values. The `nth-child(0)` that an unknown name would give is then unreachable, while `SortSpecs.ColumnIndex` still models the 0 of an unknown name.
