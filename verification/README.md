# SolutionPicker dialog model

A Dafny model of the decision logic in the solution-picker dialog of
MsCrmTools.MetadataDocumentGenerator (`Forms/SolutionPicker.cs`). The
dialog fetches the visible solutions of a CRM environment in the background.
It lists them with their name, version and publisher. It narrows the list as
the user types a filter. It sorts on a header click. It hands the records of
the selected rows back to its caller when the user confirms.

The model has five modules:

- `Text`: the string operations the filter uses. These are `ToLower` and
  `Trim` on ASCII (`Trim` is built from a forward and a backward scan over
  white space), `Length` in UTF-16 code units, and an ordinal `Contains`.
  Each is specified against an independent definition: `TrimmedAt` for
  trimming and `IsSubstring` for containment.
- `Label`: the count label `$"{n} - Solutions"`. It has a decimal rendering of
  `n` with its round trip, and the fact that the label determines the count.
- `Solutions`: the solution record (`friendlyname`, `version`, publisher
  name), the list-view row built from it, and the filter. The filter is
  LINQ `Where` over the cache with the normalised-name-contains-query
  predicate, behind a threshold of three UTF-16 code units.
- `Picker`: the dialog's state as a value (`Dialog`). It has one transition
  function per event handler, the invariant every handler keeps (`Inv`) and
  the lifecycle Loading → Ready → Confirmed | Cancelled.
- `Forms`: the form as a class whose fields the handlers update in place.
  Each handler is a method proved to perform its `Picker` transition and to
  keep `Inv`. The two `foreach` loops that add rows are the `AddRows` loop.

The comment above `filtersolution_TextChanged` says the search starts with
"more than three characters". The code filters once the normalised text has
a `Length` of three or more (`text.Length < 3` shows everything). The model
follows the code.

## Model

| member | source | states |
|---|---|---|
| Text.LowerChar | MsCrmTools.MetadataDocumentGenerator/Forms/SolutionPicker.cs:40 | Lowering one character yields no upper-case letter. It maps A-Z onto a-z letter for letter, keeps every other character, and keeps white space as white space. |
| Text.ToLower | MsCrmTools.MetadataDocumentGenerator/Forms/SolutionPicker.cs:40 | `ToLower` keeps the length and lowers character by character. |
| Text.ToLowerIdempotent | MsCrmTools.MetadataDocumentGenerator/Forms/SolutionPicker.cs:40 | Lowering twice equals lowering once. |
| Text.ToLowerSlice | MsCrmTools.MetadataDocumentGenerator/Forms/SolutionPicker.cs:40 | Lowering commutes with taking a slice. |
| Text.SkipWhiteForward | MsCrmTools.MetadataDocumentGenerator/Forms/SolutionPicker.cs:40 | The forward scan stops at the first non-white character at or after `i`, or at the end. Everything it skips is white space. |
| Text.SkipWhiteBackward | MsCrmTools.MetadataDocumentGenerator/Forms/SolutionPicker.cs:40 | The backward scan stops after the last non-white character before `j`, or at its lower bound. Everything it skips is white space. |
| Text.TrimOffset | MsCrmTools.MetadataDocumentGenerator/Forms/SolutionPicker.cs:40 | The start of the trimmed text lies within the string. |
| Text.Trim | MsCrmTools.MetadataDocumentGenerator/Forms/SolutionPicker.cs:40 | `Trim` returns a contiguous piece of the input with only white space before and after it. The piece neither starts nor ends with white space (`TrimmedAt`). |
| Text.TrimmedAtUnique | MsCrmTools.MetadataDocumentGenerator/Forms/SolutionPicker.cs:40 | `TrimmedAt` admits one result only, so it characterises `Trim` completely. |
| Text.TrimOfTrimmed | MsCrmTools.MetadataDocumentGenerator/Forms/SolutionPicker.cs:40 | A string without white space at either end is its own trim. |
| Text.TrimIdempotent | MsCrmTools.MetadataDocumentGenerator/Forms/SolutionPicker.cs:40 | Trimming twice equals trimming once. |
| Text.SkipForwardLower | MsCrmTools.MetadataDocumentGenerator/Forms/SolutionPicker.cs:40 | The forward scan stops at the same index on a string and on its lowered form. |
| Text.SkipBackwardLower | MsCrmTools.MetadataDocumentGenerator/Forms/SolutionPicker.cs:40 | The backward scan stops at the same index on a string and on its lowered form. |
| Text.TrimToLowerCommute | MsCrmTools.MetadataDocumentGenerator/Forms/SolutionPicker.cs:40 | `ToLower().Trim()` equals `Trim().ToLower()`. |
| Text.Utf16Length | MsCrmTools.MetadataDocumentGenerator/Forms/SolutionPicker.cs:42 | `Length` counts UTF-16 code units: at least one and at most two per character, exactly one per character when none lies outside the Basic Multilingual Plane, and more than the character count when one does. |
| Text.SurrogatePairCountsTwice | MsCrmTools.MetadataDocumentGenerator/Forms/SolutionPicker.cs:42 | A string of an emoji and a letter has two characters but a `Length` of three. |
| Text.SubstringOfTail | MsCrmTools.MetadataDocumentGenerator/Forms/SolutionPicker.cs:43 | When `t` does not start `s`, `t` occurs in `s` exactly when it occurs in `s` minus its first character. |
| Text.Contains | MsCrmTools.MetadataDocumentGenerator/Forms/SolutionPicker.cs:43 | `Contains(s, t)` is true exactly when `t` occurs in `s` at some index. This holds in both directions, including for an empty `t`. |
| Label.DigitChar | MsCrmTools.MetadataDocumentGenerator/Forms/SolutionPicker.cs:57 | A digit value below ten maps to the digit character with that value. |
| Label.Decimal | MsCrmTools.MetadataDocumentGenerator/Forms/SolutionPicker.cs:57 | An integer formats as a non-empty string of digits with no leading zero. |
| Label.DecimalRoundTrip | MsCrmTools.MetadataDocumentGenerator/Forms/SolutionPicker.cs:57 | Reading the decimal form back gives the number. |
| Label.CountLabel | MsCrmTools.MetadataDocumentGenerator/Forms/SolutionPicker.cs:57 | The label is a run of digits followed by " - Solutions". |
| Label.CountLabelInjective | MsCrmTools.MetadataDocumentGenerator/Forms/SolutionPicker.cs:57 | Equal labels come from equal counts, so the label tells exactly how many solutions are listed. |
| Solutions.Rows | MsCrmTools.MetadataDocumentGenerator/Forms/SolutionPicker.cs:47-55 | One row per record, in order. Each row shows the record's name, version and publisher name and carries the record in its tag. |
| Solutions.Tags | MsCrmTools.MetadataDocumentGenerator/Forms/SolutionPicker.cs:52 | Reading the tags gives one record per row. |
| Solutions.TagsOfRows | MsCrmTools.MetadataDocumentGenerator/Forms/SolutionPicker.cs:49-52 | The tags of the rows built from some records are exactly those records, in order. |
| Solutions.RowsAppend | MsCrmTools.MetadataDocumentGenerator/Forms/SolutionPicker.cs:47-55 | Rows built in two batches equal the two batches' rows joined. |
| Solutions.Normalize | MsCrmTools.MetadataDocumentGenerator/Forms/SolutionPicker.cs:40-43 | The normalised text is no longer than the input and has no white space at its ends. |
| Solutions.NormalizedHasNoUpper | MsCrmTools.MetadataDocumentGenerator/Forms/SolutionPicker.cs:40-43 | The normalised text holds no upper-case letter. |
| Solutions.NormalizeIdempotent | MsCrmTools.MetadataDocumentGenerator/Forms/SolutionPicker.cs:40-43 | Normalising a normalised text changes nothing. |
| Solutions.MakeRow | MsCrmTools.MetadataDocumentGenerator/Forms/SolutionPicker.cs:49-52 | The row built for a record shows its name, version and publisher name and carries the record in its tag. |
| Solutions.Matches | MsCrmTools.MetadataDocumentGenerator/Forms/SolutionPicker.cs:43 | A record matches exactly when the query is a substring (`IsSubstring`) of the record's lower-cased, trimmed name. |
| Solutions.MatchesQuery | MsCrmTools.MetadataDocumentGenerator/Forms/SolutionPicker.cs:43 | The lambda passed to `Where` holds of a record exactly when the query is a substring (`IsSubstring`) of the record's lower-cased, trimmed name. |
| Solutions.Where | MsCrmTools.MetadataDocumentGenerator/Forms/SolutionPicker.cs:43 | `Where` returns at most as many elements as it was given, and only elements it was given. |
| Solutions.WhereKeeps | MsCrmTools.MetadataDocumentGenerator/Forms/SolutionPicker.cs:43 | An element is in the result of `Where` exactly when it is in the input and satisfies the predicate. |
| Solutions.WhereCounts | MsCrmTools.MetadataDocumentGenerator/Forms/SolutionPicker.cs:43 | `Where` keeps every copy of an element that satisfies the predicate and no copy of any other. |
| Solutions.PositionsPick | MsCrmTools.MetadataDocumentGenerator/Forms/SolutionPicker.cs:43 | The kept positions pick the result of `Where` out of its input, one by one. |
| Solutions.PositionsIncrease | MsCrmTools.MetadataDocumentGenerator/Forms/SolutionPicker.cs:43 | The kept positions are strictly increasing, so `Where` preserves order. |
| Solutions.PositionsExact | MsCrmTools.MetadataDocumentGenerator/Forms/SolutionPicker.cs:43 | A position is kept exactly when its element satisfies the predicate. |
| Solutions.WherePositions | MsCrmTools.MetadataDocumentGenerator/Forms/SolutionPicker.cs:43 | There is a strictly increasing list of input positions that holds every position whose element satisfies the predicate and no other, and that picks out the result of `Where`. |
| Solutions.Filter | MsCrmTools.MetadataDocumentGenerator/Forms/SolutionPicker.cs:40-43 | While the normalised query is shorter than three UTF-16 code units the visible list is the whole cache, same elements in the same order. In every case it shows only cached records and is no longer than the cache. |
| Solutions.FilterShowsMatching | MsCrmTools.MetadataDocumentGenerator/Forms/SolutionPicker.cs:42-43 | From three code units on, a record is shown exactly when it is cached and its lower-cased, trimmed name contains the normalised query. |
| Solutions.FilterPositions | MsCrmTools.MetadataDocumentGenerator/Forms/SolutionPicker.cs:42-43 | From three code units on, the visible list is the order-preserving subsequence of the cache at exactly the matching positions. |
| Solutions.FilterCounts | MsCrmTools.MetadataDocumentGenerator/Forms/SolutionPicker.cs:42-43 | From three code units on, every copy of a matching record is shown and no copy of another. |
| Solutions.FilterIgnoresCase | MsCrmTools.MetadataDocumentGenerator/Forms/SolutionPicker.cs:40 | Typing the query in another case shows the same records. |
| Solutions.FilterIgnoresSurroundingSpace | MsCrmTools.MetadataDocumentGenerator/Forms/SolutionPicker.cs:40 | White space around the query does not change what is shown. |
| Picker.Initial | MsCrmTools.MetadataDocumentGenerator/Forms/SolutionPicker.cs:21-29 | The constructed dialog satisfies the invariant, is Loading, and has nothing cached, listed or selected. |
| Picker.OnLoad | MsCrmTools.MetadataDocumentGenerator/Forms/SolutionPicker.cs:116-118 | Loading empties the list and its selection and changes nothing else. |
| Picker.OnTextChanged | MsCrmTools.MetadataDocumentGenerator/Forms/SolutionPicker.cs:36-58 | The cache is unchanged. The rows' tags are exactly the filtered records, in order, and each row shows its tag. The selection is cleared. The label counts the filtered records. Nothing else changes. |
| Picker.TextChangedLabelCountsRows | MsCrmTools.MetadataDocumentGenerator/Forms/SolutionPicker.cs:45-57 | After filtering, the label counts the rows the list holds. |
| Picker.OnSelectionChanged | MsCrmTools.MetadataDocumentGenerator/Forms/SolutionPicker.cs:68-70 | A selection of rows, in increasing row order, replaces the old one. Nothing else changes. |
| Picker.OnSelectedSolutionsSet | MsCrmTools.MetadataDocumentGenerator/Forms/SolutionPicker.cs:29 | The caller's assignment replaces `SelectedSolutions` and changes nothing else. |
| Picker.SelectedRecords | MsCrmTools.MetadataDocumentGenerator/Forms/SolutionPicker.cs:70 | The selected items cast back to their tags give one record per selected row, in selection order. |
| Picker.OnValidate | MsCrmTools.MetadataDocumentGenerator/Forms/SolutionPicker.cs:66-78 | With nothing selected, only the warning count grows, so the result and `SelectedSolutions` are unchanged and the dialog stays open. Otherwise `SelectedSolutions` becomes its old value followed by the selected rows' tagged records in selection order, the result is OK and the dialog is closed, and nothing else changes. |
| Picker.OnCancel | MsCrmTools.MetadataDocumentGenerator/Forms/SolutionPicker.cs:60-64 | The result is Cancel and the dialog is closed. `SelectedSolutions` and everything else are unchanged. |
| Picker.Toggled | MsCrmTools.MetadataDocumentGenerator/Forms/SolutionPicker.cs:83 | The new sort order is Ascending or Descending and differs from the old one. From None it is Ascending. |
| Picker.OnColumnClick | MsCrmTools.MetadataDocumentGenerator/Forms/SolutionPicker.cs:80-85 | Whatever column is clicked, the new sort order is `Toggled` of the old one: Descending after Ascending, Ascending after Descending or None. A comparer for that column and the new order is installed. Nothing else changes. |
| Picker.ColumnClickTwice | MsCrmTools.MetadataDocumentGenerator/Forms/SolutionPicker.cs:80-85 | Two header clicks, on any columns, restore an Ascending or Descending sort order. |
| Picker.OnWorkerCompleted | MsCrmTools.MetadataDocumentGenerator/Forms/SolutionPicker.cs:131-151 | The cache becomes the fetched records. One row per fetched record, tagged with it, is added after the existing rows. The label counts the fetched records. The list and the confirm button are enabled. Nothing else changes. |
| Picker.TextChangedKeepsInv | MsCrmTools.MetadataDocumentGenerator/Forms/SolutionPicker.cs:36-58 | Filtering keeps the invariant: the rebuilt rows show cached records. |
| Picker.ValidateKeepsInv | MsCrmTools.MetadataDocumentGenerator/Forms/SolutionPicker.cs:66-78 | Confirming keeps the invariant. |
| Picker.SelectedRecordsCached | MsCrmTools.MetadataDocumentGenerator/Forms/SolutionPicker.cs:70 | The tagged records of the selected rows are all cached records. |
| Picker.ValidateAppendsCached | MsCrmTools.MetadataDocumentGenerator/Forms/SolutionPicker.cs:66-78 | Every record the confirm handler appends to `SelectedSolutions` is a cached record. |
| Picker.WorkerCompletedKeepsInv | MsCrmTools.MetadataDocumentGenerator/Forms/SolutionPicker.cs:131-151 | Completing the fetch keeps the invariant. |
| Picker.StepKeepsInv | MsCrmTools.MetadataDocumentGenerator/Forms/SolutionPicker.cs:36-151 | Every event that can arrive keeps the invariant. |
| Picker.ValidateWhileLoading | MsCrmTools.MetadataDocumentGenerator/Forms/SolutionPicker.cs:66-78 | While the fetch is in flight, confirming only shows the warning. |
| Picker.LoadedListShowsFetched | MsCrmTools.MetadataDocumentGenerator/Forms/SolutionPicker.cs:131-151 | Once the fetch completes, the list holds exactly the rows of the fetched records, in order. The label counts those rows, and an open dialog is Ready. |
| Picker.RowsOfTags | MsCrmTools.MetadataDocumentGenerator/Forms/SolutionPicker.cs:49-52 | Rows that show their tags are the rows built from those tags. |
| Picker.StepFollowsLifecycle | MsCrmTools.MetadataDocumentGenerator/Forms/SolutionPicker.cs:60-151 | Every event on an open dialog moves it forward along Loading → Ready → Confirmed or Cancelled, or leaves its phase alone. A closed dialog keeps its phase when the fetch completes. |
| Forms.SolutionPicker.constructor | MsCrmTools.MetadataDocumentGenerator/Forms/SolutionPicker.cs:21-29 | The new form is the initial dialog and satisfies the invariant. |
| Forms.SolutionPicker.SolutionPickerLoad | MsCrmTools.MetadataDocumentGenerator/Forms/SolutionPicker.cs:116-124 | The form's new state is `OnLoad` of its old state, and the invariant holds. |
| Forms.SolutionPicker.FilterTextChanged | MsCrmTools.MetadataDocumentGenerator/Forms/SolutionPicker.cs:36-58 | The form's new state is `OnTextChanged` of its old state, and the invariant holds. |
| Forms.SolutionPicker.AddRows | MsCrmTools.MetadataDocumentGenerator/Forms/SolutionPicker.cs:47-55 | The loop appends one row per record, in order, after the rows already listed. |
| Forms.SolutionPicker.SelectRows | MsCrmTools.MetadataDocumentGenerator/Forms/SolutionPicker.cs:68-70 | The form's new state is `OnSelectionChanged` of its old state, and the invariant holds. |
| Forms.SolutionPicker.SetSelectedSolutions | MsCrmTools.MetadataDocumentGenerator/Forms/SolutionPicker.cs:29 | The form's new state is `OnSelectedSolutionsSet` of its old state, and the invariant holds. |
| Forms.SolutionPicker.CancelClick | MsCrmTools.MetadataDocumentGenerator/Forms/SolutionPicker.cs:60-64 | The form's new state is `OnCancel` of its old state. `SelectedSolutions` is unchanged, the result is Cancel and the form is closed. |
| Forms.SolutionPicker.ValidateClick | MsCrmTools.MetadataDocumentGenerator/Forms/SolutionPicker.cs:66-78 | The form's new state is `OnValidate` of its old state. With nothing selected only the warning count changes. Otherwise the selected records are appended and the form closes with OK. |
| Forms.SolutionPicker.ColumnClick | MsCrmTools.MetadataDocumentGenerator/Forms/SolutionPicker.cs:80-85 | The form's new state is `OnColumnClick` of its old state, and the invariant holds. |
| Forms.SolutionPicker.ListDoubleClick | MsCrmTools.MetadataDocumentGenerator/Forms/SolutionPicker.cs:87-90 | A double click makes the same state change as the confirm button. |
| Forms.SolutionPicker.RunWorkerCompleted | MsCrmTools.MetadataDocumentGenerator/Forms/SolutionPicker.cs:131-151 | The form's new state is `OnWorkerCompleted` of its old state. The list holds exactly the fetched records' rows and the label counts them. |
| Forms.PickFirst | MsCrmTools.MetadataDocumentGenerator/Forms/SolutionPicker.cs:66-151 | This is one run of the dialog: load a non-empty fetch, select the first row, confirm. It ends with OK and hands back exactly the first fetched record. |

## Left out

- `RetrieveSolutions` (the `QueryExpression` on visible, non-default solutions and its error wrapping) is not modelled. The fetched records are an input to `RunWorkerCompleted`, because the query runs on a remote CRM service through its SDK.
- The `BackgroundWorker` is not modelled, because it only supplies concurrency. Its completion is one atomic step. `Admissible` lets it happen once, while the list is still disabled.
- A fetch that fails is not modelled, because the completion handler casts `e.Result` without checking `e.Error`. Only the successful completion is modelled.
- `ListViewItemComparer` and the reordering it performs are not modelled, because the comparer's code is not part of this model. The list also inserts new rows in sorted position once a sorter is set. The model keeps rows in insertion order and records only the sort order and the installed comparer's column and order.
- `MessageBox.Show` is recorded only as a count of warnings shown. `Close()` is the `closed` flag. Rendering and modal-dialog mechanics are not modelled.
- Text.ToLower: covers ASCII letters only. Culture-specific case mappings are not modelled.
- Text.Trim: treats only the six ASCII white-space characters as white space. .NET trims the whole Unicode white-space class.
- Text.Contains: compares Unicode scalar values where .NET's ordinal `Contains` compares UTF-16 code units. For well-formed strings on both sides an occurrence in one sense is an occurrence in the other; strings holding unpaired surrogates are not modelled.
- `solution["friendlyname"]`, `solution["version"]` and the `EntityReference` cast for the publisher are a typed `Solution` record. A missing attribute, which would throw in the source, is not modelled.
- The designer file that sets the controls' initial state is not part of this model. The model assumes an empty label, a disabled list and confirm button, and the list's default sort order None.
- Picker.ColumnClickTwice: requires a sort order other than None. From None, the first click gives Ascending, so two clicks cannot restore None.
- Picker.OnSelectionChanged: the user's selection comes from the list view, not from the dialog's code. It is an environment event that names increasing row indices of the enabled list.
- A filter typed while the fetch is in flight is not re-applied when the fetch completes. The completion handler lists every fetched record whatever the filter box holds. The model reproduces this as written.
