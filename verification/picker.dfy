/**
 * The state of the solution-picker dialog as a value, what each event
 * handler does to it, the invariant the handlers keep, and the dialog's
 * lifecycle: Loading, then Ready, then Confirmed or Cancelled (Cancel is
 * available while loading too).
 */
module Picker {
  import opened Solutions
  import opened Label

  /** `System.Windows.Forms.SortOrder`; `Unsorted` stands for its `None`. */
  datatype SortOrder = Unsorted | Ascending | Descending

  /** The dialog results the dialog uses; `NoResult` stands for `DialogResult.None`. */
  datatype DialogResult = NoResult | OK | Cancel

  /** The list's `ListViewItemSorter`: none yet, or a comparer built for a column and a direction. */
  datatype Sorter = NoSorter | ItemComparer(column: int, order: SortOrder)

  datatype Phase = Loading | Ready | Confirmed | Cancelled

  /**
   * Everything the handlers read or write: the cache of fetched solutions,
   * the list's rows and selected indices, the count label's text, the
   * list's sort order and sorter, the dialog result and whether the dialog
   * was closed, how many warnings were shown, the two `Enabled` flags, and
   * the `SelectedSolutions` output list.
   */
  datatype Dialog = Dialog(
    environmentSolutions: seq<Solution>,
    items: seq<Row>,
    selectedIndices: seq<nat>,
    totalLabel: string,
    sorting: SortOrder,
    sorter: Sorter,
    dialogResult: DialogResult,
    closed: bool,
    warningsShown: nat,
    listEnabled: bool,
    validateEnabled: bool,
    selectedSolutions: seq<Solution>)

  /** Indices as `ListView.SelectedIndices` holds them: rows of the list, in increasing order. */
  predicate IsSelection(indices: seq<nat>, rowCount: nat) {
    && (forall k :: 0 <= k < |indices| ==> indices[k] < rowCount)
    && (forall k, l :: 0 <= k < l < |indices| ==> indices[k] < indices[l])
  }

  function PhaseOf(d: Dialog): Phase {
    match d.dialogResult
    case OK => Confirmed
    case Cancel => Cancelled
    case NoResult => if d.validateEnabled then Ready else Loading
  }

  /** The phase changes the dialog allows: forward along the lifecycle, or not at all. */
  predicate CanMove(from: Phase, to: Phase) {
    || from == to
    || (from == Loading && (to == Ready || to == Cancelled))
    || (from == Ready && (to == Confirmed || to == Cancelled))
  }

  /**
   * What holds of every state the dialog reaches: the selection lies in the
   * list; every row shows the cached record in its tag; the list and the
   * confirm button are enabled together, and before that nothing is cached,
   * listed or selected; the dialog is closed exactly when it has a result;
   * and a confirmed dialog has been loaded. `SelectedSolutions` is left
   * free: its caller may assign it at any time.
   */
  ghost predicate Inv(d: Dialog) {
    && IsSelection(d.selectedIndices, |d.items|)
    && (forall i :: 0 <= i < |d.items| ==> Shows(d.items[i], d.items[i].tag) && d.items[i].tag in d.environmentSolutions)
    && d.listEnabled == d.validateEnabled
    && (!d.validateEnabled ==> d.environmentSolutions == [] && d.items == [] && d.selectedIndices == [])
    && (d.closed <==> d.dialogResult != NoResult)
    && (d.dialogResult == OK ==> d.validateEnabled)
  }

  /**
   * The dialog as constructed: nothing fetched, listed or selected, the
   * list and the confirm button disabled until the fetch completes.
   */
  function Initial(): (d: Dialog)
    ensures Inv(d) && PhaseOf(d) == Loading
    ensures d.environmentSolutions == [] && d.items == [] && d.selectedSolutions == []
  {
    Dialog([], [], [], "", Unsorted, NoSorter, NoResult, false, 0, false, false, [])
  }

  /** `SolutionPicker_Load`: the list is cleared before the fetch starts. */
  function OnLoad(d: Dialog): (e: Dialog)
    ensures e.items == [] && e.selectedIndices == []
    ensures e.(items := d.items, selectedIndices := d.selectedIndices) == d
  {
    d.(items := [], selectedIndices := [])
  }

  /**
   * `filtersolution_TextChanged`: the rows are rebuilt from scratch, one per
   * record the filter lets through and tagged with it, and the label counts
   * the rows; the cache is left alone.
   */
  function OnTextChanged(d: Dialog, text: string): (e: Dialog)
    ensures e.environmentSolutions == d.environmentSolutions
    ensures Tags(e.items) == Filter(d.environmentSolutions, text)
    ensures forall i :: 0 <= i < |e.items| ==> Shows(e.items[i], e.items[i].tag)
    ensures e.totalLabel == CountLabel(|Filter(d.environmentSolutions, text)|)
    ensures e.selectedIndices == []
    ensures e.(items := d.items, selectedIndices := d.selectedIndices, totalLabel := d.totalLabel) == d
  {
    var shown := Filter(d.environmentSolutions, text);
    TagsOfRows(shown);
    d.(items := Rows(shown), selectedIndices := [], totalLabel := CountLabel(|shown|))
  }

  /** After filtering, the label counts the rows the list now holds. */
  lemma TextChangedLabelCountsRows(d: Dialog, text: string)
    ensures OnTextChanged(d, text).totalLabel == CountLabel(|OnTextChanged(d, text).items|)
  {
    var e := OnTextChanged(d, text);
    assert |Tags(e.items)| == |e.items|;
  }

  /** The user selects rows of the list (an action of the list view, not of the dialog's code). */
  function OnSelectionChanged(d: Dialog, indices: seq<nat>): (e: Dialog)
    requires IsSelection(indices, |d.items|)
    ensures e.selectedIndices == indices
    ensures e.(selectedIndices := d.selectedIndices) == d
  {
    d.(selectedIndices := indices)
  }

  /** The caller assigns `SelectedSolutions` through its public setter. */
  function OnSelectedSolutionsSet(d: Dialog, solutions: seq<Solution>): (e: Dialog)
    ensures e.selectedSolutions == solutions
    ensures e.(selectedSolutions := d.selectedSolutions) == d
  {
    d.(selectedSolutions := solutions)
  }

  /** The records tagged on the selected rows, in list order. */
  function SelectedRecords(d: Dialog): (records: seq<Solution>)
    requires IsSelection(d.selectedIndices, |d.items|)
    ensures |records| == |d.selectedIndices|
    ensures forall k :: 0 <= k < |records| ==> records[k] == d.items[d.selectedIndices[k]].tag
  {
    seq(|d.selectedIndices|, k requires 0 <= k < |d.selectedIndices| => d.items[d.selectedIndices[k]].tag)
  }

  /**
   * `btnSolutionPickerValidate_Click`: with nothing selected, only a warning
   * is shown; otherwise the tagged records of the selected rows are appended
   * to `SelectedSolutions` in list order and the dialog closes with OK.
   */
  function OnValidate(d: Dialog): (e: Dialog)
    requires IsSelection(d.selectedIndices, |d.items|)
    ensures d.selectedIndices == [] ==> e == d.(warningsShown := d.warningsShown + 1)
    ensures d.selectedIndices != [] ==>
      && |e.selectedSolutions| == |d.selectedSolutions| + |d.selectedIndices|
      && e.selectedSolutions[..|d.selectedSolutions|] == d.selectedSolutions
      && (forall k :: 0 <= k < |d.selectedIndices| ==>
            e.selectedSolutions[|d.selectedSolutions| + k] == d.items[d.selectedIndices[k]].tag)
      && e.dialogResult == OK && e.closed
      && e.(selectedSolutions := d.selectedSolutions, dialogResult := d.dialogResult, closed := d.closed) == d
  {
    if |d.selectedIndices| > 0 then
      d.(selectedSolutions := d.selectedSolutions + SelectedRecords(d), dialogResult := OK, closed := true)
    else
      d.(warningsShown := d.warningsShown + 1)
  }

  /** `btnSolutionPickerCancel_Click`: the dialog closes with Cancel and nothing is appended. */
  function OnCancel(d: Dialog): (e: Dialog)
    ensures e.closed && PhaseOf(e) == Cancelled
    ensures e.selectedSolutions == d.selectedSolutions
    ensures e.(dialogResult := d.dialogResult, closed := d.closed) == d
  {
    d.(dialogResult := Cancel, closed := true)
  }

  /** The sort order after a header click: Descending after Ascending, Ascending otherwise. */
  function Toggled(order: SortOrder): (r: SortOrder)
    ensures r != Unsorted && r != order
    ensures order == Unsorted ==> r == Ascending
  {
    if order == Ascending then Descending else Ascending
  }

  /**
   * `lstSolutions_ColumnClick`: the sort order flips whatever column was
   * clicked, and a comparer for that column and the new order is installed.
   */
  function OnColumnClick(d: Dialog, column: int): (e: Dialog)
    ensures e.sorting == Toggled(d.sorting)
    ensures e.sorting != Unsorted && e.sorting != d.sorting
    ensures e.sorter == ItemComparer(column, e.sorting)
    ensures e.(sorting := d.sorting, sorter := d.sorter) == d
  {
    var order := Toggled(d.sorting);
    d.(sorting := order, sorter := ItemComparer(column, order))
  }

  /** Two header clicks, on any columns, give back a sort order that was already set. */
  lemma ColumnClickTwice(d: Dialog, first: int, second: int)
    requires d.sorting != Unsorted
    ensures OnColumnClick(OnColumnClick(d, first), second).sorting == d.sorting
  {
  }

  /**
   * `worker_RunWorkerCompleted`: the cache becomes the fetched records, one
   * row per record is added to the list, the label counts the cache, and the
   * list and the confirm button are enabled.
   */
  function OnWorkerCompleted(d: Dialog, fetched: seq<Solution>): (e: Dialog)
    ensures e.environmentSolutions == fetched
    ensures |e.items| == |d.items| + |fetched| && e.items[..|d.items|] == d.items
    ensures Tags(e.items[|d.items|..]) == fetched
    ensures forall i :: |d.items| <= i < |e.items| ==> Shows(e.items[i], e.items[i].tag)
    ensures e.totalLabel == CountLabel(|fetched|)
    ensures e.listEnabled && e.validateEnabled
    ensures e.(environmentSolutions := d.environmentSolutions, items := d.items, totalLabel := d.totalLabel,
               listEnabled := d.listEnabled, validateEnabled := d.validateEnabled) == d
  {
    var rows := Rows(fetched);
    TagsOfRows(fetched);
    assert (d.items + rows)[|d.items|..] == rows;
    d.(environmentSolutions := fetched, items := d.items + rows, totalLabel := CountLabel(|fetched|),
       listEnabled := true, validateEnabled := true)
  }

  /** The events the dialog reacts to; `DoubleClick` is the double click on the list. */
  datatype Event =
    | Load
    | TextChanged(text: string)
    | SelectionChanged(indices: seq<nat>)
    | ValidateClick
    | CancelClick
    | DoubleClick
    | ColumnClick(column: int)
    | WorkerCompleted(fetched: seq<Solution>)
    | SelectedSolutionsSet(solutions: seq<Solution>)

  /**
   * Events that can arrive: a selection is made in the enabled list and
   * names rows of it, and the single background fetch completes once, while
   * the list is still disabled.
   */
  predicate Admissible(d: Dialog, e: Event) {
    match e
    case SelectionChanged(indices) => d.listEnabled && IsSelection(indices, |d.items|)
    case WorkerCompleted(_) => !d.listEnabled
    case _ => true
  }

  /** The state after one event; a double click runs the confirm handler. */
  ghost function Step(d: Dialog, e: Event): Dialog
    requires Inv(d) && Admissible(d, e)
  {
    match e
    case Load => OnLoad(d)
    case TextChanged(text) => OnTextChanged(d, text)
    case SelectionChanged(indices) => OnSelectionChanged(d, indices)
    case ValidateClick => OnValidate(d)
    case CancelClick => OnCancel(d)
    case DoubleClick => OnValidate(d)
    case ColumnClick(column) => OnColumnClick(d, column)
    case WorkerCompleted(fetched) => OnWorkerCompleted(d, fetched)
    case SelectedSolutionsSet(solutions) => OnSelectedSolutionsSet(d, solutions)
  }

  /** Rows rebuilt by the filter show cached records. */
  lemma TextChangedKeepsInv(d: Dialog, text: string)
    requires Inv(d)
    ensures Inv(OnTextChanged(d, text))
  {
    var e := OnTextChanged(d, text);
    forall i | 0 <= i < |e.items|
      ensures e.items[i].tag in d.environmentSolutions
    {
      assert e.items[i].tag == Tags(e.items)[i];
    }
  }

  /** Confirming keeps the invariant. */
  lemma ValidateKeepsInv(d: Dialog)
    requires Inv(d)
    ensures Inv(OnValidate(d))
  {
  }

  /** The records of the selected rows are cached records. */
  lemma SelectedRecordsCached(d: Dialog)
    requires Inv(d)
    ensures forall s :: s in SelectedRecords(d) ==> s in d.environmentSolutions
  {
    var records := SelectedRecords(d);
    forall s | s in records
      ensures s in d.environmentSolutions
    {
      var k :| 0 <= k < |records| && records[k] == s;
      assert s == d.items[d.selectedIndices[k]].tag;
    }
  }

  /**
   * Every record the confirm handler appends to `SelectedSolutions` is a
   * cached record: it is the tag of a listed row.
   */
  lemma ValidateAppendsCached(d: Dialog)
    requires Inv(d)
    ensures forall s :: s in OnValidate(d).selectedSolutions[|d.selectedSolutions|..] ==> s in d.environmentSolutions
  {
    var added := OnValidate(d).selectedSolutions[|d.selectedSolutions|..];
    if d.selectedIndices != [] {
      SelectedRecordsCached(d);
      assert added == SelectedRecords(d);
    } else {
      assert added == [];
    }
  }

  /** The fetch completes into a dialog that listed and selected nothing. */
  lemma WorkerCompletedKeepsInv(d: Dialog, fetched: seq<Solution>)
    requires Inv(d) && !d.listEnabled
    ensures Inv(OnWorkerCompleted(d, fetched))
  {
    var e := OnWorkerCompleted(d, fetched);
    forall i | 0 <= i < |e.items|
      ensures e.items[i].tag in fetched
    {
      assert e.items[i].tag == Tags(e.items[|d.items|..])[i];
    }
  }

  /** Every admissible event keeps the invariant. */
  lemma StepKeepsInv(d: Dialog, e: Event)
    requires Inv(d) && Admissible(d, e)
    ensures Inv(Step(d, e))
  {
    match e
    case TextChanged(text) => TextChangedKeepsInv(d, text);
    case ValidateClick => ValidateKeepsInv(d);
    case DoubleClick => ValidateKeepsInv(d);
    case WorkerCompleted(fetched) => WorkerCompletedKeepsInv(d, fetched);
    case _ =>
  }

  /**
   * While the fetch is in flight, confirming cannot succeed: nothing is
   * listed, so the confirm handler only shows its warning.
   */
  lemma ValidateWhileLoading(d: Dialog)
    requires Inv(d) && PhaseOf(d) == Loading
    ensures OnValidate(d) == d.(warningsShown := d.warningsShown + 1)
  {
  }

  /**
   * When the fetch completes, the list shows exactly the fetched records,
   * in order, and the label counts the rows.
   */
  lemma LoadedListShowsFetched(d: Dialog, fetched: seq<Solution>)
    requires Inv(d) && !d.listEnabled
    ensures OnWorkerCompleted(d, fetched).items == Rows(fetched)
    ensures OnWorkerCompleted(d, fetched).totalLabel == CountLabel(|OnWorkerCompleted(d, fetched).items|)
    ensures !d.closed ==> PhaseOf(OnWorkerCompleted(d, fetched)) == Ready
  {
    var e := OnWorkerCompleted(d, fetched);
    assert e.items == e.items[|d.items|..];
    TagsOfRows(fetched);
    RowsOfTags(e.items);
  }

  /** Rows that show their tags are the rows built from those tags. */
  lemma RowsOfTags(rows: seq<Row>)
    requires forall i :: 0 <= i < |rows| ==> Shows(rows[i], rows[i].tag)
    ensures Rows(Tags(rows)) == rows
  {
  }

  /**
   * The dialog only moves forward along its lifecycle: Loading to Ready or
   * Cancelled, Ready to Confirmed or Cancelled, and a closed dialog stays as
   * it closed (the fetch may still complete after a cancel).
   */
  lemma StepFollowsLifecycle(d: Dialog, e: Event)
    requires Inv(d) && Admissible(d, e)
    requires !d.closed || e.WorkerCompleted?
    ensures CanMove(PhaseOf(d), PhaseOf(Step(d, e)))
  {
    if (e.ValidateClick? || e.DoubleClick?) && PhaseOf(d) == Loading {
      ValidateWhileLoading(d);
    }
  }
}
