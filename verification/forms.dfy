/**
 * The solution-picker form: its fields are the state the event handlers
 * update in place, and each handler is a method proved to perform the
 * transition `Picker` gives for it, keeping the dialog's invariant.
 */
module Forms {
  import opened Solutions
  import opened Label
  import opened Picker

  class SolutionPicker {
    var environmentSolutions: seq<Solution>
    var items: seq<Row>
    var selectedIndices: seq<nat>
    var totalLabel: string
    var sorting: SortOrder
    var sorter: Sorter
    var dialogResult: DialogResult
    var closed: bool
    var warningsShown: nat
    var listEnabled: bool
    var validateEnabled: bool
    var selectedSolutions: seq<Solution>

    /** The form's fields as a `Dialog` value. */
    function State(): Dialog
      reads this
    {
      Dialog(environmentSolutions, items, selectedIndices, totalLabel, sorting, sorter,
             dialogResult, closed, warningsShown, listEnabled, validateEnabled, selectedSolutions)
    }

    ghost predicate Valid()
      reads this
    {
      Inv(State())
    }

    constructor ()
      ensures Valid() && State() == Initial()
    {
      environmentSolutions, items, selectedIndices := [], [], [];
      totalLabel, sorting, sorter := "", Unsorted, NoSorter;
      dialogResult, closed, warningsShown := NoResult, false, 0;
      listEnabled, validateEnabled := false, false;
      selectedSolutions := [];
    }

    /** `SolutionPicker_Load`: clears the list; the fetch it starts completes in `RunWorkerCompleted`. */
    method SolutionPickerLoad()
      requires Valid()
      modifies this
      ensures Valid() && State() == OnLoad(old(State()))
    {
      items := [];
      selectedIndices := [];
    }

    /** `filtersolution_TextChanged`: clears the list and adds one row per record the filter shows. */
    method FilterTextChanged(text: string)
      requires Valid()
      modifies this
      ensures Valid() && State() == OnTextChanged(old(State()), text)
    {
      ghost var d := State();
      var shown := Filter(environmentSolutions, text);
      items := [];
      selectedIndices := [];
      AddRows(shown);
      assert [] + Rows(shown) == Rows(shown);
      totalLabel := CountLabel(|shown|);
      assert State() == d.(items := Rows(shown), selectedIndices := [], totalLabel := CountLabel(|shown|));
      TextChangedKeepsInv(d, text);
    }

    /** The `foreach` that adds one row per record, in order, at the end of the list. */
    method AddRows(records: seq<Solution>)
      modifies this`items
      ensures items == old(items) + Rows(records)
    {
      for i := 0 to |records|
        invariant items == old(items) + Rows(records[..i])
      {
        assert records[..i + 1] == records[..i] + [records[i]];
        RowsAppend(records[..i], [records[i]]);
        items := items + [MakeRow(records[i])];
      }
      assert records[..|records|] == records;
    }

    /** The user selects rows of the enabled list. */
    method SelectRows(indices: seq<nat>)
      requires Valid() && listEnabled && IsSelection(indices, |items|)
      modifies this
      ensures Valid() && State() == OnSelectionChanged(old(State()), indices)
    {
      selectedIndices := indices;
    }

    /** The public setter of `SelectedSolutions`. */
    method SetSelectedSolutions(solutions: seq<Solution>)
      requires Valid()
      modifies this
      ensures Valid() && State() == OnSelectedSolutionsSet(old(State()), solutions)
    {
      selectedSolutions := solutions;
    }

    /** `btnSolutionPickerCancel_Click`. */
    method CancelClick()
      requires Valid()
      modifies this
      ensures Valid() && State() == OnCancel(old(State()))
      ensures selectedSolutions == old(selectedSolutions) && dialogResult == Cancel && closed
    {
      dialogResult := Cancel;
      closed := true;
    }

    /** `btnSolutionPickerValidate_Click`. */
    method ValidateClick()
      requires Valid()
      modifies this
      ensures Valid() && State() == OnValidate(old(State()))
      ensures old(selectedIndices) == [] ==> State() == old(State()).(warningsShown := old(warningsShown) + 1)
      ensures old(selectedIndices) != [] ==>
        selectedSolutions == old(selectedSolutions) + SelectedRecords(old(State())) && dialogResult == OK && closed
    {
      if |selectedIndices| > 0 {
        selectedSolutions := selectedSolutions + SelectedRecords(State());
        dialogResult := OK;
        closed := true;
      } else {
        warningsShown := warningsShown + 1;
      }
      ValidateKeepsInv(old(State()));
    }

    /** `lstSolutions_ColumnClick`: flips the sort order and installs a comparer for the clicked column. */
    method ColumnClick(column: int)
      requires Valid()
      modifies this
      ensures Valid() && State() == OnColumnClick(old(State()), column)
    {
      sorting := if sorting == Ascending then Descending else Ascending;
      sorter := ItemComparer(column, sorting);
    }

    /** `lstSolutions_DoubleClick`: the same state change as the confirm button. */
    method ListDoubleClick()
      requires Valid()
      modifies this
      ensures Valid() && State() == OnValidate(old(State()))
    {
      ValidateClick();
    }

    /**
     * `worker_RunWorkerCompleted` for a fetch that succeeded with `fetched`:
     * caches the records, adds one row per record, sets the label and
     * enables the list and the confirm button.
     */
    method RunWorkerCompleted(fetched: seq<Solution>)
      requires Valid() && !listEnabled
      modifies this
      ensures Valid() && State() == OnWorkerCompleted(old(State()), fetched)
      ensures items == Rows(fetched) && totalLabel == CountLabel(|items|)
    {
      ghost var d := State();
      environmentSolutions := fetched;
      AddRows(fetched);
      totalLabel := CountLabel(|fetched|);
      listEnabled := true;
      validateEnabled := true;
      assert State() == d.(environmentSolutions := fetched, items := d.items + Rows(fetched),
        totalLabel := CountLabel(|fetched|), listEnabled := true, validateEnabled := true);
      WorkerCompletedKeepsInv(d, fetched);
      LoadedListShowsFetched(d, fetched);
    }
  }

  /**
   * A caller's run of the dialog: it opens, loads `fetched`, the user
   * selects the first row and confirms. The dialog ends with OK and hands
   * back exactly that record.
   */
  method PickFirst(fetched: seq<Solution>) returns (result: DialogResult, chosen: seq<Solution>)
    requires fetched != []
    ensures result == OK && chosen == [fetched[0]]
  {
    var picker := new SolutionPicker();
    picker.SolutionPickerLoad();
    assert picker.selectedSolutions == [] && !picker.listEnabled;
    picker.RunWorkerCompleted(fetched);
    assert picker.selectedSolutions == [] && |picker.items| == |fetched|;
    picker.SelectRows([0]);
    assert picker.selectedSolutions == [] && picker.items == Rows(fetched) && picker.selectedIndices == [0];
    picker.ValidateClick();
    result, chosen := picker.dialogResult, picker.selectedSolutions;
  }
}
