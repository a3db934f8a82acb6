/**
 * One respondent session of the allocation survey (App.py:63-99,
 * 123-134, 156-229): the session state, the table operations, the
 * guidance shown for the total and the gated submission.
 */
module Survey {
  import opened Wrappers
  import opened Catalog
  import opened Allocations
  import opened CsvLog

  /** The message shown under the totals. */
  datatype Guidance = Exceeds(excess: int) | FallsShort(shortfall: int) | Exact

  /** Guidance for a total (App.py:191-196): exactly one of over, under or
      exactly the budget of 100, with a positive excess or shortfall. */
  function Guide(total: int): (g: Guidance)
    ensures g.Exceeds? <==> total > 100
    ensures g.FallsShort? <==> total < 100
    ensures g.Exact? <==> total == 100
    ensures g.Exceeds? ==> g.excess > 0 && total == 100 + g.excess
    ensures g.FallsShort? ==> g.shortfall > 0 && total == 100 - g.shortfall
  {
    if total > 100 then Exceeds(total - 100)
    else if total < 100 then FallsShort(100 - total)
    else Exact
  }

  /** The submit button is disabled unless the total is exactly 100 (App.py:206). */
  predicate SubmitDisabled(total: int) {
    total != 100
  }

  /** The guidance reports success exactly when the submit button is enabled. */
  lemma GuidanceMatchesButton(total: int)
    ensures Guide(total).Exact? <==> !SubmitDisabled(total)
  {
  }

  /** What a run of the submit branch ends with (App.py:208-229). */
  datatype SubmitOutcome =
    | NotSubmitted
    | NoAllocations
    | Recorded(personalCopy: seq<CsvLine>)
    | SaveFailed(error: string)

  /** The survey's keys of `st.session_state`. */
  class Session {
    /** The catalogue the form shows; always `TheCatalogue`. */
    const catalogue: Catalogue
    /** `allocations`; None while the key is not set. */
    var allocations: Option<Table>
    /** `submitted`; None while the key is not set. */
    var submitted: Option<bool>

    /** Both keys are set, and the table has the catalogue's shape with
        every amount in the inputs' range. */
    ghost predicate Valid()
      reads this
    {
      allocations.Some? && submitted.Some? &&
      WellShaped(catalogue, allocations.value) && InRange(catalogue, allocations.value)
    }

    /** A new session, before `init_state` has run. */
    constructor ()
      ensures catalogue == TheCatalogue && WellFormed(catalogue)
      ensures allocations.None? && submitted.None?
    {
      CatalogShape();
      catalogue := TheCatalogue;
      allocations, submitted := None, None;
    }

    /** `init_state` (App.py:63-69): sets each key only when it is absent,
        to the all-zero table and to False, so a second call changes nothing. */
    method InitState()
      modifies this
      ensures allocations == if old(allocations).None? then Some(ZeroTable(catalogue)) else old(allocations)
      ensures submitted == if old(submitted).None? then Some(false) else old(submitted)
      ensures old(allocations.None? || Valid()) ==> Valid()
    {
      if allocations.None? {
        allocations := Some(ZeroTable(catalogue));
      }
      if submitted.None? {
        submitted := Some(false);
      }
    }

    /** A number input storing its value (App.py:156-174); the widget only
        yields integers in 0..100. */
    method SetAmount(p: string, item: string, amount: int)
      requires Valid() && p in catalogue.priorities && item in catalogue.items && 0 <= amount <= 100
      modifies this
      ensures Valid() && submitted == old(submitted)
      ensures allocations == Some(old(allocations.value)[p := old(allocations.value)[p][item := amount]])
    {
      var t := allocations.value;
      UpdateCell(catalogue, t, p, item, amount);
      allocations := Some(t[p := t[p][item := amount]]);
    }

    /** `clear_all` (App.py:80-84): zeroes every amount in place and resets
        the submitted flag. */
    method ClearAll()
      requires Valid()
      modifies this
      ensures Valid()
      ensures allocations == Some(ZeroTable(catalogue)) && submitted == Some(false)
    {
      var c, t0 := catalogue, allocations.value;
      var t := t0;
      var i := 0;
      while i < |c.priorities|
        invariant 0 <= i <= |c.priorities|
        invariant t == ZeroFirstRows(c, t0, i)
      {
        var p := c.priorities[i];
        ZeroFirstRowsRow(c, t0, i, p);
        var row0 := t[p];
        var row := row0;
        var j := 0;
        while j < |c.items|
          invariant 0 <= j <= |c.items|
          invariant row == ZeroFirstItems(c, row0, j)
        {
          row := row[c.items[j] := 0];
          j := j + 1;
        }
        ZeroAllItems(c, row0);
        t := t[p := row];
        i := i + 1;
      }
      ZeroAllRows(c, t0);
      allocations := Some(t);
      submitted := Some(false);
    }

    /** `sum(st.session_state.allocations[p].values())` (App.py:75): the
        amounts of one priority added up item by item. */
    method SumOfRow(p: string) returns (sum: int)
      requires Valid() && p in catalogue.priorities
      ensures sum == Subtotal(catalogue, allocations.value, p)
    {
      var c, t := catalogue, allocations.value;
      sum := 0;
      var j := 0;
      while j < |c.items|
        invariant 0 <= j <= |c.items|
        invariant sum == RowSum(c, t, p, j)
      {
        sum := sum + t[p][c.items[j]];
        j := j + 1;
      }
    }

    /** `get_subtotals_and_total` (App.py:72-77): one subtotal per priority,
        each the sum of that priority's amounts, and the total of the
        subtotals. */
    method GetSubtotalsAndTotal() returns (subtotals: map<string, int>, total: int)
      requires Valid()
      ensures forall p :: p in subtotals <==> p in catalogue.priorities
      ensures forall p :: p in catalogue.priorities ==> subtotals[p] == Subtotal(catalogue, allocations.value, p)
      ensures total == Total(catalogue, allocations.value)
    {
      var c, t := catalogue, allocations.value;
      subtotals := map[];
      var i := 0;
      while i < |c.priorities|
        invariant 0 <= i <= |c.priorities|
        invariant subtotals == SubtotalsUpTo(c, t, i)
      {
        var p := c.priorities[i];
        var sum := SumOfRow(p);
        subtotals := subtotals[p := sum];
        i := i + 1;
      }
      assert c.priorities[..i] == c.priorities;
      forall p
        ensures p in subtotals <==> p in c.priorities
        ensures p in subtotals ==> subtotals[p] == Subtotal(c, t, p)
      {
        SubtotalsUpToAt(c, t, i, p);
      }
      total := 0;
      var k := 0;
      while k < |c.priorities|
        invariant 0 <= k <= |c.priorities|
        invariant total == SubtotalSum(c, t, k)
      {
        total := total + subtotals[c.priorities[k]];
        k := k + 1;
      }
    }

    /** `allocations_rows` (App.py:87-99): one row `[timestamp, priority,
        item, amount]` per positive amount, in priority then item order. */
    method AllocationsRows(timestamp: string) returns (rows: seq<CsvLine>)
      requires Valid()
      ensures rows == LogLines(timestamp, PositiveEntries(catalogue, allocations.value))
    {
      var c, t := catalogue, allocations.value;
      rows := [];
      var i := 0;
      while i < |c.priorities|
        invariant 0 <= i <= |c.priorities|
        invariant rows == LogLines(timestamp, TableEntries(c, t, i))
      {
        var p := c.priorities[i];
        var pRows := [];
        var j := 0;
        while j < |c.items|
          invariant 0 <= j <= |c.items|
          invariant pRows == LogLines(timestamp, RowEntries(c, t, p, j))
        {
          var item := c.items[j];
          var amt := t[p][item];
          RowEntriesStep(c, t, p, j);
          if amt > 0 {
            LogLinesAppend(timestamp, RowEntries(c, t, p, j), [Entry(p, item, amt)]);
            pRows := pRows + [[Text(timestamp), Text(p), Text(item), Number(amt)]];
          }
          j := j + 1;
        }
        LogLinesAppend(timestamp, TableEntries(c, t, i), RowEntries(c, t, p, j));
        rows := rows + pRows;
        i := i + 1;
      }
    }

    /** `make_personal_copy_csv` (App.py:123-134): the header
        `priority, item, amount`, then one row per positive amount, in
        priority then item order. */
    method MakePersonalCopyCsv() returns (csv: seq<CsvLine>)
      requires Valid()
      ensures csv == PersonalCopy(PositiveEntries(catalogue, allocations.value))
    {
      var c, t := catalogue, allocations.value;
      var lines := [];
      var i := 0;
      while i < |c.priorities|
        invariant 0 <= i <= |c.priorities|
        invariant lines == CopyLines(TableEntries(c, t, i))
      {
        var p := c.priorities[i];
        var pLines := [];
        var j := 0;
        while j < |c.items|
          invariant 0 <= j <= |c.items|
          invariant pLines == CopyLines(RowEntries(c, t, p, j))
        {
          var item := c.items[j];
          var amt := t[p][item];
          RowEntriesStep(c, t, p, j);
          if amt > 0 {
            CopyLinesAppend(RowEntries(c, t, p, j), [Entry(p, item, amt)]);
            pLines := pLines + [[Text(p), Text(item), Number(amt)]];
          }
          j := j + 1;
        }
        CopyLinesAppend(TableEntries(c, t, i), RowEntries(c, t, p, j));
        lines := lines + pLines;
        i := i + 1;
      }
      csv := [CopyHeader] + lines;
    }

    /** The submit branch (App.py:206-229). It runs only when the button is
        pressed and the total is exactly 100; the rows are written to the
        log, and only a successful write offers the personal copy, built
        from the table as it was, and then clears the table. A failed write
        leaves the session as it was. */
    method Submit(clicked: bool, timestamp: string, log: ResponsesFile,
                  faults: Faults)
      returns (outcome: SubmitOutcome)
      requires Valid()
      modifies this, log
      ensures Valid()
      ensures var t := old(allocations.value);
        !(clicked && Total(catalogue, t) == 100) ==>
          outcome == NotSubmitted && log.contents == old(log.contents) &&
          allocations == old(allocations) && submitted == old(submitted)
      ensures var t := old(allocations.value);
        clicked && Total(catalogue, t) == 100 ==>
          !outcome.NotSubmitted? && !outcome.NoAllocations? &&
          log.contents == AfterWrite(old(log.contents), LogLines(timestamp, PositiveEntries(catalogue, t)), faults)
      ensures var t := old(allocations.value);
        clicked && Total(catalogue, t) == 100 && WriteSucceeds(old(log.contents), faults) ==>
          outcome == Recorded(PersonalCopy(PositiveEntries(catalogue, t))) &&
          allocations == Some(ZeroTable(catalogue)) && submitted == Some(false)
      ensures var t := old(allocations.value);
        clicked && Total(catalogue, t) == 100 && !WriteSucceeds(old(log.contents), faults) ==>
          outcome == SaveFailed(WriteError(old(log.contents), faults).value) &&
          allocations == old(allocations) && submitted == old(submitted)
    {
      var subtotals, total := GetSubtotalsAndTotal();
      var pressed := clicked && !SubmitDisabled(total);
      if !(pressed && total == 100) {
        return NotSubmitted;
      }
      var rows := AllocationsRows(timestamp);
      FullBudgetHasEntries(catalogue, allocations.value);
      if rows == [] {
        return NoAllocations;
      }
      var ok, err := log.WriteCsv(rows, faults);
      if ok {
        submitted := Some(true);
        var copy := MakePersonalCopyCsv();
        outcome := Recorded(copy);
        ClearAll();
      } else {
        outcome := SaveFailed(err.value);
      }
    }
  }
}
