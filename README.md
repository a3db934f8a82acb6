# Ministry allocation survey: a Dafny model

The survey (`App.py`) is a one-page form. A respondent spreads a budget of
exactly $100 over a fixed catalogue. The catalogue has five ministry
priorities, and each priority offers the same 21 line items. The session
holds a table `priority -> item -> amount` and a `submitted` flag. A
respondent can:

- fill the number inputs (each one keeps its amount in 0..100);
- read the per-priority subtotals, the grand total and the guidance
  message;
- clear the form;
- submit, which is possible only when the total is exactly 100.

On submission the positive amounts become timestamped rows. The rows are
appended to `responses.csv`, which gets its header only when it is
created. A successful write offers a personal CSV copy and then clears
the table.

The model has five modules:

- `Wrappers`: `Option`.
- `Catalog`: the literal item and priority lists and `PRIORITY_ITEMS`, and
  the proof that no name is listed twice. Every other definition takes the
  catalogue as a value `Catalogue(priorities, items)` and relies only on
  its names being distinct. The session always uses `TheCatalogue`.
- `Allocations`: the table as a nested map, as in the source. It also holds
  the functions that specify what the session's loops compute:
  - the zeroed table;
  - row sums, subtotals and the total;
  - the list of positive entries in catalogue order.

  The lemmas about these functions are here too.
- `CsvLog`: CSV lines as sequences of cells, the log rows and the personal
  copy. It also has `responses.csv` as a `ResponsesFile` object whose
  contents are `None` while the file does not exist. `write_csv` is a method
  on that object. Its pure counterpart `AfterWrite` carries the header-once
  and append-only lemmas, including `Replay` over any number of calls. The
  header is written only by the call that creates the file. If that header
  write fails, the file exists but is empty. The next call in which
  nothing raises appends its rows with no header and reports success
  (`HeaderLostAfterFailedHeaderWrite`). No later sequence of calls, whatever
  fails, ever gives the file a header (`NoHeaderAfterEmptyFile`).
- `Survey`: `st.session_state` as the `Session` class, whose methods
  update its fields in place. It also holds the guidance classification
  and the submit branch.

The loops of `clear_all`, `get_subtotals_and_total`, `allocations_rows` and
`make_personal_copy_csv` are `while` loops. Each is proved against the
specification functions in `Allocations` and `CsvLog`. The properties the
survey relies on are then lemmas about those functions.

## Model

| member | source | states |
|---|---|---|
| Catalog.CatalogShape | App.py:25-57 | There are 21 items and 5 priorities, none listed twice. `PRIORITY_ITEMS` maps exactly the priorities, each to the full item list. |
| Catalog.ItemsDifferent | App.py:25-47 | Two different positions of `ALL_ITEMS` hold different names. |
| Catalog.PrioritiesDifferent | App.py:49-55 | Two different positions of `PRIORITIES` hold different names. |
| Catalog.DifferentIsDistinct | App.py:25-55 | A list whose positions hold pairwise different names has each name at its own index. The catalogue proofs use this form. |
| Allocations.ZeroTable | App.py:63-67 | The table `init_state` builds has every priority and, under each, every item. All amounts are 0, so all are in range. |
| Allocations.UpdateCell | App.py:156-174 | Storing an in-range value from a number input keeps the table's priorities and items and keeps every amount in 0..100. |
| Allocations.ZeroAllItems | App.py:82-83 | Setting each item of a row to 0, one by one, yields the all-zero row, whatever the row held. |
| Allocations.ZeroAllRows | App.py:81-83 | Zeroing every priority's row yields the table `init_state` builds, with the same priorities and items. |
| Allocations.ZeroFirstItemsZeroes | App.py:82-83 | Partway through a row, its keys are unchanged and every item already visited is 0. |
| Allocations.ZeroFirstRowsZeroes | App.py:81-83 | Partway through the table, its priorities are unchanged and every priority already visited has the all-zero row. |
| Allocations.ZeroFirstRowsRow | App.py:81-83 | Partway through, every priority is still present with exactly the catalogue's items. |
| Allocations.SubtotalsUpToAt | App.py:73-75 | After the first `m` priorities, `subtotals` has exactly those priorities as keys, each mapped to the sum of its own amounts. |
| Allocations.RowEntriesStep | App.py:91-93 | Helper for the row loops: visiting one more item adds that item's entry if its amount is positive, and nothing otherwise. |
| Allocations.EntriesSumToTotal | App.py:72-99 | The amounts of the rows sum to the grand total, which is the sum of the subtotals, that is, of every (priority, item) amount. |
| Allocations.RowEntriesSum | App.py:75 | One priority's positive entries add up to that priority's subtotal. |
| Allocations.TableEntriesSum | App.py:76 | The positive entries of the first `m` priorities add up to the sum of their subtotals. |
| Allocations.EntrySumConcat | App.py:76 | The amount sum of two entry lists joined is the sum of their amount sums. |
| Allocations.FullBudgetHasEntries | App.py:208-212 | With amounts in range, a total of exactly 100 gives at least one row, so the "No allocations" branch is unreachable after the gate. |
| Allocations.PositiveEntriesMembers | App.py:87-99 | An entry is listed if and only if its priority and item are in the catalogue and it carries that cell's amount, which is positive. No zero amount appears, and no positive one is missed. |
| Allocations.RowEntriesMembers | App.py:91-93 | Within one priority, an entry is listed if and only if it is one of the items visited so far, with its own positive amount. |
| Allocations.TableEntriesMembers | App.py:89-93 | Over the priorities visited so far, an entry is listed if and only if it is a positive cell of one of them. |
| Allocations.PositiveEntriesOrdered | App.py:87-99 | Entries follow `PRIORITIES` order, then item order, and no (priority, item) cell appears twice. |
| Allocations.RowEntriesOrdered | App.py:91-93 | Within one priority, entries follow item order. |
| Allocations.TableEntriesOrdered | App.py:89-93 | Across priorities, entries follow priority order, then item order. |
| Allocations.AllZeroIsZeroTable | App.py:80-84 | Any table with the catalogue's shape and all amounts 0 is exactly the table `init_state` builds. |
| Allocations.ZeroTableIsEmpty | App.py:80-99 | The cleared table has no rows and a total of 0. |
| CsvLog.LogLinesAt | App.py:87-99 | Row k is `[timestamp, priority, item, amount]` of the k-th entry. Every row has the same timestamp and its own amount. |
| CsvLog.LogLinesAppend | App.py:89-97 | The rows of two runs of entries are the first run's rows followed by the second's. |
| CsvLog.CopyLinesAppend | App.py:129-132 | The same holds for the personal copy's rows. |
| CsvLog.CopyIsLogWithoutTimestamp | App.py:123-134 | The personal copy is the header `priority, item, amount` followed by exactly the log rows with the timestamp column dropped, in the same order. |
| CsvLog.CopyLinesAreLogLinesWithoutTimestamp | App.py:129-132 | Each personal-copy row is the matching log row without its first column. |
| CsvLog.LogLinesAreData | App.py:95-97 | Every built row is a data row: four columns, a number last. It can never equal the header. |
| CsvLog.HeaderExactlyOnce | App.py:104-110 | In a well-formed log the header is the first line and occurs exactly once. |
| CsvLog.HeaderAtMostOnce | App.py:104-117 | In a log whose only possible header line is the first, the header occurs once if the log starts with it and never otherwise. |
| CsvLog.HeaderOnceInEveryPrefix | App.py:104-117 | Every prefix of such a log holds the header once if the log starts with it and never otherwise. |
| CsvLog.WriteSucceedsIff | App.py:106-120 | A call returns True exactly when none of its steps raises: the create, then the header write and close (both only when the file is absent), then the append. |
| CsvLog.WriteAppends | App.py:102-120 | A successful write turns an absent file into header + rows. On an existing file it appends the rows after the unchanged contents. No write alters an existing line. A failed write leaves the file as it was or, when it had to create the file, leaves it empty or holding only the header. It leaves an empty file exactly when the create succeeds and the header write or close raises. |
| CsvLog.WriteKeepsHeaderOnlyFirst | App.py:102-120 | Whatever step raises, writing data rows keeps every line except the first a data row, with the first line the header or a data row. |
| CsvLog.WriteKeepsLogWellFormed | App.py:102-120 | Whatever step raises, writing data rows keeps a well-formed log well formed. Creating the log gives a well-formed log, unless the header write or close raises and leaves an empty file. |
| CsvLog.ReplayKeepsHeaderOnce | App.py:102-120 | For any sequence of calls, successful or not, starting from no file, the log is absent or holds the header at most once, and then only as its first line. If no header write raises, the log is absent or holds the header exactly once, as its first line. |
| CsvLog.HeaderLostAfterFailedHeaderWrite | App.py:106-120 | If the create succeeds and the header write raises, the call fails and leaves an empty file. The next call in which nothing raises finds the file present, appends its rows with no header and reports success. |
| CsvLog.NoHeaderAfterEmptyFile | App.py:106-120 | From the empty file a failed header write leaves, any sequence of calls of data rows, succeeding or failing, keeps the file present with only data rows, so the header never appears. |
| CsvLog.ReplaySuccessfulWrites | App.py:102-120 | One or more calls in which no step raises, on an absent file, leave the header followed by every call's rows, in call order. |
| CsvLog.ResponsesFile.WriteCsv | App.py:102-120 | Creates the file with its header when absent, then appends the rows one at a time. The new contents are `AfterWrite`. It returns `(True, None)` when no step raises, and otherwise `(False, err)` with the error of the first step that raised: the create, the header write and close, or the append. |
| Survey.Guide | App.py:191-196 | Exactly one of three outcomes: over 100, with a positive excess of `total - 100`; under 100, with a positive shortfall of `100 - total`; or exactly 100. |
| Survey.GuidanceMatchesButton | App.py:191-206 | Helper linking two conditions: the guidance reports success exactly when the submit button is enabled. |
| Survey.Session.InitState | App.py:63-69 | Sets `allocations` to the all-zero table and `submitted` to False, but only for a key that is absent. A second call therefore changes nothing. The result is a valid session. |
| Survey.Session.SetAmount | App.py:156-174 | Stores one number input's value in its cell. Nothing else changes, and the session stays valid. |
| Survey.Session.ClearAll | App.py:80-84 | The nested loop zeroes every cell in place. The table becomes the one `init_state` builds, and `submitted` becomes False. |
| Survey.Session.SumOfRow | App.py:75 | The loop returns the sum of one priority's amounts. |
| Survey.Session.GetSubtotalsAndTotal | App.py:72-77 | `subtotals` has exactly the priorities as keys, each with the sum of its amounts. `total` is the sum of the subtotals. |
| Survey.Session.AllocationsRows | App.py:87-99 | The nested loop returns exactly the log rows of the positive entries, in catalogue order, all with the given timestamp. |
| Survey.Session.MakePersonalCopyCsv | App.py:123-134 | The nested loop returns the personal copy: the header, then one `priority, item, amount` row per positive entry, in catalogue order. |
| Survey.Session.Submit | App.py:206-229 | If the button is not pressed or the total is not 100, nothing changes. Otherwise the log receives exactly the positive-entry rows via `AfterWrite`, and the "No allocations" outcome never occurs. A successful write returns the personal copy of the table as it was before clearing; the table is then zeroed and `submitted` ends False. A failed write reports the error and leaves the session unchanged. |

## Left out

- Streamlit rendering and widgets are not modelled: titles, expanders, columns, metrics, buttons, the download button and `st.rerun`. A button press is a boolean input. A number input is `SetAmount`, whose precondition carries the widget's 0..100 range.
- The two-column split of the inputs (App.py:149-151) only affects layout and is not modelled.
- The progress bar value `min(total, 100) / 100` (App.py:188) is floating point and display only, so it is not modelled.
- The clock (`datetime.utcnow().isoformat()`, App.py:209) is not read. The timestamp is an input string.
- File-system calls, the `FileExistsError` handling and the `csv`/`StringIO` quoting are not modelled at the byte level. Files and CSV text are sequences of lines of cells. The personal copy is returned as those lines rather than as one string.
- What each step of `write_csv` raises is an input (`Faults`). There are three steps: the create, the header write with its close, and the append. A failure part-way through appending rows is not modelled: an append either writes all rows or none. A failed header write or close leaves the new file empty, and the model does not distinguish a header that was partly flushed.
- Exception texts (`str(e)`) are opaque strings.
- Concurrent sessions appending to `responses.csv` are not modelled.
- Per-submission files and an administrator view are not modelled, because `App.py` does not implement them.
- Survey.Session.GetSubtotalsAndTotal: each subtotal sums the row over the catalogue's items rather than over `dict.values()`. These agree because every row has exactly the catalogue's items as keys (`Valid`) and no item is listed twice (`Catalog.CatalogShape`).
- Survey.Session.AllocationsRows and Survey.Session.MakePersonalCopyCsv: a row's items are visited in catalogue order rather than in the row dictionary's iteration order. These agree because `init_state` inserts the items in catalogue order and later writes only replace values. Both functions iterate `.items()` (App.py:91, 130).
- Survey.Session.Submit: the flow sets `submitted` to True and then `clear_all` resets it to False, so the flag ends False after a successful submission. The model keeps this behaviour as written.
- The loops update a local copy of the table and store it in the field once at the end. Aliasing of the inner dictionaries is therefore not modelled.
