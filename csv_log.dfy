/**
 * CSV output of the survey: the timestamped log rows, the personal copy
 * (App.py:87-99, 123-134) and the append-only response log with its
 * header-once rule (App.py:102-120). A CSV file is a sequence of lines, a
 * line a sequence of cells; byte-level quoting is not part of this model.
 */
module CsvLog {
  import opened Wrappers
  import opened Allocations

  /** One CSV field: a string, or an integer written as decimal digits. */
  datatype Cell = Text(text: string) | Number(value: int)

  type CsvLine = seq<Cell>

  /** Header of responses.csv (App.py:104). */
  const LogHeader: CsvLine := [Text("timestamp"), Text("priority"), Text("item"), Text("amount")]

  /** Header of the personal copy (App.py:125). */
  const CopyHeader: CsvLine := [Text("priority"), Text("item"), Text("amount")]

  /** The row `[timestamp_iso, p, item, int(amt)]` of `allocations_rows`. */
  function LogLine(timestamp: string, e: Entry): CsvLine {
    [Text(timestamp), Text(e.priority), Text(e.item), Number(e.amount)]
  }

  /** The row `[p, item, int(amt)]` of the personal copy. */
  function CopyLine(e: Entry): CsvLine {
    [Text(e.priority), Text(e.item), Number(e.amount)]
  }

  /** One log row per entry, in the entries' order. */
  function LogLines(timestamp: string, es: seq<Entry>): (ls: seq<CsvLine>)
    ensures |ls| == |es|
  {
    if es == [] then [] else LogLines(timestamp, es[..|es| - 1]) + [LogLine(timestamp, es[|es| - 1])]
  }

  /** One personal-copy row per entry, in the entries' order. */
  function CopyLines(es: seq<Entry>): seq<CsvLine> {
    if es == [] then [] else CopyLines(es[..|es| - 1]) + [CopyLine(es[|es| - 1])]
  }

  /** The personal copy: its header, then one row per entry. */
  function PersonalCopy(es: seq<Entry>): seq<CsvLine> {
    [CopyHeader] + CopyLines(es)
  }

  /** The log rows of two runs of entries are the rows of the first run
      followed by the rows of the second. */
  lemma {:induction false} LogLinesAppend(timestamp: string, a: seq<Entry>, b: seq<Entry>)
    ensures LogLines(timestamp, a + b) == LogLines(timestamp, a) + LogLines(timestamp, b)
  {
    if b != [] {
      var b' := b[..|b| - 1];
      assert (a + b)[..|a + b| - 1] == a + b';
      assert (a + b)[|a + b| - 1] == b[|b| - 1];
      LogLinesAppend(timestamp, a, b');
      assert LogLines(timestamp, b) == LogLines(timestamp, b') + [LogLine(timestamp, b[|b| - 1])];
    } else {
      assert a + b == a;
    }
  }

  /** The personal-copy rows of two runs of entries are the rows of the
      first run followed by the rows of the second. */
  lemma {:induction false} CopyLinesAppend(a: seq<Entry>, b: seq<Entry>)
    ensures CopyLines(a + b) == CopyLines(a) + CopyLines(b)
  {
    if b != [] {
      var b' := b[..|b| - 1];
      assert (a + b)[..|a + b| - 1] == a + b';
      assert (a + b)[|a + b| - 1] == b[|b| - 1];
      CopyLinesAppend(a, b');
      assert CopyLines(b) == CopyLines(b') + [CopyLine(b[|b| - 1])];
    } else {
      assert a + b == a;
    }
  }

  /** A line with its first (timestamp) column removed. */
  function WithoutTimestamp(l: CsvLine): CsvLine {
    if l == [] then [] else l[1..]
  }

  function WithoutTimestamps(ls: seq<CsvLine>): seq<CsvLine> {
    if ls == [] then [] else WithoutTimestamps(ls[..|ls| - 1]) + [WithoutTimestamp(ls[|ls| - 1])]
  }

  /** The k-th log row carries the shared timestamp and the k-th entry's
      priority, item and own amount. */
  lemma {:induction false} LogLinesAt(timestamp: string, es: seq<Entry>, k: nat)
    requires k < |es|
    ensures |LogLines(timestamp, es)| == |es|
    ensures LogLines(timestamp, es)[k] ==
      [Text(timestamp), Text(es[k].priority), Text(es[k].item), Number(es[k].amount)]
  {
    if k < |es| - 1 {
      LogLinesAt(timestamp, es[..|es| - 1], k);
    } else if |es| > 1 {
      LogLinesAt(timestamp, es[..|es| - 1], 0);
    }
  }

  /** The personal copy is the copy header followed by exactly the log rows
      with the timestamp column dropped, in the same order. */
  lemma {:induction false} CopyIsLogWithoutTimestamp(timestamp: string, es: seq<Entry>)
    ensures PersonalCopy(es) == [CopyHeader] + WithoutTimestamps(LogLines(timestamp, es))
  {
    CopyLinesAreLogLinesWithoutTimestamp(timestamp, es);
  }

  lemma {:induction false} CopyLinesAreLogLinesWithoutTimestamp(timestamp: string, es: seq<Entry>)
    ensures CopyLines(es) == WithoutTimestamps(LogLines(timestamp, es))
  {
    if es != [] {
      var init := es[..|es| - 1];
      CopyLinesAreLogLinesWithoutTimestamp(timestamp, init);
      var ls := LogLines(timestamp, es);
      assert ls == LogLines(timestamp, init) + [LogLine(timestamp, es[|es| - 1])];
      assert ls[..|ls| - 1] == LogLines(timestamp, init);
    }
  }

  // ---------------------------------------------------------------------
  // responses.csv
  // ---------------------------------------------------------------------

  /** A row of data: four columns, the amount a number (never a header). */
  predicate IsDataLine(l: CsvLine) {
    |l| == 4 && l[3].Number?
  }

  /** A log file as `write_csv` leaves it when nothing goes wrong: the
      header first, then data rows. */
  predicate WellFormedLog(f: seq<CsvLine>) {
    |f| >= 1 && f[0] == LogHeader && forall k :: 1 <= k < |f| ==> IsDataLine(f[k])
  }

  /** Every line is a data row, except that the first line may be the
      header: the shape of every log `write_csv` can produce. */
  predicate HeaderOnlyFirst(f: seq<CsvLine>) {
    (forall k :: 1 <= k < |f| ==> IsDataLine(f[k])) &&
    (|f| >= 1 ==> f[0] == LogHeader || IsDataLine(f[0]))
  }

  /** Number of occurrences of `l` in `f`. */
  function Occurrences(f: seq<CsvLine>, l: CsvLine): nat {
    if f == [] then 0 else Occurrences(f[..|f| - 1], l) + (if f[|f| - 1] == l then 1 else 0)
  }

  /** Every row built by `allocations_rows` is a data row. */
  lemma {:induction false} LogLinesAreData(timestamp: string, es: seq<Entry>)
    ensures forall k :: 0 <= k < |LogLines(timestamp, es)| ==> IsDataLine(LogLines(timestamp, es)[k])
  {
    forall k | 0 <= k < |LogLines(timestamp, es)|
      ensures IsDataLine(LogLines(timestamp, es)[k])
    {
      LogLinesAt(timestamp, es, k);
    }
  }

  /** In a well-formed log the header is the first line and occurs exactly once. */
  lemma HeaderExactlyOnce(f: seq<CsvLine>)
    requires WellFormedLog(f)
    ensures f[0] == LogHeader && Occurrences(f, LogHeader) == 1
  {
    HeaderOnceInEveryPrefix(f, |f|);
    assert f[..|f|] == f;
  }

  /** A log whose only possible header is its first line holds the header
      once if it starts with it and never otherwise. */
  lemma HeaderAtMostOnce(f: seq<CsvLine>)
    requires HeaderOnlyFirst(f)
    ensures Occurrences(f, LogHeader) == if |f| >= 1 && f[0] == LogHeader then 1 else 0
  {
    HeaderOnceInEveryPrefix(f, |f|);
    assert f[..|f|] == f;
  }

  /** Every prefix of such a log holds the header once if the log starts
      with it and never otherwise. */
  lemma {:induction false} HeaderOnceInEveryPrefix(f: seq<CsvLine>, n: nat)
    requires HeaderOnlyFirst(f) && n <= |f|
    ensures Occurrences(f[..n], LogHeader) == if n >= 1 && f[0] == LogHeader then 1 else 0
  {
    if n == 1 {
      assert f[..1][..0] == [];
    } else if n > 1 {
      HeaderOnceInEveryPrefix(f, n - 1);
      assert f[..n][..n - 1] == f[..n - 1];
      assert IsDataLine(f[n - 1]);
    }
  }

  /** What the steps of one `write_csv` call raise, if anything: creating
      the absent file with open(..., "x") (App.py:108), writing its header
      and closing it (App.py:109-110), and open(..., "a") with the row
      appends (App.py:114-117). */
  datatype Faults = Faults(create: Option<string>, header: Option<string>, append: Option<string>)

  /** The content of responses.csv after `write_csv(rows)`, where `file` is
      the content before (None when the file does not exist). A failed
      header write leaves the newly created file empty. */
  function AfterWrite(file: Option<seq<CsvLine>>, rows: seq<CsvLine>, faults: Faults): Option<seq<CsvLine>>
  {
    if file.None? && faults.create.Some? then None
    else if file.None? && faults.header.Some? then Some([])
    else
      var existing := if file.None? then [LogHeader] else file.value;
      if faults.append.Some? then Some(existing) else Some(existing + rows)
  }

  /** The error `write_csv` reports: that of the first step that raised. */
  function WriteError(file: Option<seq<CsvLine>>, faults: Faults): Option<string> {
    if file.None? && faults.create.Some? then faults.create
    else if file.None? && faults.header.Some? then faults.header
    else faults.append
  }

  /** Whether `write_csv` returns True. */
  predicate WriteSucceeds(file: Option<seq<CsvLine>>, faults: Faults) {
    WriteError(file, faults).None?
  }

  /** A call succeeds exactly when no step it takes raises: the create and
      header steps count only when the file is absent. */
  lemma WriteSucceedsIff(file: Option<seq<CsvLine>>, faults: Faults)
    ensures WriteSucceeds(file, faults) <==>
      (file.None? ==> faults.create.None? && faults.header.None?) && faults.append.None?
  {
  }

  /** A successful write creates an absent file as the header followed by
      the rows, and appends the rows after an existing file's unchanged
      contents. No write alters an existing line. A failed write leaves
      the file as it was, or, when it had to create the file, leaves it
      empty (the header write failed) or holding only the header (the
      append failed). */
  lemma WriteAppends(file: Option<seq<CsvLine>>, rows: seq<CsvLine>, faults: Faults)
    ensures var after := AfterWrite(file, rows, faults);
      (WriteSucceeds(file, faults) ==>
        after == Some((if file.None? then [LogHeader] else file.value) + rows)) &&
      (file.Some? ==> after.Some? && |after.value| >= |file.value| && after.value[..|file.value|] == file.value) &&
      (!WriteSucceeds(file, faults) ==>
        after == file || (file.None? && after.Some? && (after.value == [] || after.value == [LogHeader]))) &&
      (file.None? ==> (after == Some([]) <==> faults.create.None? && faults.header.Some?))
  {
    var after := AfterWrite(file, rows, faults);
    if file.Some? {
      assert after.value[..|file.value|] == file.value;
    }
  }

  /** Writing data rows keeps every line but the first a data row, and the
      first line the header or a data row, whatever fails. */
  lemma WriteKeepsHeaderOnlyFirst(file: Option<seq<CsvLine>>, rows: seq<CsvLine>, faults: Faults)
    requires file.None? || HeaderOnlyFirst(file.value)
    requires forall k :: 0 <= k < |rows| ==> IsDataLine(rows[k])
    ensures var after := AfterWrite(file, rows, faults);
      after.None? || HeaderOnlyFirst(after.value)
  {
    var after := AfterWrite(file, rows, faults);
    if after.Some? && after.value != [] && faults.append.None? {
      var existing := if file.None? then [LogHeader] else file.value;
      assert after.value == existing + rows;
      forall k | 1 <= k < |after.value| ensures IsDataLine(after.value[k]) {
        if k >= |existing| {
          assert after.value[k] == rows[k - |existing|];
        }
      }
      if existing == [] {
        assert after.value[0] == rows[0];
      }
    }
  }

  /** Writing data rows keeps a well-formed log well formed, whatever
      fails. Creating the log gives a well-formed log unless the header
      write fails, which leaves an empty file. */
  lemma WriteKeepsLogWellFormed(file: Option<seq<CsvLine>>, rows: seq<CsvLine>, faults: Faults)
    requires file.None? || WellFormedLog(file.value)
    requires forall k :: 0 <= k < |rows| ==> IsDataLine(rows[k])
    ensures var after := AfterWrite(file, rows, faults);
      after.None? || WellFormedLog(after.value) ||
      (file.None? && faults.create.None? && faults.header.Some? && after == Some([]))
  {
    var after := AfterWrite(file, rows, faults);
    if after.Some? && after != Some([]) && faults.append.None? {
      var existing := if file.None? then [LogHeader] else file.value;
      assert after.value == existing + rows;
      forall k | 1 <= k < |after.value| ensures IsDataLine(after.value[k]) {
        if k >= |existing| {
          assert after.value[k] == rows[k - |existing|];
        }
      }
    }
  }

  /** One call of `write_csv`: its rows and what its steps raise. */
  datatype WriteCall = WriteCall(rows: seq<CsvLine>, faults: Faults)

  /** The log after a sequence of calls, first to last. */
  function Replay(file: Option<seq<CsvLine>>, calls: seq<WriteCall>): Option<seq<CsvLine>> {
    if calls == [] then file
    else
      var c := calls[|calls| - 1];
      AfterWrite(Replay(file, calls[..|calls| - 1]), c.rows, c.faults)
  }

  /** Over any number of calls of data rows, succeeding or failing, a log
      that starts absent is absent or holds the header at most once, and
      only as its first line. When no header write fails, the log is absent
      or holds the header exactly once, as its first line. */
  lemma {:induction false} ReplayKeepsHeaderOnce(calls: seq<WriteCall>)
    requires forall j, k :: 0 <= j < |calls| && 0 <= k < |calls[j].rows| ==> IsDataLine(calls[j].rows[k])
    ensures var f := Replay(None, calls);
      f.None? || (HeaderOnlyFirst(f.value) && Occurrences(f.value, LogHeader) <= 1 &&
                  (Occurrences(f.value, LogHeader) == 1 ==> f.value[0] == LogHeader))
    ensures var f := Replay(None, calls);
      (forall j :: 0 <= j < |calls| ==> calls[j].faults.header.None?) ==>
        f.None? || (WellFormedLog(f.value) && f.value[0] == LogHeader && Occurrences(f.value, LogHeader) == 1)
  {
    var f := Replay(None, calls);
    if calls != [] {
      var init := calls[..|calls| - 1];
      ReplayKeepsHeaderOnce(init);
      var c := calls[|calls| - 1];
      WriteKeepsHeaderOnlyFirst(Replay(None, init), c.rows, c.faults);
      if forall j :: 0 <= j < |calls| ==> calls[j].faults.header.None? {
        assert forall j :: 0 <= j < |init| ==> init[j] == calls[j];
        WriteKeepsLogWellFormed(Replay(None, init), c.rows, c.faults);
      }
    }
    if f.Some? {
      HeaderAtMostOnce(f.value);
      if WellFormedLog(f.value) {
        HeaderExactlyOnce(f.value);
      }
    }
  }

  /** A failed header write leaves the created file empty; the next call
      in which nothing raises finds the file present, appends its rows with
      no header and reports success. */
  lemma HeaderLostAfterFailedHeaderWrite(first: seq<CsvLine>, error: string, rows: seq<CsvLine>)
    requires forall k :: 0 <= k < |rows| ==> IsDataLine(rows[k])
    ensures var failing, clean := Faults(None, Some(error), None), Faults(None, None, None);
      !WriteSucceeds(None, failing) && AfterWrite(None, first, failing) == Some([]) &&
      WriteSucceeds(Some([]), clean) && AfterWrite(Some([]), rows, clean) == Some(rows) &&
      Occurrences(rows, LogHeader) == 0
  {
    assert [] + rows == rows;
    HeaderAtMostOnce(rows);
    if |rows| >= 1 {
      assert IsDataLine(rows[0]);
    }
  }

  /** Once the log is the empty file a failed header write leaves, no
      sequence of calls of data rows, succeeding or failing, ever gives it
      a header: it stays present and holds only data rows. */
  lemma {:induction false} NoHeaderAfterEmptyFile(calls: seq<WriteCall>)
    requires forall j, k :: 0 <= j < |calls| && 0 <= k < |calls[j].rows| ==> IsDataLine(calls[j].rows[k])
    ensures Replay(Some([]), calls).Some?
    ensures forall k :: 0 <= k < |Replay(Some([]), calls).value| ==> IsDataLine(Replay(Some([]), calls).value[k])
    ensures Occurrences(Replay(Some([]), calls).value, LogHeader) == 0
  {
    var f := Replay(Some([]), calls);
    if calls != [] {
      var init := calls[..|calls| - 1];
      var c := calls[|calls| - 1];
      assert forall j :: 0 <= j < |init| ==> init[j] == calls[j];
      NoHeaderAfterEmptyFile(init);
      var before := Replay(Some([]), init).value;
      if c.faults.append.None? {
        assert f.value == before + c.rows;
        forall k | 0 <= k < |f.value| ensures IsDataLine(f.value[k]) {
          if k >= |before| {
            assert f.value[k] == c.rows[k - |before|];
          }
        }
      }
    }
    HeaderAtMostOnce(f.value);
    if |f.value| >= 1 {
      assert IsDataLine(f.value[0]);
    }
  }

  /** The rows of a sequence of calls, concatenated in call order. */
  function AllRows(calls: seq<WriteCall>): seq<CsvLine> {
    if calls == [] then [] else AllRows(calls[..|calls| - 1]) + calls[|calls| - 1].rows
  }

  /** After one or more calls on an absent log in which nothing raises,
      the log is the header followed by every call's rows, in call order. */
  lemma {:induction false} ReplaySuccessfulWrites(calls: seq<WriteCall>)
    requires calls != []
    requires forall j :: 0 <= j < |calls| ==> calls[j].faults == Faults(None, None, None)
    ensures Replay(None, calls) == Some([LogHeader] + AllRows(calls))
  {
    var init := calls[..|calls| - 1];
    var c := calls[|calls| - 1];
    if init != [] {
      ReplaySuccessfulWrites(init);
      assert [LogHeader] + AllRows(init) + c.rows == [LogHeader] + (AllRows(init) + c.rows);
    } else {
      assert Replay(None, calls) == AfterWrite(None, c.rows, c.faults);
      assert AllRows(calls) == [] + c.rows == c.rows;
    }
  }

  /** `write_csv(rows)` on the file `responses.csv`. */
  class ResponsesFile {
    /** The file's lines; None while the file does not exist. */
    var contents: Option<seq<CsvLine>>

    constructor (initial: Option<seq<CsvLine>>)
      ensures contents == initial
    {
      contents := initial;
    }

    /** Creates the file if it is absent and writes its header, then
        appends the rows one by one; returns (True, None), or
        (False, message) at the first step that raises. */
    method WriteCsv(rows: seq<CsvLine>, faults: Faults) returns (ok: bool, err: Option<string>)
      modifies this
      ensures contents == AfterWrite(old(contents), rows, faults)
      ensures ok == WriteSucceeds(old(contents), faults)
      ensures err == WriteError(old(contents), faults)
      ensures ok <==> err.None?
    {
      if contents.None? {
        if faults.create.Some? {
          return false, faults.create;
        }
        contents := Some([]);
        if faults.header.Some? {
          return false, faults.header;
        }
        contents := Some([LogHeader]);
      }
      if faults.append.Some? {
        return false, faults.append;
      }
      ghost var existing := contents.value;
      var k := 0;
      assert existing + rows[..k] == existing;
      while k < |rows|
        invariant 0 <= k <= |rows|
        invariant contents == Some(existing + rows[..k])
      {
        assert existing + rows[..k + 1] == (existing + rows[..k]) + [rows[k]];
        contents := Some(contents.value + [rows[k]]);
        k := k + 1;
      }
      assert rows[..k] == rows;
      ok, err := true, None;
    }
  }
}
