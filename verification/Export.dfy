/**
 * The export loop of `Main.execute`: the optional header row, one CSV row
 * per cursor row, a flush checkpoint every `flush` rows, a final flush, and
 * the checksum file once the output has been closed normally.
 *
 * The JDBC cursor is a sequence of rows of column values; the CSV writer is
 * an append-only trace of the rows handed to `writeNext` and of the flushes.
 */
module Export {
  import opened Wrappers
  import opened JavaNum
  import Flush
  import Checksum
  import Seqs

  /** A column value as `ResultSet.getObject` returns it: SQL NULL or an object with its `toString()`. */
  datatype SqlValue = SqlNull | SqlObject(text: string)

  /** One CSV field as passed to `writeNext`: `None` is a Java `null` element. */
  type Cell = Option<string>

  /** The options `execute` reads. */
  datatype Config = Config(
    out: string,          // output path, as `Path.toString()`
    csvHeader: bool,      // write the column labels first
    flush: Int,           // rows per checkpoint; none when not positive
    checksum: bool,       // write the checksum file
    algorithm: string)    // digest algorithm name

  /** What reaches the CSV writer, in order. */
  datatype Event =
    | WriteNext(row: seq<Cell>)   // `csv.writeNext(values)`
    | Checkpoint(lines: nat)      // `csv.flush()` inside the loop, logged with the row count
    | Finished(lines: nat)        // the final `csv.flush()` after the last row

  /** The observable end state of one `execute`. */
  datatype Run = Run(
    trace: seq<Event>,
    lines: nat,                   // final value of the row counter
    completed: bool,              // the output block finished without an exception
    checksumFile: Option<string>) // path of the checksum file, when one is written

  /** `Objects.toString(object, null)`. */
  function ToCell(v: SqlValue): Cell {
    match v
    case SqlNull => None
    case SqlObject(text) => Some(text)
  }

  /**
   * The `values` array after the inner loop over the columns of one cursor
   * row: a field is absent exactly when the column is SQL NULL, and is
   * otherwise the value's string form.
   */
  function DataRow(row: seq<SqlValue>): (cells: seq<Cell>)
    ensures |cells| == |row|
    ensures forall j :: 0 <= j < |row| ==> (cells[j].None? <==> row[j].SqlNull?)
    ensures forall j :: 0 <= j < |row| && row[j].SqlObject? ==> cells[j] == Some(row[j].text)
  {
    seq(|row|, j requires 0 <= j < |row| => ToCell(row[j]))
  }

  /** The `values` array after the header loop: the column labels in ordinal order. */
  function HeaderRow(labels: seq<string>): (cells: seq<Cell>)
    ensures |cells| == |labels|
    ensures forall j :: 0 <= j < |labels| ==> cells[j] == Some(labels[j])
  {
    seq(|labels|, j requires 0 <= j < |labels| => Some(labels[j]))
  }

  /** The rows handed to `writeNext`, in order. */
  function Writes(trace: seq<Event>): seq<seq<Cell>> {
    if |trace| == 0 then []
    else (if trace[0].WriteNext? then [trace[0].row] else []) + Writes(trace[1..])
  }

  /** The row counts logged at loop checkpoints, in order. */
  function LoggedCheckpoints(trace: seq<Event>): seq<nat> {
    if |trace| == 0 then []
    else (if trace[0].Checkpoint? then [trace[0].lines] else []) + LoggedCheckpoints(trace[1..])
  }

  /** The projections distribute over concatenation of traces. */
  lemma {:induction false} WritesConcat(a: seq<Event>, b: seq<Event>)
    ensures Writes(a + b) == Writes(a) + Writes(b)
  {
    if |a| == 0 {
      assert a + b == b;
    } else {
      WritesConcat(a[1..], b);
      assert (a + b)[1..] == a[1..] + b;
      assert (a + b)[0] == a[0];
      Seqs.ConcatAssoc((if a[0].WriteNext? then [a[0].row] else []), Writes(a[1..]), Writes(b));
    }
  }

  lemma {:induction false} LoggedCheckpointsConcat(a: seq<Event>, b: seq<Event>)
    ensures LoggedCheckpoints(a + b) == LoggedCheckpoints(a) + LoggedCheckpoints(b)
  {
    if |a| == 0 {
      assert a + b == b;
    } else {
      LoggedCheckpointsConcat(a[1..], b);
      assert (a + b)[1..] == a[1..] + b;
      assert (a + b)[0] == a[0];
      Seqs.ConcatAssoc((if a[0].Checkpoint? then [a[0].lines] else []), LoggedCheckpoints(a[1..]), LoggedCheckpoints(b));
    }
  }

  lemma WritesAppend(trace: seq<Event>, e: Event)
    ensures Writes(trace + [e]) == Writes(trace) + (if e.WriteNext? then [e.row] else [])
    ensures LoggedCheckpoints(trace + [e]) == LoggedCheckpoints(trace) + (if e.Checkpoint? then [e.lines] else [])
  {
    WritesConcat(trace, [e]);
    LoggedCheckpointsConcat(trace, [e]);
    assert [e][1..] == [];
  }

  /**
   * Each checkpoint comes after the write of the row whose counter it logs
   * and before the next row: exactly `h + lines` rows precede it, where `h`
   * counts the header rows written before the loop.
   */
  predicate FlushesFollowRows(trace: seq<Event>, h: nat) {
    forall t :: 0 <= t < |trace| && trace[t].Checkpoint? ==> |Writes(trace[..t])| == h + trace[t].lines
  }

  /** The final flush, if any, is the last event. */
  predicate FinishedLast(trace: seq<Event>) {
    forall t :: 0 <= t < |trace| - 1 ==> !trace[t].Finished?
  }

  /** Appending an event keeps the checkpoint positions, provided a new checkpoint logs the rows so far. */
  lemma FlushesFollowRowsAppend(trace: seq<Event>, h: nat, e: Event)
    requires FlushesFollowRows(trace, h)
    requires e.Checkpoint? ==> |Writes(trace)| == h + e.lines
    ensures FlushesFollowRows(trace + [e], h)
  {
    var next := trace + [e];
    forall t | 0 <= t < |next| && next[t].Checkpoint?
      ensures |Writes(next[..t])| == h + next[t].lines
    {
      if t < |trace| {
        assert next[..t] == trace[..t];
      } else {
        assert next[..t] == trace;
      }
    }
  }

  /** The number of data rows written before the cursor is exhausted or fails. */
  function RowsReached(n: nat, fault: Option<nat>): nat {
    if fault.Some? && fault.value <= n then fault.value else n
  }

  /**
   * The `while (rs.next())` loop: each cursor row is written, the counter is
   * incremented, and a checkpoint follows when `shouldFlush` holds for the
   * new counter. Stops when the cursor is exhausted or `rs.next()` throws.
   */
  method StreamRows(rows: seq<seq<SqlValue>>, flush: Int, fault: Option<nat>)
    returns (body: seq<Event>, count: nat)
    requires |rows| <= MAX_LONG
    ensures count == RowsReached(|rows|, fault)
    ensures |Writes(body)| == count
    ensures forall i :: 0 <= i < count ==> Writes(body)[i] == DataRow(rows[i])
    ensures LoggedCheckpoints(body) == Flush.Checkpoints(count, flush)
    ensures FlushesFollowRows(body, 0)
    ensures forall k :: 0 <= k < |body| ==> !body[k].Finished?
  {
    body := [];
    count := 0;
    while count < |rows| && fault != Some(count)
      invariant count <= |rows|
      invariant fault.Some? && fault.value <= |rows| ==> count <= fault.value
      invariant |Writes(body)| == count
      invariant forall i :: 0 <= i < count ==> Writes(body)[i] == DataRow(rows[i])
      invariant LoggedCheckpoints(body) == Flush.Checkpoints(count, flush)
      invariant FlushesFollowRows(body, 0)
      invariant forall k :: 0 <= k < |body| ==> !body[k].Finished?
    {
      var values := DataRow(rows[count]);
      WritesAppend(body, WriteNext(values));
      FlushesFollowRowsAppend(body, 0, WriteNext(values));
      body := body + [WriteNext(values)];
      count := count + 1;
      Flush.CheckpointsStep(count, flush);
      if Flush.ShouldFlush(count, flush) {
        WritesAppend(body, Checkpoint(count));
        FlushesFollowRowsAppend(body, 0, Checkpoint(count));
        body := body + [Checkpoint(count)];
      }
    }
  }

  /** The output block ends normally: no `rs.next()` call fails, or the failing one lies past the `n + 1` calls made. */
  predicate Completes(n: nat, fault: Option<nat>) {
    fault.None? || fault.value > n
  }

  /** The loop stops at the failing call exactly when the run does not complete; a completed run has read every row. */

  lemma Completion(n: nat, fault: Option<nat>, count: nat)
    requires count == RowsReached(n, fault)
    ensures Completes(n, fault) <==> fault != Some(count)
    ensures Completes(n, fault) ==> count == n
  {
  }

  /**
   * `execute` from the header to the checksum file. `fault == Some(k)` means
   * the `k`-th call of `rs.next()` (counting from 0) throws, which aborts the
   * output block; a `k` past the end of the cursor is never reached.
   */
  method Execute(cfg: Config, labels: seq<string>, rows: seq<seq<SqlValue>>, fault: Option<nat>)
    returns (run: Run)
    requires forall i :: 0 <= i < |rows| ==> |rows[i]| == |labels|
    requires |rows| <= MAX_LONG
    ensures run.completed == (fault.None? || fault.value > |rows|)
    ensures run.lines == RowsReached(|rows|, fault)
    ensures |Writes(run.trace)| == (if cfg.csvHeader then 1 else 0) + run.lines
    ensures forall w :: w in Writes(run.trace) ==> |w| == |labels|
    ensures cfg.csvHeader ==> run.trace[0] == WriteNext(Writes(run.trace)[0])
    ensures cfg.csvHeader ==> forall j :: 0 <= j < |labels| ==> Writes(run.trace)[0][j] == Some(labels[j])
    ensures forall i :: 0 <= i < run.lines ==>
      Writes(run.trace)[(if cfg.csvHeader then 1 else 0) + i] == DataRow(rows[i])
    ensures LoggedCheckpoints(run.trace) == Flush.Checkpoints(run.lines, cfg.flush)
    ensures FlushesFollowRows(run.trace, if cfg.csvHeader then 1 else 0)
    ensures FinishedLast(run.trace)
    ensures run.completed <==> |run.trace| > 0 && run.trace[|run.trace| - 1].Finished?
    ensures run.completed ==> run.trace[|run.trace| - 1] == Finished(|rows|)
    ensures run.checksumFile ==
      (if cfg.checksum && run.completed then Some(Checksum.ChecksumPath(cfg.out, cfg.algorithm)) else None)
  {
    var body, count := StreamRows(rows, cfg.flush, fault);
    var completed := Completes(|rows|, fault);
    Completion(|rows|, fault, count);
    var trace := Assemble(labels, rows, cfg.csvHeader, body, count, completed);
    assert completed ==> trace[|trace| - 1] == Finished(|rows|);
    var checksumFile := if cfg.checksum && completed then Some(Checksum.ChecksumPath(cfg.out, cfg.algorithm)) else None;
    run := Run(trace, count, completed, checksumFile);
  }

  /**
   * The whole trace of the output block: the header row when enabled, the
   * loop's events, and the final flush when the loop ended normally.
   */
  method Assemble(labels: seq<string>, rows: seq<seq<SqlValue>>, csvHeader: bool,
                  body: seq<Event>, count: nat, completed: bool)
    returns (trace: seq<Event>)
    requires forall i :: 0 <= i < |rows| ==> |rows[i]| == |labels|
    requires count <= |rows| && |Writes(body)| == count
    requires forall i :: 0 <= i < count ==> Writes(body)[i] == DataRow(rows[i])
    requires forall k :: 0 <= k < |body| ==> !body[k].Finished?
    requires FlushesFollowRows(body, 0)
    ensures |Writes(trace)| == (if csvHeader then 1 else 0) + count
    ensures forall w :: w in Writes(trace) ==> |w| == |labels|
    ensures csvHeader ==> trace[0] == WriteNext(Writes(trace)[0])
    ensures csvHeader ==> forall j :: 0 <= j < |labels| ==> Writes(trace)[0][j] == Some(labels[j])
    ensures forall i :: 0 <= i < count ==> Writes(trace)[(if csvHeader then 1 else 0) + i] == DataRow(rows[i])
    ensures LoggedCheckpoints(trace) == LoggedCheckpoints(body)
    ensures completed <==> |trace| > 0 && trace[|trace| - 1].Finished?
    ensures completed ==> trace[|trace| - 1] == Finished(count)
    ensures FlushesFollowRows(trace, if csvHeader then 1 else 0)
    ensures FinishedLast(trace)
  {
    var header: seq<Event> := if csvHeader then [WriteNext(HeaderRow(labels))] else [];
    var tail: seq<Event> := if completed then [Finished(count)] else [];
    AssembledWrites(labels, rows, csvHeader, header, body, tail, count);
    TraceShape(labels, csvHeader, header, body, tail, count);
    var h := if csvHeader then 1 else 0;
    assert |Writes(header)| == h by {
      SingletonProjections(WriteNext(HeaderRow(labels)));
    }
    TraceOrder(header, body, tail, h);
    trace := header + body + tail;
  }

  /** The rows of the assembled trace: the header when enabled, then one row per cursor row. */
  lemma AssembledWrites(labels: seq<string>, rows: seq<seq<SqlValue>>, csvHeader: bool,
                        header: seq<Event>, body: seq<Event>, tail: seq<Event>, count: nat)
    requires forall i :: 0 <= i < |rows| ==> |rows[i]| == |labels|
    requires count <= |rows| && |Writes(body)| == count
    requires forall i :: 0 <= i < count ==> Writes(body)[i] == DataRow(rows[i])
    requires header == if csvHeader then [WriteNext(HeaderRow(labels))] else []
    requires tail == [] || tail == [Finished(count)]
    requires forall k :: 0 <= k < |body| ==> !body[k].Finished?
    ensures |Writes(header + body + tail)| == (if csvHeader then 1 else 0) + count
    ensures forall w :: w in Writes(header + body + tail) ==> |w| == |labels|
    ensures csvHeader ==> (header + body + tail)[0] == WriteNext(Writes(header + body + tail)[0])
    ensures csvHeader ==> forall j :: 0 <= j < |labels| ==> Writes(header + body + tail)[0][j] == Some(labels[j])
    ensures forall i :: 0 <= i < count ==>
      Writes(header + body + tail)[(if csvHeader then 1 else 0) + i] == DataRow(rows[i])
  {
    TraceShape(labels, csvHeader, header, body, tail, count);
    var heads := if csvHeader then [HeaderRow(labels)] else [];
    WrittenRows(labels, rows, heads, Writes(body), count);
  }

  /** How the header, the loop's events and the final flush combine into one trace. */
  lemma TraceShape(labels: seq<string>, csvHeader: bool, header: seq<Event>, body: seq<Event>, tail: seq<Event>, count: nat)
    requires header == if csvHeader then [WriteNext(HeaderRow(labels))] else []
    requires tail == [] || tail == [Finished(count)]
    requires forall k :: 0 <= k < |body| ==> !body[k].Finished?
    ensures Writes(header + body + tail) == (if csvHeader then [HeaderRow(labels)] else []) + Writes(body)
    ensures LoggedCheckpoints(header + body + tail) == LoggedCheckpoints(body)
    ensures csvHeader ==> (header + body + tail)[0] == WriteNext(HeaderRow(labels))
    ensures tail != [] <==>
      |header + body + tail| > 0 && (header + body + tail)[|header + body + tail| - 1].Finished?
    ensures tail != [] ==> (header + body + tail)[|header + body + tail| - 1] == Finished(count)
  {
    SingletonProjections(WriteNext(HeaderRow(labels)));
    SingletonProjections(Finished(count));
    TraceProjections(header, body, tail, if csvHeader then [HeaderRow(labels)] else []);
    TraceEnds(header, body, tail, count);
  }

  /** A one-event trace projects to that event alone. */
  lemma SingletonProjections(e: Event)
    ensures Writes([e]) == (if e.WriteNext? then [e.row] else [])
    ensures LoggedCheckpoints([e]) == (if e.Checkpoint? then [e.lines] else [])
  {
    assert [e][1..] == [];
  }

  /** Header and final flush contribute no checkpoints; the header contributes its own row. */
  lemma TraceProjections(header: seq<Event>, body: seq<Event>, tail: seq<Event>, heads: seq<seq<Cell>>)
    requires Writes(header) == heads && LoggedCheckpoints(header) == []
    requires Writes(tail) == [] && LoggedCheckpoints(tail) == []
    ensures Writes(header + body + tail) == heads + Writes(body)
    ensures LoggedCheckpoints(header + body + tail) == LoggedCheckpoints(body)
  {
    WritesConcat(header, body);
    WritesConcat(header + body, tail);
    assert heads + Writes(body) + [] == heads + Writes(body);
    LoggedCheckpointsConcat(header, body);
    LoggedCheckpointsConcat(header + body, tail);
    assert [] + LoggedCheckpoints(body) + [] == LoggedCheckpoints(body);
  }

  /** The trace starts with the header, if any, and ends with `Finished` exactly when the tail is present. */
  lemma TraceEnds(header: seq<Event>, body: seq<Event>, tail: seq<Event>, count: nat)
    requires |header| <= 1 && forall k :: 0 <= k < |header| ==> header[k].WriteNext?
    requires tail == [] || tail == [Finished(count)]
    requires forall k :: 0 <= k < |body| ==> !body[k].Finished?
    ensures |header| == 1 ==> (header + body + tail)[0] == header[0]
    ensures tail != [] <==>
      |header + body + tail| > 0 && (header + body + tail)[|header + body + tail| - 1].Finished?
    ensures tail != [] ==> (header + body + tail)[|header + body + tail| - 1] == Finished(count)
  {
    var trace := header + body + tail;
    if tail == [] {
      assert trace == header + body;
      if |body| == 0 {
        assert |trace| == 0 || trace[|trace| - 1] == header[0];
      } else {
        assert trace[|trace| - 1] == body[|body| - 1];
      }
    } else {
      assert trace[|trace| - 1] == tail[0];
    }
  }

  /**
   * Putting header rows in front of the loop's events shifts every
   * checkpoint by the header count, and the final flush stays last.
   */
  lemma TraceOrder(header: seq<Event>, body: seq<Event>, tail: seq<Event>, h: nat)
    requires forall k :: 0 <= k < |header| ==> header[k].WriteNext?
    requires |Writes(header)| == h
    requires |tail| <= 1 && forall k :: 0 <= k < |tail| ==> tail[k].Finished?
    requires FlushesFollowRows(body, 0)
    requires forall k :: 0 <= k < |body| ==> !body[k].Finished?
    ensures FlushesFollowRows(header + body + tail, h)
    ensures FinishedLast(header + body + tail)
  {
    var trace := header + body + tail;
    forall t | 0 <= t < |trace| && trace[t].Checkpoint?
      ensures |Writes(trace[..t])| == h + trace[t].lines
    {
      if |header| <= t < |header| + |body| {
        var u := t - |header|;
        assert trace[t] == body[u];
        assert trace[..t] == header + body[..u];
        WritesConcat(header, body[..u]);
      }
    }
    forall t | 0 <= t < |trace| - 1
      ensures !trace[t].Finished?
    {
      if t < |header| {
        assert trace[t] == header[t];
      } else {
        assert trace[t] == body[t - |header|];
      }
    }
  }

  /** Every row handed to the writer, header first, has one field per column. */
  lemma WrittenRows(labels: seq<string>, rows: seq<seq<SqlValue>>, heads: seq<seq<Cell>>, data: seq<seq<Cell>>, count: nat)
    requires forall i :: 0 <= i < |rows| ==> |rows[i]| == |labels|
    requires count <= |rows| && |data| == count
    requires forall i :: 0 <= i < count ==> data[i] == DataRow(rows[i])
    requires forall w :: w in heads ==> |w| == |labels|
    ensures forall w :: w in heads + data ==> |w| == |labels|
  {
    forall w | w in heads + data
      ensures |w| == |labels|
    {
      if w !in heads {
        var i :| 0 <= i < |data| && data[i] == w;
      }
    }
  }
}
