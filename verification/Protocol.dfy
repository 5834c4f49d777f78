/**
 The crash-safe delivery protocol: one WAL stream, N tables, durable logs with watermarks, a volatile
 engine, flush rounds that append table by table, and crashes between any two appends.
 (src/engine.rs, src/txbuf.rs, src/main.rs, watermark side of src/sink.rs)
 */
module Stream {
  import opened Base
  import opened TxBuf

  /**
   A WAL record as far as the protocol cares. `Changes` carries the ops a correct decode yields
   (several at one LSN for a multi-insert); `Commit` and `Abort` list their subtransactions.
   */
  datatype Rec =
    | Changes(lsn: Lsn, xid: Xid, table: nat, ops: seq<Op>)
    | Commit(lsn: Lsn, xid: Xid, subs: seq<Xid>)
    | Abort(lsn: Lsn, xid: Xid, subs: seq<Xid>)

  type Wal = seq<Rec>

  function Family(r: Rec): seq<Xid>
    requires !r.Changes?
  {
    [r.xid] + r.subs
  }

  predicate Finishes(r: Rec, x: Xid) {
    !r.Changes? && x in Family(r)
  }

  predicate Commits(r: Rec, x: Xid) {
    r.Commit? && x in Family(r)
  }

  predicate Writes(r: Rec, t: nat, x: Xid) {
    r.Changes? && r.table == t && r.xid == x && r.ops != []
  }

  /** Deletes decode with their row; tables are in range. */
  predicate RecOk(r: Rec, n: nat) {
    r.Changes? ==>
      && r.table < n
      && forall i :: 0 <= i < |r.ops| && r.ops[i].Delete? ==> r.ops[i].oldRow.Some?
  }

  /**
   What Postgres guarantees about the stream: LSNs increase, a transaction finishes at most once and
   writes nothing afterwards.
   */
  ghost predicate WellFormed(w: Wal, n: nat) {
    && (forall i :: 0 <= i < |w| ==> RecOk(w[i], n))
    && (forall i, j :: 0 <= i < j < |w| ==> w[i].lsn < w[j].lsn)
    && (forall i, j, x :: 0 <= i < j < |w| && Finishes(w[i], x) ==> !Finishes(w[j], x))
    && (forall i, j :: 0 <= i < j < |w| && w[j].Changes? ==> !Finishes(w[i], w[j].xid))
  }

  function Tagged(r: Rec): seq<PendingOp>
    requires r.Changes?
  {
    seq(|r.ops|, i requires 0 <= i < |r.ops| => PendingOp(r.lsn, r.table, r.ops[i]))
  }

  /** What one record contributes to the transactions `fam` on table `t`. */
  function Part(r: Rec, fam: set<Xid>, t: nat): seq<PendingOp> {
    if r.Changes? && r.table == t && r.xid in fam then Tagged(r) else []
  }

  /** The ops of the transactions `fam` on table `t` among records `lo..hi`, in WAL order. */
  function Truth(w: Wal, lo: nat, hi: nat, fam: set<Xid>, t: nat): seq<PendingOp>
    requires lo <= hi <= |w|
    decreases hi
  {
    if lo == hi then []
    else
      Truth(w, lo, hi - 1, fam, t) + Part(w[hi - 1], fam, t)
  }

  function XidSet(xids: seq<Xid>): set<Xid> {
    set x | x in xids
  }

  // ---- What a log should hold -----------------------------------------------------------

  /** A change-log row without its tie-break counter, which depends on the history of runs. */
  datatype Entry = Entry(lsn: Lsn, deleted: bool, ctid: Ctid, row: Option<Row>)

  function EntryOf(lsn: Lsn, op: Op): Entry {
    match op
    case Insert(c, img) => Entry(lsn, false, c, Some(img.row))
    case Update(_, c, img) => Entry(lsn, false, c, Some(img.row))
    case Delete(c, row) => Entry(lsn, true, c, row)
  }

  function Entries(lsn: Lsn, ops: seq<PendingOp>): seq<Entry> {
    seq(|ops|, i requires 0 <= i < |ops| => EntryOf(lsn, ops[i].op))
  }

  /** The entries of the commit at index `k` for table `t`: all its ops there, in WAL order. */
  function CommitEntries(w: Wal, k: nat, t: nat): seq<Entry>
    requires k < |w| && w[k].Commit?
  {
    Entries(w[k].lsn, Truth(w, 0, k, XidSet(Family(w[k])), t))
  }

  /** Entries of the commits among the first `n` records with `lo < lsn <= hi`, in commit order. */
  function Expected(w: Wal, t: nat, n: nat, lo: Lsn, hi: Lsn): seq<Entry>
    requires n <= |w|
  {
    if n == 0 then []
    else
      var r := w[n - 1];
      Expected(w, t, n - 1, lo, hi) + (if r.Commit? && lo < r.lsn <= hi then CommitEntries(w, n - 1, t) else [])
  }

  /** The same without an upper LSN bound: what the first `n` records owe a table whose log ends at `lo`. */
  function Due(w: Wal, t: nat, n: nat, lo: Lsn): seq<Entry>
    requires n <= |w|
  {
    if n == 0 then []
    else
      var r := w[n - 1];
      Due(w, t, n - 1, lo) + (if r.Commit? && lo < r.lsn then CommitEntries(w, n - 1, t) else [])
  }

  /** LSN of the last record read when the next one to read is `pos`. */
  function ReadUpTo(w: Wal, pos: nat): Lsn
    requires pos <= |w|
  {
    if pos == 0 then 0 else w[pos - 1].lsn
  }

  /**
   Every transaction committing above `d` has all its writes to `t` at or above `r`. With `d == r` this is
   the clean cut a snapshot's table lock provides: each commit is fully before or fully after it.
   */
  ghost predicate Covered(w: Wal, t: nat, d: Lsn, r: Lsn) {
    forall k, i, x :: 0 <= i < k < |w| && Commits(w[k], x) && w[k].lsn > d && Writes(w[i], t, x) ==> w[i].lsn >= r
  }

  ghost predicate Finished(w: Wal, pos: nat, x: Xid) {
    exists i :: 0 <= i < pos && i < |w| && Finishes(w[i], x)
  }

  /** The transaction's commit is still to be delivered to a table whose watermark is `d`. */
  ghost predicate Matters(w: Wal, x: Xid, d: Lsn) {
    exists k :: 0 <= k < |w| && Commits(w[k], x) && w[k].lsn > d
  }
}

module Protocol {
  import opened Base
  import opened TxBuf
  import opened Sink
  import opened Engine
  import opened Stream
  import ChangeLog

  const PAGE: nat := 8192

  function PageFloor(l: Lsn): Lsn {
    l - l % PAGE
  }

  datatype Origin = Origin(cutover: Lsn, snap: seq<(Ctid, Image)>)

  datatype Phase = Streaming | Flushing(restart: Lsn, next: nat)

  /**
   `start`: index of the first record this run reads. `rounds`: the restart LSNs this run's flush rounds
   stamped so far (a history variable).
   */
  datatype Run =
    | Down
    | Up(start: nat, pos: nat, open: OpenMap, tables: seq<Table>, lastCommit: Lsn, phase: Phase, rounds: seq<Lsn>)

  /**
   `files`: the rows a table's log still stores, which compaction rewrites; `logs[t].rows` is everything ever appended.
   `origins` (where each log began) and `floor` (start LSN of the latest run) are history variables, like `logs[t].rows`.
   */
  datatype Sys = Sys(logs: seq<DeltaLog>, files: seq<seq<EmitRow>>, origins: seq<Option<Origin>>, floor: Lsn, run: Run)

  datatype Step =
    | TakeSnapshot(t: nat, cutover: Lsn, snap: seq<(Ctid, Image)>)
    | Start(cutovers: seq<Lsn>, resumeFrom: Lsn, start: nat, loaders: seq<ChangeLog.Loader>)
    | Read(got: seq<Op>)
    | BeginFlush(restart: Lsn)
    | FlushTable
    | EndFlush
    | Compact(t: nat, key: ChangeLog.KeyFn)
    | Crash

  function Init(n: nat): Sys {
    Sys(seq(n, i => DeltaLog([], None, None)), seq(n, i => []), seq(n, i => None), 0, Down)
  }

  ghost predicate Typed(s: Sys, n: nat) {
    && |s.logs| == n && |s.files| == n && |s.origins| == n
    && (s.run.Up? ==>
          && |s.run.tables| == n
          && forall x :: x in s.run.open ==> TablesInRange(s.run.open[x].ops, n))
  }

  function SnapshotRows(cutover: Lsn, snap: seq<(Ctid, Image)>): seq<EmitRow> {
    seq(|snap|, i requires 0 <= i < |snap| => EmitRow(cutover, i, false, snap[i].0, Some(snap[i].1.row)))
  }

  /** A table's own restart position: its stamped one, or the fresh cutover when it has no watermark. */
  function Candidate(log: DeltaLog, cutover: Lsn): Lsn {
    if log.restartLsn.Some? then log.restartLsn.value else cutover
  }

  /** `loader`: how each loaded row comes by its attribute bytes. */
  function Resumed(log: DeltaLog, stored: seq<EmitRow>, cutover: Lsn, loader: ChangeLog.Loader): Table {
    if log.restartLsn.Some?
    then Table(if log.commitLsn.Some? then log.commitLsn.value else 0, ChangeLog.LoadMirror(stored, loader), Pending([], 0, 0))
    else Table(cutover, map[], Pending([], 0, 0))
  }

  ghost predicate Enabled(w: Wal, n: nat, s: Sys, a: Step)
    requires Typed(s, n)
  {
    match a
    case TakeSnapshot(t, cutover, snap) =>
      && s.run.Down? && t < n && s.logs[t].restartLsn.None? && snap != []
      && Covered(w, t, cutover, cutover) && cutover >= s.floor
    case Start(cutovers, resumeFrom, start, loaders) =>
      && s.run.Down? && |cutovers| == n && |loaders| == n
      && (forall t :: 0 <= t < n && s.logs[t].restartLsn.None? ==>
            Covered(w, t, cutovers[t], cutovers[t]) && cutovers[t] >= s.floor)
      && (exists t :: 0 <= t < n && resumeFrom == Candidate(s.logs[t], cutovers[t]))
      && (forall t :: 0 <= t < n ==> resumeFrom <= Candidate(s.logs[t], cutovers[t]))
      && start <= |w|
      && (forall i :: 0 <= i < |w| ==> (i < start <==> w[i].lsn < PageFloor(resumeFrom)))
    case Read(got) =>
      && s.run.Up? && s.run.phase.Streaming? && s.run.pos < |w|
      && (var r := w[s.run.pos];
          if r.Changes?
          then r.table < n && (Matters(w, r.xid, s.run.tables[r.table].dedupeBelow) ==> got == r.ops)
          else got == [])
    case BeginFlush(restart) =>
      && s.run.Up? && s.run.phase.Streaming? && !NothingPending(s.run.tables)
      && IsRestart(s.run.open, s.run.lastCommit, restart)
    case FlushTable => s.run.Up? && s.run.phase.Flushing? && s.run.phase.next < n
    case EndFlush => s.run.Up? && s.run.phase.Flushing? && s.run.phase.next == n
    case Compact(t, _) => s.run.Up? && s.run.phase.Streaming? && t < n
    case Crash => s.run.Up?
  }

  /** Process one record: buffer its ops, release a commit, or drop an abort. */
  function ReadRec(u: Run, r: Rec, got: seq<Op>, n: nat): Run
    requires u.Up? && |u.tables| == n
    requires forall x :: x in u.open ==> TablesInRange(u.open[x].ops, n)
  {
    match r
    case Changes(lsn, xid, table, _) => u.(pos := u.pos + 1, open := AddOps(u.open, xid, lsn, table, got))
    case Commit(lsn, xid, subs) =>
      var ops := StableSort(Collect(u.open, [xid] + subs));
      CollectInRange(u.open, [xid] + subs, n);
      SortInRange(Collect(u.open, [xid] + subs), n);
      u.(pos := u.pos + 1, open := Forget(u.open, [xid] + subs), tables := Release(u.tables, lsn, ops), lastCommit := lsn)
    case Abort(_, xid, subs) => u.(pos := u.pos + 1, open := Forget(u.open, [xid] + subs))
  }

  ghost function Apply(w: Wal, n: nat, s: Sys, a: Step): (s': Sys)
    requires Typed(s, n) && Enabled(w, n, s, a)
    ensures Typed(s', n)
  {
    match a
    case TakeSnapshot(t, cutover, snap) =>
      s.(logs := s.logs[t := Append(s.logs[t], SnapshotRows(cutover, snap), cutover, cutover)],
         files := s.files[t := s.files[t] + SnapshotRows(cutover, snap)],
         origins := s.origins[t := Some(Origin(cutover, snap))])
    case Start(cutovers, resumeFrom, start, loaders) =>
      s.(floor := PageFloor(resumeFrom),
         run := Up(start, start, map[], seq(n, i requires 0 <= i < n => Resumed(s.logs[i], s.files[i], cutovers[i], loaders[i])),
                   resumeFrom, Streaming, []))
    case Read(got) =>
      assert forall x :: x in s.run.open ==> TablesInRange(s.run.open[x].ops, n);
      AddOpsInRange(s.run.open, w[s.run.pos].xid, w[s.run.pos].lsn, if w[s.run.pos].Changes? then w[s.run.pos].table else 0, got, n);
      s.(run := ReadRec(s.run, w[s.run.pos], got, n))
    case BeginFlush(restart) =>
      s.(run := s.run.(phase := Flushing(restart, 0), rounds := s.run.rounds + [restart]))
    case FlushTable =>
      var t := s.run.phase.next;
      var tb := s.run.tables[t];
      s.(logs := s.logs[t := FlushedLog(tb, s.logs[t], s.run.phase.restart)],
         files := s.files[t := s.files[t] + tb.pending.rows],
         origins := if tb.pending.rows == [] || s.origins[t].Some? then s.origins
                    else s.origins[t := Some(Origin(tb.dedupeBelow, []))],
         run := s.run.(tables := s.run.tables[t := FlushedTable(tb)], phase := Flushing(s.run.phase.restart, t + 1)))
    case EndFlush => s.(run := s.run.(phase := Streaming))
    case Compact(t, key) => s.(files := s.files[t := ChangeLog.Compacted(s.files[t], key)])
    case Crash => s.(run := Down)
  }

  lemma {:induction false} AddOpsInRange(open: OpenMap, xid: Xid, lsn: Lsn, table: nat, ops: seq<Op>, n: nat)
    requires forall x :: x in open ==> TablesInRange(open[x].ops, n)
    ensures table < n ==> forall x :: x in AddOps(open, xid, lsn, table, ops) ==> TablesInRange(AddOps(open, xid, lsn, table, ops)[x].ops, n)
    decreases |ops|
  {
    if ops != [] {
      AddOpsInRange(open, xid, lsn, table, ops[..|ops| - 1], n);
    }
  }

  /** A run of the whole system over WAL `w` with `n` tables, from empty logs. */
  ghost predicate IsTrace(w: Wal, n: nat, states: seq<Sys>, steps: seq<Step>) {
    && |states| == |steps| + 1
    && states[0] == Init(n)
    && forall i :: 0 <= i < |steps| ==>
         Typed(states[i], n) && Enabled(w, n, states[i], steps[i]) && states[i + 1] == Apply(w, n, states[i], steps[i])
  }
}
