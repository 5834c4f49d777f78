/** Exactly-once delivery over every run of `Protocol`. */
module ProtocolProof {
  import opened Base
  import opened TxBuf
  import opened Sink
  import opened Engine
  import opened Stream
  import opened StreamFacts
  import opened Protocol

  function SnapEntries(o: Origin): seq<Entry> {
    seq(|o.snap|, i requires 0 <= i < |o.snap| => Entry(o.cutover, false, o.snap[i].0, Some(o.snap[i].1.row)))
  }

  /**
   The log holds the snapshot, then the entries of exactly the commits with cutover < LSN <= watermark, in commit
   order and WAL order within a commit; its (lsn, seq) keys strictly increase.
   */
  ghost predicate ExactlyOnce(w: Wal, t: nat, log: DeltaLog, origin: Option<Origin>) {
    if log.restartLsn.None? then log.rows == [] && log.commitLsn.None? && origin.None?
    else
      && log.commitLsn.Some? && origin.Some?
      && origin.value.cutover <= log.commitLsn.value
      && Erased(log.rows) == SnapEntries(origin.value) + Expected(w, t, |w|, origin.value.cutover, log.commitLsn.value)
      && StrictlyOrdered(log.rows)
  }

  /**
   Every transaction committing above the table's watermark has all its ops on the table at or above the
   stamped restart LSN, hence at or above the page the stream resumes from.
   */
  ghost predicate RestartCovers(w: Wal, t: nat, log: DeltaLog) {
    log.restartLsn.Some? && log.commitLsn.Some? ==>
      && Covered(w, t, log.commitLsn.value, log.restartLsn.value)
      && Covered(w, t, log.commitLsn.value, PageFloor(log.restartLsn.value))
  }

  ghost predicate LogInv(w: Wal, t: nat, log: DeltaLog, origin: Option<Origin>, floor: Lsn) {
    && ExactlyOnce(w, t, log, origin)
    && RestartCovers(w, t, log)
    && (log.restartLsn.Some? ==> floor <= log.restartLsn.value)
    && (log.commitLsn.Some? ==> forall j :: 0 <= j < |log.rows| ==> log.rows[j].lsn <= log.commitLsn.value)
  }

  /** Where the table's log ends; a table without a watermark starts at its cutover. */
  function Watermark(log: DeltaLog, d: Lsn): Lsn {
    if log.commitLsn.Some? then log.commitLsn.value else d
  }

  ghost predicate StartCovers(w: Wal, t: nat, d: Lsn, start: nat) {
    forall k, i, x :: 0 <= i < k < |w| && Commits(w[k], x) && w[k].lsn > d && Writes(w[i], t, x) ==> start <= i
  }

  /** Whatever still has to be delivered to `t` is buffered completely and in WAL order. */
  ghost predicate BufferInv(w: Wal, t: nat, start: nat, pos: nat, open: OpenMap, d: Lsn)
    requires start <= pos <= |w|
  {
    forall x :: Matters(w, x, d) && !Finished(w, pos, x) ==> Buffered(open, x, t) == Truth(w, start, pos, {x}, t)
  }

  ghost predicate PendingInv(w: Wal, t: nat, pos: nat, p: Pending, wm: Lsn)
    requires pos <= |w|
  {
    && Erased(p.rows) == Due(w, t, pos, wm)
    && p.maxCommit <= ReadUpTo(w, pos)
    && (p.rows != [] ==> wm < p.maxCommit && Due(w, t, pos, p.maxCommit) == [])
    && StrictlyOrdered(p.rows)
    && forall j :: 0 <= j < |p.rows| ==> wm < p.rows[j].lsn <= p.maxCommit && p.rows[j].seqno <= p.seqno
  }

  ghost predicate TableInv(w: Wal, t: nat, start: nat, pos: nat, open: OpenMap, tb: Table, log: DeltaLog)
    requires start <= pos <= |w|
  {
    var d, wm := tb.dedupeBelow, Watermark(log, tb.dedupeBelow);
    && d <= wm && (wm == d || wm <= ReadUpTo(w, pos))
    && StartCovers(w, t, d, start)
    && BufferInv(w, t, start, pos, open, d)
    && PendingInv(w, t, pos, tb.pending, wm)
  }

  ghost predicate OpenInv(w: Wal, pos: nat, open: OpenMap, floor: Lsn)
    requires pos <= |w|
  {
    forall x :: x in open ==>
      && floor <= open[x].firstLsn <= ReadUpTo(w, pos)
      && forall j :: 0 <= j < |open[x].ops| ==> open[x].firstLsn <= open[x].ops[j].lsn
  }

  ghost predicate FlushInv(w: Wal, n: nat, u: Run, floor: Lsn)
    requires u.Up? && |u.tables| == n && u.pos <= |w|
  {
    u.phase.Flushing? ==>
      && u.phase.next <= n && floor <= u.phase.restart <= ReadUpTo(w, u.pos)
      && (forall t :: 0 <= t < u.phase.next ==> u.tables[t].pending.rows == [])
      && forall t :: 0 <= t < n ==> Covered(w, t, Max(u.tables[t].dedupeBelow, ReadUpTo(w, u.pos)), u.phase.restart)
  }

  /** Restart LSNs stamped by the rounds of one run never decrease. */
  ghost predicate RoundsAscend(rounds: seq<Lsn>) {
    forall i, j :: 0 <= i < j < |rounds| ==> rounds[i] <= rounds[j]
  }

  ghost predicate RoundsInv(w: Wal, u: Run)
    requires u.Up? && u.pos <= |w|
  {
    && RoundsAscend(u.rounds)
    && forall i :: 0 <= i < |u.rounds| ==>
         && u.rounds[i] <= ReadUpTo(w, u.pos)
         && (forall x :: x in u.open ==> u.rounds[i] <= u.open[x].firstLsn)
         && (u.phase.Streaming? && !NothingPending(u.tables) ==> u.rounds[i] <= u.lastCommit)
  }

  ghost predicate RunInv(w: Wal, n: nat, u: Run, logs: seq<DeltaLog>, floor: Lsn)
    requires |logs| == n
  {
    u.Up? ==>
      && |u.tables| == n && u.start <= u.pos <= |w|
      && (forall i :: u.start <= i < |w| ==> floor <= w[i].lsn)
      && floor <= u.lastCommit
      && (NothingPending(u.tables) || u.lastCommit <= ReadUpTo(w, u.pos))
      && OpenInv(w, u.pos, u.open, floor)
      && (forall t :: 0 <= t < n ==> TableInv(w, t, u.start, u.pos, u.open, u.tables[t], logs[t]))
      && FlushInv(w, n, u, floor)
      && RoundsInv(w, u)
  }

  ghost predicate Inv(w: Wal, n: nat, s: Sys) {
    && Typed(s, n)
    && s.floor % PAGE == 0
    && (forall t :: 0 <= t < n ==> LogInv(w, t, s.logs[t], s.origins[t], s.floor))
    && RunInv(w, n, s.run, s.logs, s.floor)
  }

  // ---- Snapshot and start ---------------------------------------------------------------

  lemma CoveredMono(w: Wal, t: nat, d: Lsn, r: Lsn, d': Lsn, r': Lsn)
    requires Covered(w, t, d, r) && d <= d' && r' <= r
    ensures Covered(w, t, d', r')
  {
  }

  lemma SnapshotLog(w: Wal, t: nat, log: DeltaLog, cutover: Lsn, snap: seq<(Ctid, Image)>, floor: Lsn)
    requires log.rows == [] && Covered(w, t, cutover, cutover) && floor <= cutover
    ensures LogInv(w, t, Append(log, SnapshotRows(cutover, snap), cutover, cutover), Some(Origin(cutover, snap)), floor)
  {
    var rows := log.rows + SnapshotRows(cutover, snap);
    assert rows == SnapshotRows(cutover, snap);
    ExpectedEmpty(w, t, |w|, cutover, cutover);
    assert Erased(rows) == SnapEntries(Origin(cutover, snap));
    CoveredMono(w, t, cutover, cutover, cutover, PageFloor(cutover));
  }

  lemma SnapshotKeepsInv(w: Wal, n: nat, s: Sys, a: Step)
    requires Inv(w, n, s) && a.TakeSnapshot? && Enabled(w, n, s, a)
    ensures Inv(w, n, Apply(w, n, s, a))
  {
    SnapshotLog(w, a.t, s.logs[a.t], a.cutover, a.snap, s.floor);
    var s' := Apply(w, n, s, a);
    forall t | 0 <= t < n ensures LogInv(w, t, s'.logs[t], s'.origins[t], s'.floor) {
      if t != a.t {
        assert s'.logs[t] == s.logs[t] && s'.origins[t] == s.origins[t];
      }
    }
  }

  lemma StartTable(w: Wal, n: nat, t: nat, tb: Table, log: DeltaLog, cand: Lsn, start: nat)
    requires start <= |w|
    requires Covered(w, t, tb.dedupeBelow, cand)
    requires forall i :: 0 <= i < start ==> w[i].lsn < cand
    requires Watermark(log, tb.dedupeBelow) == tb.dedupeBelow && tb.pending == Pending([], 0, 0)
    ensures TableInv(w, t, start, start, map[], tb, log)
  {
    var d := tb.dedupeBelow;
    forall k, i, x | 0 <= i < k < |w| && Commits(w[k], x) && w[k].lsn > d && Writes(w[i], t, x) ensures start <= i {
      assert w[i].lsn >= cand;
    }
    forall k, i, x | 0 <= i < k < start && Commits(w[k], x) && w[k].lsn > d ensures !Writes(w[i], t, x) {
      assert w[i].lsn < cand;
    }
    NothingDue(w, t, start, d);
    assert Erased([]) == [];
  }

  lemma StartKeepsInv(w: Wal, n: nat, s: Sys, a: Step)
    requires Inv(w, n, s) && a.Start? && Enabled(w, n, s, a)
    ensures Inv(w, n, Apply(w, n, s, a)) && Apply(w, n, s, a).floor >= s.floor
  {
    hide Truth, Due, Expected, BufferInv;
    var s' := Apply(w, n, s, a);
    var u := s'.run;
    forall t | 0 <= t < n ensures a.resumeFrom <= Candidate(s.logs[t], a.cutovers[t]) && s.floor <= Candidate(s.logs[t], a.cutovers[t]) {
      assert LogInv(w, t, s.logs[t], s.origins[t], s.floor);
    }
    FloorFacts(s.floor, a.resumeFrom);
    forall t | 0 <= t < n
      ensures TableInv(w, t, u.start, u.pos, u.open, u.tables[t], s'.logs[t])
      ensures LogInv(w, t, s'.logs[t], s'.origins[t], s'.floor)
    {
      assert LogInv(w, t, s.logs[t], s.origins[t], s.floor);
      StartTable(w, n, t, u.tables[t], s.logs[t], Candidate(s.logs[t], a.cutovers[t]), a.start);
    }
  }

  lemma FloorFacts(floor: Lsn, r: Lsn)
    requires floor % PAGE == 0 && floor <= r
    ensures PageFloor(r) % PAGE == 0 && floor <= PageFloor(r) <= r
  {
    assert r == PAGE * (r / PAGE) + r % PAGE;
    assert floor == PAGE * (floor / PAGE);
    assert PageFloor(r) == PAGE * (r / PAGE);
  }

  // ---- Reading a record -----------------------------------------------------------------

  lemma {:induction false} AddOpsEffect(open: OpenMap, xid: Xid, lsn: Lsn, table: nat, ops: seq<Op>)
    ensures var o' := AddOps(open, xid, lsn, table, ops);
            && (forall y :: y != xid ==> (y in o' <==> y in open) && (y in open ==> o'[y] == open[y]))
            && (ops == [] ==> o' == open)
            && (ops != [] ==>
                  && xid in o'
                  && o'[xid].firstLsn == (if xid in open then open[xid].firstLsn else lsn)
                  && o'[xid].ops == (if xid in open then open[xid].ops else []) + Tagged(Changes(lsn, xid, table, ops)))
    decreases |ops|
  {
    if ops != [] {
      var front := ops[..|ops| - 1];
      AddOpsEffect(open, xid, lsn, table, front);
      assert Tagged(Changes(lsn, xid, table, ops))
          == Tagged(Changes(lsn, xid, table, front)) + [PendingOp(lsn, table, ops[|ops| - 1])];
      if front == [] {
        assert Tagged(Changes(lsn, xid, table, front)) == [];
      }
    }
  }

  lemma {:induction false} TaggedOfTable(s: seq<PendingOp>, table: nat, t: nat)
    requires forall i :: 0 <= i < |s| ==> s[i].table == table
    ensures OfTable(s, t) == if t == table then s else []
    decreases |s|
  {
    if s != [] {
      TaggedOfTable(s[..|s| - 1], table, t);
      assert s == s[..|s| - 1] + [s[|s| - 1]];
    }
  }

  lemma PartOf(r: Rec, x: Xid, t: nat)
    requires r.Changes?
    ensures Part(r, {x}, t) == if x == r.xid && r.table == t then Tagged(Changes(r.lsn, r.xid, r.table, r.ops)) else []
  {
  }

  lemma OfTableNothing(t: nat)
    ensures OfTable([], t) == []
  {
  }

  /** Buffering a record's ops extends what is buffered by exactly that record's part of the truth. */
  lemma ChangesBuffer(w: Wal, t: nat, start: nat, pos: nat, open: OpenMap, d: Lsn, got: seq<Op>)
    requires start <= pos < |w| && w[pos].Changes? && BufferInv(w, t, start, pos, open, d)
    requires w[pos].table == t && Matters(w, w[pos].xid, d) ==> got == w[pos].ops
    ensures var r := w[pos]; BufferInv(w, t, start, pos + 1, AddOps(open, r.xid, r.lsn, r.table, got), d)
  {
    hide AddOps, OfTable, Part;
    OfTableNothing(t);
    var r := w[pos];
    var o' := AddOps(open, r.xid, r.lsn, r.table, got);
    AddOpsEffect(open, r.xid, r.lsn, r.table, got);
    forall x | Matters(w, x, d) && !Finished(w, pos + 1, x)
      ensures Buffered(o', x, t) == Truth(w, start, pos + 1, {x}, t)
    {
      assert !Finished(w, pos, x);
      var more := Tagged(Changes(r.lsn, r.xid, r.table, got));
      TaggedOfTable(more, r.table, t);
      if x == r.xid && got != [] {
        var had := if x in open then open[x].ops else [];
        OfTableConcat(had, more, t);
      }
      assert Buffered(o', x, t) == Buffered(open, x, t) + (if x == r.xid && got != [] && r.table == t then more else []);
      PartOf(r, x, t);
    }
  }

  lemma ReadAdvances(w: Wal, pos: nat)
    requires pos < |w| && Increasing(w)
    ensures ReadUpTo(w, pos) <= w[pos].lsn == ReadUpTo(w, pos + 1)
    ensures pos > 0 ==> ReadUpTo(w, pos) < w[pos].lsn
  {
  }

  lemma PendingUntouched(w: Wal, t: nat, pos: nat, p: Pending, wm: Lsn)
    requires pos < |w| && !w[pos].Commit? && Increasing(w) && PendingInv(w, t, pos, p, wm)
    ensures PendingInv(w, t, pos + 1, p, wm)
  {
    ReadAdvances(w, pos);
    assert Due(w, t, pos + 1, wm) == Due(w, t, pos, wm);
    assert Due(w, t, pos + 1, p.maxCommit) == Due(w, t, pos, p.maxCommit);
  }

  lemma ChangesTable(w: Wal, t: nat, start: nat, pos: nat, open: OpenMap, tb: Table, log: DeltaLog, got: seq<Op>)
    requires start <= pos < |w| && w[pos].Changes? && Increasing(w) && TableInv(w, t, start, pos, open, tb, log)
    requires w[pos].table == t && Matters(w, w[pos].xid, tb.dedupeBelow) ==> got == w[pos].ops
    ensures var r := w[pos]; TableInv(w, t, start, pos + 1, AddOps(open, r.xid, r.lsn, r.table, got), tb, log)
  {
    ReadAdvances(w, pos);
    ChangesBuffer(w, t, start, pos, open, tb.dedupeBelow, got);
    PendingUntouched(w, t, pos, tb.pending, Watermark(log, tb.dedupeBelow));
  }

  lemma ChangesRounds(w: Wal, u: Run, got: seq<Op>)
    requires u.Up? && u.pos < |w| && w[u.pos].Changes? && Increasing(w) && RoundsInv(w, u)
    ensures var r := w[u.pos];
            RoundsInv(w, u.(pos := u.pos + 1, open := AddOps(u.open, r.xid, r.lsn, r.table, got)))
  {
    var r := w[u.pos];
    ReadAdvances(w, u.pos);
    AddOpsEffect(u.open, r.xid, r.lsn, r.table, got);
    var o' := AddOps(u.open, r.xid, r.lsn, r.table, got);
    forall i, x | 0 <= i < |u.rounds| && x in o' ensures u.rounds[i] <= o'[x].firstLsn {
      if x in u.open {
        assert o'[x].firstLsn == u.open[x].firstLsn;
      }
    }
  }

  lemma ReadChangesKeepsInv(w: Wal, n: nat, s: Sys, a: Step)
    requires WellFormed(w, n) && Inv(w, n, s) && a.Read? && Enabled(w, n, s, a) && w[s.run.pos].Changes?
    ensures Inv(w, n, Apply(w, n, s, a))
  {
    hide TableInv, LogInv, Truth, AddOps, RoundsInv, OpenInv;
    var u := s.run;
    var s' := Apply(w, n, s, a);
    assert s'.run == u.(pos := u.pos + 1, open := AddOps(u.open, w[u.pos].xid, w[u.pos].lsn, w[u.pos].table, a.got));
    ReadAdvances(w, u.pos);
    forall t | 0 <= t < n ensures TableInv(w, t, u.start, u.pos + 1, s'.run.open, u.tables[t], s.logs[t]) {
      ChangesTable(w, t, u.start, u.pos, u.open, u.tables[t], s.logs[t], a.got);
    }
    ReadOpenInv(w, s, a);
    ChangesRounds(w, u, a.got);
  }

  lemma ReadOpenInv(w: Wal, s: Sys, a: Step)
    requires s.run.Up? && s.run.start <= s.run.pos < |w| && w[s.run.pos].Changes?
    requires OpenInv(w, s.run.pos, s.run.open, s.floor) && s.floor <= w[s.run.pos].lsn
    requires ReadUpTo(w, s.run.pos) <= w[s.run.pos].lsn && a.Read?
    ensures var r := w[s.run.pos];
            OpenInv(w, s.run.pos + 1, AddOps(s.run.open, r.xid, r.lsn, r.table, a.got), s.floor)
  {
    var r := w[s.run.pos];
    var o' := AddOps(s.run.open, r.xid, r.lsn, r.table, a.got);
    AddOpsEffect(s.run.open, r.xid, r.lsn, r.table, a.got);
    forall x | x in o'
      ensures s.floor <= o'[x].firstLsn <= ReadUpTo(w, s.run.pos + 1)
      ensures forall j :: 0 <= j < |o'[x].ops| ==> o'[x].firstLsn <= o'[x].ops[j].lsn
    {
      if x != r.xid || a.got == [] {
        assert x in s.run.open && o'[x] == s.run.open[x];
      }
    }
  }

  // ---- Commit and abort -----------------------------------------------------------------

  lemma BufferForgets(w: Wal, t: nat, start: nat, pos: nat, open: OpenMap, d: Lsn)
    requires start <= pos < |w| && !w[pos].Changes? && BufferInv(w, t, start, pos, open, d)
    ensures BufferInv(w, t, start, pos + 1, Forget(open, Family(w[pos])), d)
  {
    var o' := Forget(open, Family(w[pos]));
    forall x | Matters(w, x, d) && !Finished(w, pos + 1, x)
      ensures Buffered(o', x, t) == Truth(w, start, pos + 1, {x}, t)
    {
      assert !Finished(w, pos, x) && !Finishes(w[pos], x);
      assert Buffered(o', x, t) == Buffered(open, x, t);
      assert Part(w[pos], {x}, t) == [];
    }
  }

  /** What a commit above the watermark releases to `t` is the family's whole history there, in WAL order. */
  lemma CommitReleasesTruth(w: Wal, n: nat, t: nat, start: nat, pos: nat, open: OpenMap, d: Lsn)
    requires WellFormed(w, n) && start <= pos < |w| && w[pos].Commit? && w[pos].lsn > d
    requires StartCovers(w, t, d, start) && BufferInv(w, t, start, pos, open, d)
    ensures OfTable(StableSort(Collect(open, Family(w[pos]))), t) == Truth(w, 0, pos, XidSet(Family(w[pos])), t)
  {
    var fam := Family(w[pos]);
    forall x | x in fam ensures Buffered(open, x, t) == Truth(w, start, pos, {x}, t) {
      assert Commits(w[pos], x);
      assert Matters(w, x, d);
      assert Finishes(w[pos], x);
      assert !Finished(w, pos, x);
    }
    CollectIsTruth(w, start, pos, open, fam, t);
    SortOfTable(Collect(open, fam), t);
    forall i, x | 0 <= i < start && x in XidSet(fam) ensures !Writes(w[i], t, x) {
      assert Commits(w[pos], x);
    }
    TruthFrom(w, start, pos, XidSet(fam), t);
  }

  lemma {:induction false} DueAbove(w: Wal, t: nat, n: nat, lo: Lsn)
    requires n <= |w| && forall i :: 0 <= i < n ==> w[i].lsn <= lo
    ensures Due(w, t, n, lo) == []
  {
    if n > 0 {
      DueAbove(w, t, n - 1, lo);
    }
  }

  lemma CommitSkipped(w: Wal, t: nat, pos: nat, p: Pending, wm: Lsn)
    requires pos < |w| && w[pos].Commit? && Increasing(w) && w[pos].lsn <= wm && PendingInv(w, t, pos, p, wm)
    ensures PendingInv(w, t, pos + 1, p, wm)
  {
    ReadAdvances(w, pos);
    assert p.rows == [];
    assert Due(w, t, pos + 1, wm) == Due(w, t, pos, wm);
  }

  lemma EmptyCommitOwes(w: Wal, t: nat, pos: nat, lo: Lsn)
    requires pos < |w| && w[pos].Commit? && Truth(w, 0, pos, XidSet(Family(w[pos])), t) == []
    ensures Due(w, t, pos + 1, lo) == Due(w, t, pos, lo)
  {
    hide Truth;
    assert CommitEntries(w, pos, t) == [];
  }

  lemma CommitPends(w: Wal, n: nat, t: nat, pos: nat, tb: Table, wm: Lsn)
    requires WellFormed(w, n) && pos < |w| && w[pos].Commit? && wm < w[pos].lsn
    requires PendingInv(w, t, pos, tb.pending, wm)
    ensures PendingInv(w, t, pos + 1,
                       FoldOps(tb, w[pos].lsn, Truth(w, 0, pos, XidSet(Family(w[pos])), t)).pending, wm)
  {
    hide Truth, FoldOps;
    var l, ops := w[pos].lsn, Truth(w, 0, pos, XidSet(Family(w[pos])), t);
    var p, q := tb.pending, FoldOps(tb, l, ops).pending;
    ReadAdvances(w, pos);
    TruthOk(w, n, 0, pos, XidSet(Family(w[pos])), t);
    FoldAppends(tb, l, ops);
    assert Erased(q.rows) == Due(w, t, pos + 1, wm);
    assert q.rows != [] ==> Due(w, t, pos + 1, q.maxCommit) == [] by {
      if ops == [] {
        assert q.rows == p.rows;
        EmptyCommitOwes(w, t, pos, p.maxCommit);
      } else {
        assert q.maxCommit == l;
        forall i | 0 <= i < pos + 1 ensures w[i].lsn <= l { }
        DueAbove(w, t, pos + 1, l);
      }
    }
    assert StrictlyOrdered(q.rows) by { FoldOrdered(p.rows, q.rows, p.seqno, l, p.maxCommit, pos, w); }
  }

  lemma FoldOrdered(a: seq<EmitRow>, b: seq<EmitRow>, seqno: nat, l: Lsn, max: Lsn, pos: nat, w: Wal)
    requires |a| <= |b| && b[..|a|] == a && StrictlyOrdered(a) && max <= l
    requires forall j :: 0 <= j < |a| ==> a[j].lsn <= max && a[j].seqno <= seqno
    requires forall j :: |a| <= j < |b| ==> b[j].lsn == l && b[j].seqno == seqno + 1 + j - |a|
    ensures StrictlyOrdered(b)
  {
    forall i, j | 0 <= i < j < |b| ensures Before(b[i], b[j]) {
      if j < |a| {
        assert b[i] == a[i] && b[j] == a[j];
      } else if i < |a| {
        assert b[i] == a[i];
      }
    }
  }

  lemma CommitTable(w: Wal, n: nat, t: nat, start: nat, pos: nat, open: OpenMap, tb: Table, log: DeltaLog)
    requires WellFormed(w, n) && start <= pos < |w| && w[pos].Commit? && TableInv(w, t, start, pos, open, tb, log)
    ensures var r := w[pos];
            var tb' := if r.lsn <= tb.dedupeBelow then tb
                       else FoldOps(tb, r.lsn, OfTable(StableSort(Collect(open, Family(r))), t));
            TableInv(w, t, start, pos + 1, Forget(open, Family(r)), tb', log)
  {
    var d, wm := tb.dedupeBelow, Watermark(log, tb.dedupeBelow);
    var r := w[pos];
    ReadAdvances(w, pos);
    BufferForgets(w, t, start, pos, open, d);
    if r.lsn <= d {
      CommitSkipped(w, t, pos, tb.pending, wm);
    } else {
      CommitReleasesTruth(w, n, t, start, pos, open, d);
      CommitPends(w, n, t, pos, tb, wm);
      TruthOk(w, n, 0, pos, XidSet(Family(r)), t);
      FoldAppends(tb, r.lsn, Truth(w, 0, pos, XidSet(Family(r)), t));
    }
  }

  lemma ForgetKeepsOpen(w: Wal, pos: nat, open: OpenMap, xids: seq<Xid>, floor: Lsn)
    requires pos < |w| && Increasing(w) && OpenInv(w, pos, open, floor)
    ensures OpenInv(w, pos + 1, Forget(open, xids), floor)
  {
    ReadAdvances(w, pos);
  }

  /** What reading a commit does, field by field. */
  lemma CommitApplied(w: Wal, n: nat, s: Sys, a: Step)
    requires Typed(s, n) && a.Read? && Enabled(w, n, s, a) && w[s.run.pos].Commit?
    ensures var u, r, s' := s.run, w[s.run.pos], Apply(w, n, s, a);
            var ops := StableSort(Collect(u.open, Family(r)));
            && TablesInRange(ops, n)
            && s' == s.(run := u.(pos := u.pos + 1, open := Forget(u.open, Family(r)),
                                  tables := Release(u.tables, r.lsn, ops), lastCommit := r.lsn))
  {
    hide StableSort, Collect;
    CollectInRange(s.run.open, Family(w[s.run.pos]), n);
    SortInRange(Collect(s.run.open, Family(w[s.run.pos])), n);
  }

  lemma AbortApplied(w: Wal, n: nat, s: Sys, a: Step)
    requires Typed(s, n) && a.Read? && Enabled(w, n, s, a) && w[s.run.pos].Abort?
    ensures Apply(w, n, s, a) == s.(run := s.run.(pos := s.run.pos + 1, open := Forget(s.run.open, Family(w[s.run.pos]))))
  {
  }

  /** Finishing a transaction leaves no stamped restart above what is still open or was just committed. */
  lemma FinishRounds(w: Wal, u: Run, tables: seq<Table>, lastCommit: Lsn)
    requires u.Up? && u.pos < |w| && !w[u.pos].Changes? && Increasing(w) && RoundsInv(w, u)
    requires (lastCommit == u.lastCommit && tables == u.tables) || lastCommit == w[u.pos].lsn
    ensures RoundsInv(w, u.(pos := u.pos + 1, open := Forget(u.open, Family(w[u.pos])), tables := tables, lastCommit := lastCommit))
  {
    ReadAdvances(w, u.pos);
  }

  lemma CommitAt(w: Wal, n: nat, t: nat, start: nat, pos: nat, open: OpenMap, tables: seq<Table>, log: DeltaLog)
    requires WellFormed(w, n) && start <= pos < |w| && w[pos].Commit? && t < n == |tables|
    requires TableInv(w, t, start, pos, open, tables[t], log)
    requires TablesInRange(StableSort(Collect(open, Family(w[pos]))), n)
    ensures var r := w[pos];
            TableInv(w, t, start, pos + 1, Forget(open, Family(r)),
                     Release(tables, r.lsn, StableSort(Collect(open, Family(r))))[t], log)
  {
    hide StableSort, Collect, FoldOps, TableInv, OfTable, Forget, Release;
    CommitTable(w, n, t, start, pos, open, tables[t], log);
    ReleaseOneTable(tables, w[pos].lsn, StableSort(Collect(open, Family(w[pos]))), t);
  }

  lemma ReadCommitKeepsInv(w: Wal, n: nat, s: Sys, a: Step)
    requires WellFormed(w, n) && Inv(w, n, s) && a.Read? && Enabled(w, n, s, a) && w[s.run.pos].Commit?
    ensures Inv(w, n, Apply(w, n, s, a))
  {
    hide StableSort, Collect, TableInv, LogInv, Apply, Forget, Release, RoundsInv, OpenInv;
    var u, r := s.run, w[s.run.pos];
    var ops := StableSort(Collect(u.open, Family(r)));
    CommitApplied(w, n, s, a);
    var u' := Apply(w, n, s, a).run;
    ReadAdvances(w, u.pos);
    forall t | 0 <= t < n ensures TableInv(w, t, u.start, u.pos + 1, u'.open, u'.tables[t], s.logs[t]) {
      CommitAt(w, n, t, u.start, u.pos, u.open, u.tables, s.logs[t]);
    }
    ForgetKeepsOpen(w, u.pos, u.open, Family(r), s.floor);
    FinishRounds(w, u, u'.tables, r.lsn);
  }

  lemma AbortTable(w: Wal, t: nat, start: nat, pos: nat, open: OpenMap, tb: Table, log: DeltaLog)
    requires start <= pos < |w| && w[pos].Abort? && Increasing(w) && TableInv(w, t, start, pos, open, tb, log)
    ensures TableInv(w, t, start, pos + 1, Forget(open, Family(w[pos])), tb, log)
  {
    ReadAdvances(w, pos);
    BufferForgets(w, t, start, pos, open, tb.dedupeBelow);
    PendingUntouched(w, t, pos, tb.pending, Watermark(log, tb.dedupeBelow));
  }

  lemma ReadAbortKeepsInv(w: Wal, n: nat, s: Sys, a: Step)
    requires WellFormed(w, n) && Inv(w, n, s) && a.Read? && Enabled(w, n, s, a) && w[s.run.pos].Abort?
    ensures Inv(w, n, Apply(w, n, s, a))
  {
    hide TableInv, LogInv, Apply, Forget, RoundsInv, OpenInv;
    var u, r := s.run, w[s.run.pos];
    AbortApplied(w, n, s, a);
    ReadAdvances(w, u.pos);
    forall t | 0 <= t < n ensures TableInv(w, t, u.start, u.pos + 1, Forget(u.open, Family(r)), u.tables[t], s.logs[t]) {
      AbortTable(w, t, u.start, u.pos, u.open, u.tables[t], s.logs[t]);
    }
    ForgetKeepsOpen(w, u.pos, u.open, Family(r), s.floor);
    FinishRounds(w, u, u.tables, u.lastCommit);
  }

  // ---- Flush ----------------------------------------------------------------------------

  lemma {:induction false} OfTableMember(s: seq<PendingOp>, t: nat, j: nat)
    requires j < |OfTable(s, t)|
    ensures OfTable(s, t)[j] in s
    decreases |s|
  {
    var front := s[..|s| - 1];
    if j < |OfTable(front, t)| {
      OfTableMember(front, t, j);
    }
  }

  /** The restart LSN computed when a round begins is at or below every op still to be delivered. */
  lemma RestartIsSafe(w: Wal, n: nat, t: nat, u: Run, log: DeltaLog, restart: Lsn, floor: Lsn)
    requires WellFormed(w, n) && u.Up? && t < n == |u.tables| && u.start <= u.pos <= |w|
    requires TableInv(w, t, u.start, u.pos, u.open, u.tables[t], log) && OpenInv(w, u.pos, u.open, floor)
    requires u.lastCommit <= ReadUpTo(w, u.pos) && IsRestart(u.open, u.lastCommit, restart)
    ensures Covered(w, t, Max(u.tables[t].dedupeBelow, ReadUpTo(w, u.pos)), restart)
  {
    var d := u.tables[t].dedupeBelow;
    forall k, i, x | 0 <= i < k < |w| && Commits(w[k], x) && w[k].lsn > Max(d, ReadUpTo(w, u.pos)) && Writes(w[i], t, x)
      ensures w[i].lsn >= restart
    {
      assert u.pos <= k;
      if u.pos <= i {
        assert ReadUpTo(w, u.pos) <= w[i].lsn;
      } else {
        assert u.start <= i;
        assert Matters(w, x, d);
        assert Finishes(w[k], x);
        assert !Finished(w, u.pos, x);
        assert Buffered(u.open, x, t) == Truth(w, u.start, u.pos, {x}, t);
        var j := TruthHas(w, u.start, u.pos, {x}, t, i);
        OfTableMember(u.open[x].ops, t, j);
        assert restart <= u.open[x].firstLsn;
      }
    }
  }

  lemma BeginFlushKeepsInv(w: Wal, n: nat, s: Sys, a: Step)
    requires WellFormed(w, n) && Inv(w, n, s) && a.BeginFlush? && Enabled(w, n, s, a)
    ensures Inv(w, n, Apply(w, n, s, a))
  {
    hide TableInv, LogInv, Covered;
    var u, u' := s.run, Apply(w, n, s, a).run;
    forall t | 0 <= t < n
      ensures Covered(w, t, Max(u.tables[t].dedupeBelow, ReadUpTo(w, u.pos)), a.restart)
      ensures TableInv(w, t, u'.start, u'.pos, u'.open, u'.tables[t], s.logs[t])
    {
      RestartIsSafe(w, n, t, u, s.logs[t], a.restart, s.floor);
    }
    assert s.floor <= a.restart <= ReadUpTo(w, u.pos);
    forall i | 0 <= i < |u.rounds| ensures u.rounds[i] <= a.restart { }
  }

  /** The appended rows and the stamped watermarks re-establish the log's contract. */
  lemma FlushLog(w: Wal, n: nat, t: nat, start: nat, pos: nat, open: OpenMap, tb: Table, log: DeltaLog, origin: Option<Origin>,
                 restart: Lsn, floor: Lsn)
    requires WellFormed(w, n) && start <= pos <= |w| && TableInv(w, t, start, pos, open, tb, log)
    requires LogInv(w, t, log, origin, floor) && floor <= restart && tb.pending.rows != []
    requires Covered(w, t, Max(tb.dedupeBelow, ReadUpTo(w, pos)), restart)
    ensures LogInv(w, t, Append(log, tb.pending.rows, tb.pending.maxCommit, restart),
                   if origin.Some? then origin else Some(Origin(tb.dedupeBelow, [])), floor)
  {
    hide Expected, Due, CommitEntries, StartCovers, BufferInv;
    var p, wm, m := tb.pending, Watermark(log, tb.dedupeBelow), tb.pending.maxCommit;
    var o := if origin.Some? then origin.value else Origin(tb.dedupeBelow, []);
    var cut, hi := o.cutover, ReadUpTo(w, pos);
    FlushCovers(w, n, t, pos, tb, wm, restart);
    CoveredMono(w, t, m, restart, m, PageFloor(restart));
    assert Erased(log.rows) == SnapEntries(o) + Expected(w, t, |w|, cut, wm) by {
      if origin.None? {
        ExpectedEmpty(w, t, |w|, cut, wm);
        assert SnapEntries(o) == [];
      }
    }
    ExpectedIsDue(w, t, |w|, pos, wm);
    ExpectedIsDue(w, t, |w|, pos, m);
    ExpectedSplit(w, t, |w|, cut, wm, hi);
    ExpectedSplit(w, t, |w|, cut, m, hi);
    calc {
      Erased(log.rows + p.rows);
      Erased(log.rows) + Erased(p.rows);
      SnapEntries(o) + Expected(w, t, |w|, cut, wm) + Expected(w, t, |w|, wm, hi);
      SnapEntries(o) + (Expected(w, t, |w|, cut, wm) + Expected(w, t, |w|, wm, hi));
      SnapEntries(o) + (Expected(w, t, |w|, cut, m) + Expected(w, t, |w|, m, hi));
      SnapEntries(o) + Expected(w, t, |w|, cut, m);
    }
  }

  lemma FlushCovers(w: Wal, n: nat, t: nat, pos: nat, tb: Table, wm: Lsn, restart: Lsn)
    requires WellFormed(w, n) && pos <= |w| && PendingInv(w, t, pos, tb.pending, wm) && tb.pending.rows != []
    requires tb.dedupeBelow <= wm && Covered(w, t, Max(tb.dedupeBelow, ReadUpTo(w, pos)), restart)
    ensures Covered(w, t, tb.pending.maxCommit, restart)
  {
    var m := tb.pending.maxCommit;
    forall k, i, x | 0 <= i < k < |w| && Commits(w[k], x) && w[k].lsn > m && Writes(w[i], t, x)
      ensures w[i].lsn >= restart
    {
      if k < pos {
        DueNothing(w, t, pos, m, k, i, x);
      } else {
        assert pos > 0 ==> w[pos - 1].lsn < w[k].lsn;
      }
    }
  }

  lemma FlushTableInv(w: Wal, t: nat, start: nat, pos: nat, open: OpenMap, tb: Table, log: DeltaLog, restart: Lsn)
    requires start <= pos <= |w| && TableInv(w, t, start, pos, open, tb, log)
    ensures TableInv(w, t, start, pos, open, FlushedTable(tb), FlushedLog(tb, log, restart))
  {
  }

  lemma FlushTableKeepsInv(w: Wal, n: nat, s: Sys, a: Step)
    requires WellFormed(w, n) && Inv(w, n, s) && a.FlushTable? && Enabled(w, n, s, a)
    ensures Inv(w, n, Apply(w, n, s, a))
  {
    hide TableInv, LogInv, Covered;
    var u := s.run;
    var c, restart := u.phase.next, u.phase.restart;
    var s' := Apply(w, n, s, a);
    var tb := u.tables[c];
    if tb.pending.rows != [] {
      FlushLog(w, n, c, u.start, u.pos, u.open, tb, s.logs[c], s.origins[c], restart, s.floor);
    }
    FlushTableInv(w, c, u.start, u.pos, u.open, tb, s.logs[c], restart);
    forall t | 0 <= t < n
      ensures LogInv(w, t, s'.logs[t], s'.origins[t], s'.floor)
      ensures TableInv(w, t, u.start, u.pos, u.open, s'.run.tables[t], s'.logs[t])
    {
      assert LogInv(w, t, s.logs[t], s.origins[t], s.floor);
      assert TableInv(w, t, u.start, u.pos, u.open, u.tables[t], s.logs[t]);
      if t != c {
        assert s'.logs[t] == s.logs[t] && s'.origins[t] == s.origins[t] && s'.run.tables[t] == u.tables[t];
      }
    }
    assert NothingPending(u.tables) ==> NothingPending(s'.run.tables);
  }

  // ---- Every run ------------------------------------------------------------------------

  lemma QuietKeepsInv(w: Wal, n: nat, s: Sys, a: Step)
    requires Inv(w, n, s) && (a.EndFlush? || a.Compact? || a.Crash?) && Enabled(w, n, s, a)
    ensures Inv(w, n, Apply(w, n, s, a))
  {
    hide TableInv, LogInv, Covered, OpenInv;
  }

  lemma StepKeepsInv(w: Wal, n: nat, s: Sys, a: Step)
    requires WellFormed(w, n) && Inv(w, n, s) && Enabled(w, n, s, a)
    ensures Inv(w, n, Apply(w, n, s, a))
  {
    hide Inv;
    match a
    case TakeSnapshot(_, _, _) => SnapshotKeepsInv(w, n, s, a);
    case Start(_, _, _, _) => StartKeepsInv(w, n, s, a);
    case Read(_) =>
      match w[s.run.pos] {
        case Changes(_, _, _, _) => ReadChangesKeepsInv(w, n, s, a);
        case Commit(_, _, _) => ReadCommitKeepsInv(w, n, s, a);
        case Abort(_, _, _) => ReadAbortKeepsInv(w, n, s, a);
      }
    case BeginFlush(_) => BeginFlushKeepsInv(w, n, s, a);
    case FlushTable => FlushTableKeepsInv(w, n, s, a);
    case EndFlush => QuietKeepsInv(w, n, s, a);
    case Compact(_, _) => QuietKeepsInv(w, n, s, a);
    case Crash => QuietKeepsInv(w, n, s, a);
  }

  lemma {:induction false} TraceInv(w: Wal, n: nat, states: seq<Sys>, steps: seq<Step>, i: nat)
    requires WellFormed(w, n) && IsTrace(w, n, states, steps) && i < |states|
    ensures Inv(w, n, states[i])
  {
    if i > 0 {
      TraceInv(w, n, states, steps, i - 1);
      StepKeepsInv(w, n, states[i - 1], steps[i - 1]);
    }
  }

  /**
   Exactly-once delivery: in every state of every run, whatever the interleaving of records, flush rounds, crashes
   between two table appends and restarts, each log is its snapshot and then the ops of exactly the commits up to
   its watermark, nothing twice, nothing aborted, in strictly increasing (lsn, seq) order.
   */
  lemma ExactlyOnceAlways(w: Wal, n: nat, states: seq<Sys>, steps: seq<Step>, i: nat, t: nat)
    requires WellFormed(w, n) && IsTrace(w, n, states, steps) && i < |states| && t < n
    ensures |states[i].logs| == n && |states[i].origins| == n
    ensures ExactlyOnce(w, t, states[i].logs[t], states[i].origins[t])
  {
    TraceInv(w, n, states, steps, i);
    assert LogInv(w, t, states[i].logs[t], states[i].origins[t], states[i].floor);
  }

  /** The restart-position invariant, in every state of every run. */
  lemma RestartCoversAlways(w: Wal, n: nat, states: seq<Sys>, steps: seq<Step>, i: nat, t: nat)
    requires WellFormed(w, n) && IsTrace(w, n, states, steps) && i < |states| && t < n
    ensures |states[i].logs| == n && RestartCovers(w, t, states[i].logs[t])
  {
    TraceInv(w, n, states, steps, i);
    assert LogInv(w, t, states[i].logs[t], states[i].origins[t], states[i].floor);
  }

  /** Within a run the stamped restart LSNs never decrease; from run to run the page the stream starts at never does. */
  lemma RestartNeverDecreases(w: Wal, n: nat, states: seq<Sys>, steps: seq<Step>, i: nat)
    requires WellFormed(w, n) && IsTrace(w, n, states, steps) && i < |states|
    ensures states[i].run.Up? ==> RoundsAscend(states[i].run.rounds)
    ensures i < |steps| ==> states[i].floor <= states[i + 1].floor
  {
    TraceInv(w, n, states, steps, i);
    if i < |steps| && steps[i].Start? {
      StartKeepsInv(w, n, states[i], steps[i]);
    }
  }

  // ---- The engine's flush round and the protocol's steps --------------------------------

  /** The state after `k` of a round's table appends. */
  ghost function AfterAppends(w: Wal, n: nat, s: Sys, k: nat): (s': Sys)
    requires Typed(s, n) && s.run.Up? && s.run.phase.Flushing? && s.run.phase.next == 0 && k <= n
    ensures Typed(s', n) && s'.run.Up? && s'.run.phase == Flushing(s.run.phase.restart, k)
  {
    if k == 0 then s else Apply(w, n, AfterAppends(w, n, s, k - 1), FlushTable)
  }

  /**
   After `k` appends the first `k` tables and logs are as `Engine.Core.FlushAll` promises for a whole round, and
   the rest is untouched: a crash between two appends leaves exactly this.
   */
  lemma {:induction false} RoundPrefix(w: Wal, n: nat, s: Sys, k: nat)
    requires Typed(s, n) && s.run.Up? && s.run.phase.Flushing? && s.run.phase.next == 0 && k <= n
    ensures var s' := AfterAppends(w, n, s, k);
            && (forall t :: 0 <= t < k ==> s'.run.tables[t] == FlushedTable(s.run.tables[t])
                                           && s'.logs[t] == FlushedLog(s.run.tables[t], s.logs[t], s.run.phase.restart))
            && (forall t :: k <= t < n ==> s'.run.tables[t] == s.run.tables[t] && s'.logs[t] == s.logs[t])
            && s'.run.open == s.run.open && s'.run.pos == s.run.pos && s'.run.lastCommit == s.run.lastCommit
  {
    hide FlushedLog, FlushedTable;
    if k > 0 {
      RoundPrefix(w, n, s, k - 1);
    }
  }
}
