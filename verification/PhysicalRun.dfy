/** The protocol run by the engine that decodes physical records against the pre-images it finds. */
module PhysicalRun {
  import opened Base
  import opened TxBuf
  import opened Sink
  import opened Engine
  import opened Stream
  import opened StreamFacts
  import opened Protocol
  import opened ProtocolProof
  import opened ChangeLog
  import opened Heap
  import opened HeapProof
  import opened MirrorProof
  import opened LiveMirror
  import opened TableView
  import opened LogMirror
  import opened Compaction
  import opened Preimage

  /** The ops the engine buffers for a record: its body decoded against some pre-image lookup result. */
  ghost predicate EngineDecodes(r: PRec, open: OpenMap, m: Mirror, got: seq<Op>)
    requires r.PChanges?
  {
    exists pre ::
      && (r.body.One? && HasTarget(r.body.change) ==> IsPreimage(open, m, Key(r.table, Target(r.body.change)), pre))
      && got == DecodeBody(r.body, pre)
  }

  /** The key identified what every op replaced, all along what the table's log records. */
  ghost predicate PrimaryKey(w: Wal, t: nat, log: DeltaLog, origin: Option<Origin>, key: KeyFn) {
    log.commitLsn.Some? && origin.Some? ==> KeyHeld(FullHistory(w, t, origin.value, log.commitLsn.value), key)
  }

  /**
   Snapshots are consistent cuts of the heap, records are decoded by the engine itself, and a table is compacted by
   its key `keys[t]`.
   */
  ghost predicate PhysEnabled(p: PWal, n: nat, keys: seq<KeyFn>, s: Sys, a: Step)
    requires Typed(s, n) && |keys| == n
  {
    var w := TrueWal(p);
    match a
    case TakeSnapshot(t, cutover, snap) =>
      && s.run.Down? && t < n && s.logs[t].restartLsn.None? && snap != []
      && OriginOk(p, w, t, Origin(cutover, snap)) && cutover >= s.floor
    case Start(cutovers, resumeFrom, start, loaders) =>
      && s.run.Down? && |cutovers| == n && |loaders| == n
      && (forall t :: 0 <= t < n && s.logs[t].restartLsn.None? ==>
            OriginOk(p, w, t, Origin(cutovers[t], [])) && cutovers[t] >= s.floor)
      && (exists t :: 0 <= t < n && resumeFrom == Candidate(s.logs[t], cutovers[t]))
      && (forall t :: 0 <= t < n ==> resumeFrom <= Candidate(s.logs[t], cutovers[t]))
      && start <= |w|
      && (forall i :: 0 <= i < |w| ==> (i < start <==> w[i].lsn < PageFloor(resumeFrom)))
    case Read(got) =>
      && s.run.Up? && s.run.phase.Streaming? && s.run.pos < |p|
      && (var r := p[s.run.pos];
          if r.PChanges?
          then r.table < n && EngineDecodes(r, s.run.open, s.run.tables[r.table].mirror, got)
          else got == [])
    case Compact(t, key) => Enabled(w, n, s, a) && key == keys[t]
    case _ => Enabled(w, n, s, a)
  }

  /**
   What the pre-images need of a step: a restart loads every live row with the attribute bytes of its page, and a
   compaction finds every live row to be the newest of its key.
   */
  ghost predicate Careful(p: PWal, n: nat, s: Sys, a: Step)
    requires Typed(s, n)
  {
    var w := TrueWal(p);
    match a
    case Start(_, _, _, loaders) =>
      |loaders| == n && forall t :: 0 <= t < n && s.logs[t].commitLsn.Some? ==>
                          Loads(p, w, IndexOf(w, s.logs[t].commitLsn.value), t, loaders[t])
    case Compact(t, key) =>
      t < n && s.logs[t].commitLsn.Some? ==> KeepsLive(p, w, IndexOf(w, s.logs[t].commitLsn.value), t, s.files[t], key)
    case _ => true
  }

  ghost predicate TablePhys(p: PWal, w: Wal, t: nat, start: nat, pos: nat, open: OpenMap, tb: Table, log: DeltaLog)
    requires pos <= |p| == |w|
  {
    && OverlayOk(p, w, t, start, pos, open, tb.dedupeBelow)
    && MirrorOk(p, w, MirrorIndex(w, pos, tb.dedupeBelow), t, tb.mirror)
    && (log.restartLsn.None? ==> OriginOk(p, w, t, Origin(tb.dedupeBelow, [])))
  }

  ghost predicate PhysInv(p: PWal, w: Wal, n: nat, keys: seq<KeyFn>, s: Sys)
    requires |p| == |w| && |keys| == n
  {
    && Inv(w, n, s)
    && (forall t :: 0 <= t < n ==> FilesOk(p, w, t, s.logs[t], s.files[t], keys[t]))
    && (forall t :: 0 <= t < n && s.origins[t].Some? ==> OriginOk(p, w, t, s.origins[t].value))
    && (s.run.Up? ==>
          forall t :: 0 <= t < n ==>
            TablePhys(p, w, t, s.run.start, s.run.pos, s.run.open, s.run.tables[t], s.logs[t]))
  }

  // ---- Start ----------------------------------------------------------------------------

  /** Records before the run's start that are above the watermark do not change the table's live rows. */
  lemma {:induction false} MirrorUpToStart(p: PWal, w: Wal, n: nat, t: nat, d: Lsn, q: nat, start: nat, m: Mirror)
    requires Setup(p, w, n) && q <= start <= |p| && StartCovers(w, t, d, start)
    requires forall j :: q <= j < |w| ==> w[j].lsn > d
    requires MirrorOk(p, w, q, t, m)
    ensures MirrorOk(p, w, start, t, m)
    decreases start - q
  {
    if q < start {
      if w[q].Commit? {
        var fam := XidSet(Family(w[q]));
        forall j, x | 0 <= j < q && x in fam ensures !Writes(w[j], t, x) {
          assert Commits(w[q], x);
        }
        TruthNoWrites(w, 0, q, fam, t);
        MirrorCommitted(p, w, n, q, t, m, true);
      } else {
        MirrorKept(p, w, n, q, t, m);
      }
      MirrorUpToStart(p, w, n, t, d, q + 1, start, m);
    }
  }

  lemma ResumedMirror(p: PWal, w: Wal, n: nat, t: nat, log: DeltaLog, origin: Option<Origin>, stored: seq<EmitRow>, key: KeyFn,
                      cutover: Lsn, start: nat, loader: Loader)
    requires Setup(p, w, n) && ExactlyOnce(w, t, log, origin) && FilesOk(p, w, t, log, stored, key) && start <= |p|
    requires log.commitLsn.Some? ==> Loads(p, w, IndexOf(w, log.commitLsn.value), t, loader)
    requires log.restartLsn.None? ==> OriginOk(p, w, t, Origin(cutover, []))
    requires StartCovers(w, t, Resumed(log, stored, cutover, loader).dedupeBelow, start)
    ensures var tb := Resumed(log, stored, cutover, loader); MirrorOk(p, w, MirrorIndex(w, start, tb.dedupeBelow), t, tb.mirror)
  {
    var tb := Resumed(log, stored, cutover, loader);
    var d := tb.dedupeBelow;
    var q := IndexOf(w, d);
    if log.restartLsn.None? {
      SnapshotAtCutover(p, w, n, t, Origin(cutover, []), false);
      assert SnapOps(Origin(cutover, [])) == [];
    } else {
      LoadedRight(p, w, q, t, stored, loader);
    }
    if q < start {
      MirrorUpToStart(p, w, n, t, d, q, start, tb.mirror);
    }
  }

  lemma CleanCut(p: PWal, w: Wal, n: nat, t: nat, o: Origin)
    requires Setup(p, w, n) && OriginOk(p, w, t, o)
    ensures Covered(w, t, o.cutover, o.cutover)
  {
    hide Disciplined;
    var i: nat :| i <= |p| && CutAt(w, o.cutover, i) && Quiet(w, t, i) && SnapshotIs(p, w, t, i, o.snap);
    QuietCovers(w, n, t, o.cutover, i);
  }

  lemma PhysStart(p: PWal, w: Wal, n: nat, keys: seq<KeyFn>, s: Sys, a: Step)
    requires Setup(p, w, n) && |keys| == n && PhysInv(p, w, n, keys, s) && a.Start? && PhysEnabled(p, n, keys, s, a) && Careful(p, n, s, a)
    ensures Enabled(w, n, s, a) && PhysInv(p, w, n, keys, Apply(w, n, s, a))
  {
    hide TrueRec, HeapAt, Disciplined, FilesOk, OverlayOk, MirrorOk, OpenInv, RoundsInv, FlushInv, PendingInv, BufferInv, OriginOk, Loads, Covered;
    forall t | 0 <= t < n && s.logs[t].restartLsn.None? ensures Covered(w, t, a.cutovers[t], a.cutovers[t]) {
      CleanCut(p, w, n, t, Origin(a.cutovers[t], []));
    }
    StartKeepsInv(w, n, s, a);
    var u := Apply(w, n, s, a).run;
    forall t | 0 <= t < n ensures TablePhys(p, w, t, u.start, u.pos, u.open, u.tables[t], s.logs[t]) {
      assert TableInv(w, t, u.start, u.pos, u.open, u.tables[t], s.logs[t]);
      assert LogInv(w, t, s.logs[t], s.origins[t], s.floor);
      OverlayStarts(p, w, n, t, u.start, u.tables[t].dedupeBelow);
      ResumedMirror(p, w, n, t, s.logs[t], s.origins[t], s.files[t], keys[t], a.cutovers[t], u.start, a.loaders[t]);
    }
  }

  lemma PhysSnapshot(p: PWal, w: Wal, n: nat, keys: seq<KeyFn>, s: Sys, a: Step)
    requires Setup(p, w, n) && |keys| == n && PhysInv(p, w, n, keys, s) && a.TakeSnapshot? && PhysEnabled(p, n, keys, s, a)
    ensures Enabled(w, n, s, a) && PhysInv(p, w, n, keys, Apply(w, n, s, a))
  {
    hide TrueRec, HeapAt, Disciplined, TableInv, TablePhys, OpenInv, RoundsInv, FlushInv, Represents, MirrorOk, OriginOk, RowsOk, Covered, Expected, PendingInv, BufferInv;
    var o := Origin(a.cutover, a.snap);
    CleanCut(p, w, n, a.t, o);
    SnapshotKeepsInv(w, n, s, a);
    var s' := Apply(w, n, s, a);
    assert LogInv(w, a.t, s.logs[a.t], s.origins[a.t], s.floor) && LogInv(w, a.t, s'.logs[a.t], s'.origins[a.t], s'.floor);
    assert FilesOk(p, w, a.t, s.logs[a.t], s.files[a.t], keys[a.t]);
    assert s'.files[a.t] == s'.logs[a.t].rows;
    FilesBegin(p, w, n, a.t, s'.logs[a.t], o, keys[a.t]);
    forall t | 0 <= t < n ensures FilesOk(p, w, t, s'.logs[t], s'.files[t], keys[t]) {
      assert t != a.t ==> s'.logs[t] == s.logs[t] && s'.files[t] == s.files[t];
    }
  }

  // ---- Reading --------------------------------------------------------------------------

  /** The engine's own decode of a record still to be delivered is the correct one. */
  lemma DecodeIsTrue(p: PWal, w: Wal, n: nat, start: nat, pos: nat, open: OpenMap, tb: Table, log: DeltaLog, pre: Option<Image>)
    requires Setup(p, w, n) && pos < |p| && p[pos].PChanges? && Matters(w, p[pos].xid, tb.dedupeBelow)
    requires TablePhys(p, w, p[pos].table, start, pos, open, tb, log)
    requires p[pos].body.One? && HasTarget(p[pos].body.change) ==>
               IsPreimage(open, tb.mirror, Key(p[pos].table, Target(p[pos].body.change)), pre)
    ensures w[pos].Changes? && DecodeBody(p[pos].body, pre) == w[pos].ops
  {
    var r := p[pos];
    assert w[pos] == TrueRec(p, pos);
    assert DisciplinedAt(p, w, pos);
    if r.body.One? {
      PreimageIsTarget(p, w, n, r.table, start, pos, open, tb.mirror, tb.dedupeBelow, Target(r.body.change), pre);
    }
  }

  lemma MirrorAdvances(p: PWal, w: Wal, n: nat, t: nat, pos: nat, d: Lsn, m: Mirror)
    requires Setup(p, w, n) && pos < |p| && !w[pos].Commit? && MirrorOk(p, w, MirrorIndex(w, pos, d), t, m)
    ensures MirrorOk(p, w, MirrorIndex(w, pos + 1, d), t, m)
  {
    if IndexOf(w, d) <= pos {
      MirrorKept(p, w, n, pos, t, m);
    }
  }

  lemma PhysChangesTable(p: PWal, w: Wal, n: nat, t: nat, start: nat, pos: nat, open: OpenMap, tb: Table, log: DeltaLog,
                         pre: Option<Image>)
    requires Setup(p, w, n) && start <= pos < |p| && p[pos].PChanges? && TablePhys(p, w, t, start, pos, open, tb, log)
    requires p[pos].table == t && p[pos].body.One? && HasTarget(p[pos].body.change) ==>
               IsPreimage(open, tb.mirror, Key(t, Target(p[pos].body.change)), pre)
    ensures var r := p[pos];
            TablePhys(p, w, t, start, pos + 1, AddOps(open, r.xid, r.lsn, r.table, DecodeBody(r.body, pre)), tb, log)
  {
    var r := p[pos];
    assert w[pos] == TrueRec(p, pos);
    if r.table == t && Matters(w, r.xid, tb.dedupeBelow) {
      DecodeIsTrue(p, w, n, start, pos, open, tb, log, pre);
    }
    OverlayChanges(p, w, n, t, start, pos, open, tb.dedupeBelow, pre);
    MirrorAdvances(p, w, n, t, pos, tb.dedupeBelow, tb.mirror);
  }

  /** The engine's decode of the record it is about to read, and the pre-image it found for it. */
  lemma PhysReadDecodes(p: PWal, w: Wal, n: nat, keys: seq<KeyFn>, s: Sys, a: Step) returns (pre: Option<Image>)
    requires Setup(p, w, n) && |keys| == n && PhysInv(p, w, n, keys, s) && a.Read? && PhysEnabled(p, n, keys, s, a) && p[s.run.pos].PChanges?
    ensures WellFormed(w, n) && |w| == |p| && s.run.Up? && s.run.pos < |p|
    ensures Enabled(w, n, s, a) && w[s.run.pos].Changes? && a.got == DecodeBody(p[s.run.pos].body, pre)
    ensures var r := p[s.run.pos];
            && w[s.run.pos].xid == r.xid && w[s.run.pos].lsn == r.lsn && w[s.run.pos].table == r.table < n
            && (r.body.One? && HasTarget(r.body.change) ==>
                  IsPreimage(s.run.open, s.run.tables[r.table].mirror, Key(r.table, Target(r.body.change)), pre))
  {
    hide TableInv, LogInv, FilesOk, OverlayOk, MirrorOk, DecodeBody, IsPreimage;
    var u, r := s.run, p[s.run.pos];
    var tb := u.tables[r.table];
    assert w[u.pos] == TrueRec(p, u.pos);
    pre :| (r.body.One? && HasTarget(r.body.change) ==> IsPreimage(u.open, tb.mirror, Key(r.table, Target(r.body.change)), pre))
           && a.got == DecodeBody(r.body, pre);
    if Matters(w, r.xid, tb.dedupeBelow) {
      DecodeIsTrue(p, w, n, u.start, u.pos, u.open, tb, s.logs[r.table], pre);
    }
  }

  lemma ChangesApplied(w: Wal, n: nat, s: Sys, a: Step)
    requires Typed(s, n) && a.Read? && Enabled(w, n, s, a) && w[s.run.pos].Changes?
    ensures var r := w[s.run.pos];
            Apply(w, n, s, a) == s.(run := s.run.(pos := s.run.pos + 1, open := AddOps(s.run.open, r.xid, r.lsn, r.table, a.got)))
  {
  }

  lemma PhysReadChanges(p: PWal, w: Wal, n: nat, keys: seq<KeyFn>, s: Sys, a: Step)
    requires Setup(p, w, n) && |keys| == n && PhysInv(p, w, n, keys, s) && a.Read? && PhysEnabled(p, n, keys, s, a) && p[s.run.pos].PChanges?
    ensures Enabled(w, n, s, a) && PhysInv(p, w, n, keys, Apply(w, n, s, a))
  {
    hide Setup, WellFormed, TableInv, LogInv, FilesOk, TablePhys, DecodeBody, IsPreimage, Apply, PhysEnabled, Enabled, AddOps, OpenInv, RoundsInv, FlushInv;
    var pre := PhysReadDecodes(p, w, n, keys, s, a);
    assert Inv(w, n, Apply(w, n, s, a)) by { ReadChangesKeepsInv(w, n, s, a); }
    ChangesApplied(w, n, s, a);
    var u, r := s.run, p[s.run.pos];
    forall t | 0 <= t < n
      ensures TablePhys(p, w, t, u.start, u.pos + 1, AddOps(u.open, r.xid, r.lsn, r.table, a.got), u.tables[t], s.logs[t])
    {
      PhysChangesTable(p, w, n, t, u.start, u.pos, u.open, u.tables[t], s.logs[t], pre);
    }
  }

  lemma PhysCommitTable(p: PWal, w: Wal, n: nat, t: nat, start: nat, pos: nat, open: OpenMap, tb: Table, log: DeltaLog)
    requires Setup(p, w, n) && start <= pos < |p| && w[pos].Commit? && TablePhys(p, w, t, start, pos, open, tb, log)
    requires TableInv(w, t, start, pos, open, tb, log)
    ensures var r := w[pos];
            var tb' := if r.lsn <= tb.dedupeBelow then tb
                       else FoldOps(tb, r.lsn, OfTable(StableSort(Collect(open, Family(r))), t));
            TablePhys(p, w, t, start, pos + 1, Forget(open, Family(r)), tb', log)
  {
    var r, d := w[pos], tb.dedupeBelow;
    assert w[pos] == TrueRec(p, pos);
    OverlayForgets(p, w, n, t, start, pos, open, d);
    if r.lsn > d {
      CommitReleasesTruth(w, n, t, start, pos, open, d);
      var ops := Truth(w, 0, pos, XidSet(Family(r)), t);
      FoldOpsMirror(tb, r.lsn, ops);
      TruthOk(w, n, 0, pos, XidSet(Family(r)), t);
      FoldAppends(tb, r.lsn, ops);
      MirrorCommitted(p, w, n, pos, t, tb.mirror, false);
    }
  }

  lemma PhysCommitAt(p: PWal, w: Wal, n: nat, t: nat, start: nat, pos: nat, open: OpenMap, tables: seq<Table>, log: DeltaLog)
    requires Setup(p, w, n) && start <= pos < |p| && w[pos].Commit? && t < n == |tables|
    requires TablePhys(p, w, t, start, pos, open, tables[t], log) && TableInv(w, t, start, pos, open, tables[t], log)
    requires TablesInRange(StableSort(Collect(open, Family(w[pos]))), n)
    ensures var r := w[pos];
            TablePhys(p, w, t, start, pos + 1, Forget(open, Family(r)),
                      Release(tables, r.lsn, StableSort(Collect(open, Family(r))))[t], log)
  {
    hide StableSort, Collect, FoldOps, TableInv, TablePhys, OfTable, Forget, Release;
    PhysCommitTable(p, w, n, t, start, pos, open, tables[t], log);
    ReleaseOneTable(tables, w[pos].lsn, StableSort(Collect(open, Family(w[pos]))), t);
  }

  lemma FinishEnabled(p: PWal, w: Wal, n: nat, keys: seq<KeyFn>, s: Sys, a: Step)
    requires Setup(p, w, n) && |keys| == n && Typed(s, n) && a.Read? && PhysEnabled(p, n, keys, s, a) && !p[s.run.pos].PChanges?
    ensures WellFormed(w, n) && |w| == |p| && s.run.Up? && s.run.pos < |p|
    ensures Enabled(w, n, s, a) && (w[s.run.pos].Commit? <==> p[s.run.pos].PCommit?) && (w[s.run.pos].Abort? <==> p[s.run.pos].PAbort?)
  {
    assert w[s.run.pos] == TrueRec(p, s.run.pos);
  }

  lemma PhysReadCommit(p: PWal, w: Wal, n: nat, keys: seq<KeyFn>, s: Sys, a: Step)
    requires Setup(p, w, n) && |keys| == n && PhysInv(p, w, n, keys, s) && a.Read? && PhysEnabled(p, n, keys, s, a) && p[s.run.pos].PCommit?
    ensures Enabled(w, n, s, a) && PhysInv(p, w, n, keys, Apply(w, n, s, a))
  {
    hide Setup, WellFormed, TableInv, LogInv, FilesOk, TablePhys, Apply, PhysEnabled, Enabled, OpenInv, RoundsInv, FlushInv, StableSort, Collect, Forget, Release;
    FinishEnabled(p, w, n, keys, s, a);
    assert Inv(w, n, Apply(w, n, s, a)) by { ReadCommitKeepsInv(w, n, s, a); }
    CommitApplied(w, n, s, a);
    var u, u' := s.run, Apply(w, n, s, a).run;
    forall t | 0 <= t < n ensures TablePhys(p, w, t, u.start, u.pos + 1, u'.open, u'.tables[t], s.logs[t]) {
      PhysCommitAt(p, w, n, t, u.start, u.pos, u.open, u.tables, s.logs[t]);
    }
  }

  lemma PhysAbortTable(p: PWal, w: Wal, n: nat, t: nat, start: nat, pos: nat, open: OpenMap, tb: Table, log: DeltaLog)
    requires Setup(p, w, n) && start <= pos < |p| && w[pos].Abort? && TablePhys(p, w, t, start, pos, open, tb, log)
    ensures TablePhys(p, w, t, start, pos + 1, Forget(open, Family(w[pos])), tb, log)
  {
    assert w[pos] == TrueRec(p, pos);
    OverlayForgets(p, w, n, t, start, pos, open, tb.dedupeBelow);
    MirrorAdvances(p, w, n, t, pos, tb.dedupeBelow, tb.mirror);
  }

  lemma PhysReadAbort(p: PWal, w: Wal, n: nat, keys: seq<KeyFn>, s: Sys, a: Step)
    requires Setup(p, w, n) && |keys| == n && PhysInv(p, w, n, keys, s) && a.Read? && PhysEnabled(p, n, keys, s, a) && p[s.run.pos].PAbort?
    ensures Enabled(w, n, s, a) && PhysInv(p, w, n, keys, Apply(w, n, s, a))
  {
    hide Setup, WellFormed, TableInv, LogInv, FilesOk, TablePhys, Apply, PhysEnabled, Enabled, OpenInv, RoundsInv, FlushInv, Forget;
    FinishEnabled(p, w, n, keys, s, a);
    assert Inv(w, n, Apply(w, n, s, a)) by { ReadAbortKeepsInv(w, n, s, a); }
    AbortApplied(w, n, s, a);
    var u := s.run;
    forall t | 0 <= t < n ensures TablePhys(p, w, t, u.start, u.pos + 1, Forget(u.open, Family(w[u.pos])), u.tables[t], s.logs[t]) {
      PhysAbortTable(p, w, n, t, u.start, u.pos, u.open, u.tables[t], s.logs[t]);
    }
  }

  /** What is pending is exactly what the log owes between its watermark and the one about to be stamped. */
  lemma PendingIsExpected(w: Wal, n: nat, t: nat, pos: nat, q: Pending, wm: Lsn)
    requires WellFormed(w, n) && pos <= |w| && PendingInv(w, t, pos, q, wm) && q.rows != []
    ensures Erased(q.rows) == Expected(w, t, |w|, wm, q.maxCommit)
  {
    ExpectedIsDue(w, t, |w|, pos, wm);
    ExpectedIsDue(w, t, |w|, pos, q.maxCommit);
    ExpectedSplit(w, t, |w|, wm, q.maxCommit, ReadUpTo(w, pos));
  }

  lemma FlushFiles(p: PWal, w: Wal, n: nat, keys: seq<KeyFn>, s: Sys, a: Step)
    requires Setup(p, w, n) && |keys| == n && PhysInv(p, w, n, keys, s) && a.FlushTable? && Enabled(w, n, s, a)
    ensures var c, s' := s.run.phase.next, Apply(w, n, s, a);
            FilesOk(p, w, c, s'.logs[c], s'.files[c], keys[c])
            && (s'.origins[c].Some? ==> OriginOk(p, w, c, s'.origins[c].value))
  {
    hide TrueRec, HeapAt, Disciplined, OverlayOk, MirrorOk, Covered, RoundsInv, OpenInv, FlushInv, BufferInv, StartCovers, Represents;
    var u, c, s' := s.run, s.run.phase.next, Apply(w, n, s, a);
    var tb := u.tables[c];
    assert TablePhys(p, w, c, u.start, u.pos, u.open, tb, s.logs[c]);
    assert LogInv(w, c, s.logs[c], s.origins[c], s.floor);
    assert FilesOk(p, w, c, s.logs[c], s.files[c], keys[c]);
    assert TableInv(w, c, u.start, u.pos, u.open, tb, s.logs[c]);
    if tb.pending.rows == [] {
      assert s'.files[c] == s.files[c];
    } else if s.logs[c].commitLsn.Some? {
      PendingIsExpected(w, n, c, u.pos, tb.pending, s.logs[c].commitLsn.value);
      FilesAppend(p, w, n, c, s.logs[c], s.files[c], keys[c], tb.pending.rows, tb.pending.maxCommit, u.phase.restart);
    } else {
      FlushTableKeepsInv(w, n, s, a);
      assert LogInv(w, c, s'.logs[c], s'.origins[c], s'.floor);
      assert s'.files[c] == s'.logs[c].rows;
      FilesBegin(p, w, n, c, s'.logs[c], s'.origins[c].value, keys[c]);
    }
  }

  lemma PhysFlushTable(p: PWal, w: Wal, n: nat, keys: seq<KeyFn>, s: Sys, a: Step)
    requires Setup(p, w, n) && |keys| == n && PhysInv(p, w, n, keys, s) && a.FlushTable? && PhysEnabled(p, n, keys, s, a)
    ensures Enabled(w, n, s, a) && PhysInv(p, w, n, keys, Apply(w, n, s, a))
  {
    hide TrueRec, HeapAt, Disciplined, TableInv, OverlayOk, MirrorOk, FilesOk, OpenInv, RoundsInv, FlushInv, Covered;
    FlushTableKeepsInv(w, n, s, a);
    FlushFiles(p, w, n, keys, s, a);
    var s' := Apply(w, n, s, a);
    var u, u' := s.run, s'.run;
    forall t | 0 <= t < n
      ensures TablePhys(p, w, t, u.start, u.pos, u.open, u'.tables[t], s'.logs[t])
      ensures s'.origins[t].Some? ==> OriginOk(p, w, t, s'.origins[t].value)
      ensures FilesOk(p, w, t, s'.logs[t], s'.files[t], keys[t])
    {
      assert TablePhys(p, w, t, u.start, u.pos, u.open, u.tables[t], s.logs[t]);
      assert LogInv(w, t, s.logs[t], s.origins[t], s.floor);
      if t != u.phase.next {
        assert s'.logs[t] == s.logs[t] && s'.files[t] == s.files[t] && s'.origins[t] == s.origins[t];
      }
    }
  }

  lemma PhysCompact(p: PWal, w: Wal, n: nat, keys: seq<KeyFn>, s: Sys, a: Step)
    requires Setup(p, w, n) && |keys| == n && PhysInv(p, w, n, keys, s) && a.Compact? && PhysEnabled(p, n, keys, s, a) && Careful(p, n, s, a)
    ensures Enabled(w, n, s, a) && PhysInv(p, w, n, keys, Apply(w, n, s, a))
  {
    hide TrueRec, HeapAt, Disciplined, TableInv, TablePhys, OpenInv, RoundsInv, FlushInv, Represents, MirrorOk;
    StepKeepsInv(w, n, s, a);
    var log := s.logs[a.t];
    assert LogInv(w, a.t, log, s.origins[a.t], s.floor);
    assert FilesOk(p, w, a.t, log, s.files[a.t], keys[a.t]);
    if log.commitLsn.Some? {
      FilesCompact(p, w, n, a.t, log, s.files[a.t], a.key);
    }
  }

  /** Compacting a table whose live rows always had distinct keys is careful, whatever keys updates changed. */
  lemma UniqueKeysAreCareful(p: PWal, w: Wal, n: nat, keys: seq<KeyFn>, s: Sys, t: nat)
    requires Setup(p, w, n) && |keys| == n && PhysInv(p, w, n, keys, s) && t < n
    requires s.logs[t].commitLsn.Some? && s.origins[t].Some? ==>
               UniqueHeld(FullHistory(w, t, s.origins[t].value, s.logs[t].commitLsn.value), keys[t])
    ensures Careful(p, n, s, Compact(t, keys[t]))
  {
    hide TrueRec, HeapAt, Disciplined, TableInv, TablePhys, OpenInv, RoundsInv, FlushInv, Represents, MirrorOk, RowsOk, LoadRows, KeepsLive, UniqueHeld, FullHistory;
    if s.logs[t].commitLsn.Some? {
      assert LogInv(w, t, s.logs[t], s.origins[t], s.floor);
      assert FilesOk(p, w, t, s.logs[t], s.files[t], keys[t]);
      UniqueKeepsLive(p, w, n, t, s.logs[t], s.origins[t].value, s.files[t], keys[t]);
    }
  }

  lemma PhysStep(p: PWal, w: Wal, n: nat, keys: seq<KeyFn>, s: Sys, a: Step)
    requires Setup(p, w, n) && |keys| == n && PhysInv(p, w, n, keys, s) && PhysEnabled(p, n, keys, s, a) && Careful(p, n, s, a)
    ensures Enabled(w, n, s, a) && PhysInv(p, w, n, keys, Apply(w, n, s, a))
  {
    hide TrueRec, HeapAt, Disciplined, TableInv, LogInv, FilesOk, TablePhys, OpenInv, RoundsInv, FlushInv;
    match a
    case TakeSnapshot(_, _, _) => PhysSnapshot(p, w, n, keys, s, a);
    case Start(_, _, _, _) => PhysStart(p, w, n, keys, s, a);
    case Read(_) =>
      match p[s.run.pos] {
        case PChanges(_, _, _, _) => PhysReadChanges(p, w, n, keys, s, a);
        case PCommit(_, _, _) => PhysReadCommit(p, w, n, keys, s, a);
        case PAbort(_, _, _) => PhysReadAbort(p, w, n, keys, s, a);
      }
    case BeginFlush(_) =>
      BeginFlushKeepsInv(w, n, s, a);
    case FlushTable => PhysFlushTable(p, w, n, keys, s, a);
    case EndFlush => StepKeepsInv(w, n, s, a);
    case Compact(_, _) => PhysCompact(p, w, n, keys, s, a);
    case Crash => StepKeepsInv(w, n, s, a);
  }

  /** A successor is only prescribed where `Apply` is defined; `PhysTraceInv` shows that it always is. */
  ghost predicate IsPhysTrace(p: PWal, n: nat, keys: seq<KeyFn>, states: seq<Sys>, steps: seq<Step>) {
    && |keys| == n && |states| == |steps| + 1
    && states[0] == Init(n)
    && forall i :: 0 <= i < |steps| ==>
         && Typed(states[i], n) && PhysEnabled(p, n, keys, states[i], steps[i])
         && (Enabled(TrueWal(p), n, states[i], steps[i]) ==> states[i + 1] == Apply(TrueWal(p), n, states[i], steps[i]))
  }

  /** Every restart and compaction of the run was careful. */
  ghost predicate IsCareful(p: PWal, n: nat, states: seq<Sys>, steps: seq<Step>) {
    |states| == |steps| + 1 && forall i :: 0 <= i < |steps| ==> Typed(states[i], n) && Careful(p, n, states[i], steps[i])
  }

  lemma {:induction false} PhysTraceInv(p: PWal, w: Wal, n: nat, keys: seq<KeyFn>, states: seq<Sys>, steps: seq<Step>, i: nat)
    requires Setup(p, w, n) && IsPhysTrace(p, n, keys, states, steps) && IsCareful(p, n, states, steps) && i < |states|
    ensures PhysInv(p, w, n, keys, states[i])
    ensures i > 0 ==> Enabled(w, n, states[i - 1], steps[i - 1])
  {
    if i > 0 {
      PhysTraceInv(p, w, n, keys, states, steps, i - 1);
      PhysStep(p, w, n, keys, states[i - 1], steps[i - 1]);
    }
  }

  /**
   Exactly-once with content: in every careful run the engine decodes updates and deletes against whatever pre-image it
   finds, across crashes and replays, and still every log holds exactly the committed changes as they physically happened.
   */
  lemma ExactlyOnceWithContent(p: PWal, n: nat, keys: seq<KeyFn>, states: seq<Sys>, steps: seq<Step>, i: nat, t: nat)
    requires Setup(p, TrueWal(p), n) && IsPhysTrace(p, n, keys, states, steps) && IsCareful(p, n, states, steps) && i < |states| && t < n
    ensures |states[i].logs| == n && |states[i].origins| == n
    ensures ExactlyOnce(TrueWal(p), t, states[i].logs[t], states[i].origins[t])
  {
    PhysTraceInv(p, TrueWal(p), n, keys, states, steps, i);
    assert LogInv(TrueWal(p), t, states[i].logs[t], states[i].origins[t], states[i].floor);
  }

  /** In every state of every careful run: the mirror holds every committed live row, and overlays never overlap. */
  lemma MirrorAlwaysRight(p: PWal, n: nat, keys: seq<KeyFn>, states: seq<Sys>, steps: seq<Step>, i: nat, t: nat)
    requires Setup(p, TrueWal(p), n) && IsPhysTrace(p, n, keys, states, steps) && IsCareful(p, n, states, steps) && i < |states| && t < n && states[i].run.Up?
    ensures var u := states[i].run;
            && |u.tables| == n && u.pos <= |p|
            && MirrorOk(p, TrueWal(p), MirrorIndex(TrueWal(p), u.pos, u.tables[t].dedupeBelow), t, u.tables[t].mirror)
            && forall y, z, c :: y in u.open && z in u.open && Key(t, c) in u.open[y].overlay && Key(t, c) in u.open[z].overlay ==> y == z
  {
    var w := TrueWal(p);
    PhysTraceInv(p, w, n, keys, states, steps, i);
    var u := states[i].run;
    assert TablePhys(p, w, t, u.start, u.pos, u.open, u.tables[t], states[i].logs[t]);
    forall y, z, c | y in u.open && z in u.open && Key(t, c) in u.open[y].overlay && Key(t, c) in u.open[z].overlay ensures y == z {
      OverlaysDisjoint(p, w, n, t, u.start, u.pos, u.open, y, z, c);
    }
  }

  // ---- The table a reader sees ----------------------------------------------------------

  /** The view holds exactly the live rows of table `t` at record `q`: each under its key, with its ctid and content. */
  ghost predicate IsTable(p: PWal, w: Wal, q: nat, t: nat, v: map<string, EmitRow>, key: KeyFn)
    requires q <= |p|
  {
    var h := HeapAt(p, q);
    && (forall c :: LiveAt(p, w, q, Key(t, c)) ==>
          var row := Some(h[Key(t, c)].img.row); key(row) in v && v[key(row)].ctid == c && v[key(row)].row == row)
    && (forall k :: k in v ==> LiveAt(p, w, q, Key(t, v[k].ctid)) && v[k].row == Some(h[Key(t, v[k].ctid)].img.row))
  }

  /**
   In every state of every careful run, with crashes, replays and compactions anywhere: reading the stored files by latest
   (lsn, seq) per key gives exactly the Postgres table as of the watermark, if the key held.
   */
  lemma ViewIsTableAlways(p: PWal, n: nat, keys: seq<KeyFn>, states: seq<Sys>, steps: seq<Step>, i: nat, t: nat)
    requires Setup(p, TrueWal(p), n) && IsPhysTrace(p, n, keys, states, steps) && IsCareful(p, n, states, steps) && i < |states| && t < n
    requires |states[i].logs| == n && |states[i].origins| == n && |states[i].files| == n
    requires states[i].logs[t].restartLsn.Some? && PrimaryKey(TrueWal(p), t, states[i].logs[t], states[i].origins[t], keys[t])
    ensures states[i].logs[t].commitLsn.Some?
    ensures IsTable(p, TrueWal(p), IndexOf(TrueWal(p), states[i].logs[t].commitLsn.value), t,
                    View(states[i].files[t], keys[t]), keys[t])
  {
    var w, s := TrueWal(p), states[i];
    PhysTraceInv(p, w, n, keys, states, steps, i);
    assert LogInv(w, t, s.logs[t], s.origins[t], s.floor);
    assert FilesOk(p, w, t, s.logs[t], s.files[t], keys[t]);
    FilesShowTable(p, w, n, t, s.logs[t], s.origins[t].value, s.files[t], keys[t]);
    ShownTable(p, w, IndexOf(w, s.logs[t].commitLsn.value), t, s.files[t],
               FoldMirror(map[], false, FullHistory(w, t, s.origins[t].value, s.logs[t].commitLsn.value)), keys[t]);
  }

  /**
   In every state of every careful run: the log read as far as any of its rows shows exactly what its history replays to
   up to there, for all of them, if and only if the key identified what every op of the history replaced. What the whole
   history replays to is the Postgres table as of the watermark.
   */
  lemma LogShowsHistoryAlways(p: PWal, n: nat, keys: seq<KeyFn>, states: seq<Sys>, steps: seq<Step>, i: nat, t: nat)
    requires Setup(p, TrueWal(p), n) && IsPhysTrace(p, n, keys, states, steps) && IsCareful(p, n, states, steps) && i < |states| && t < n
    requires |states[i].logs| == n && |states[i].origins| == n && states[i].logs[t].restartLsn.Some?
    ensures states[i].logs[t].commitLsn.Some? && states[i].origins[t].Some?
    ensures var w, log := TrueWal(p), states[i].logs[t];
            var h := FullHistory(w, t, states[i].origins[t].value, log.commitLsn.value);
            && |log.rows| == |h|
            && ((forall j :: 0 <= j <= |h| ==> ShowsAt(log.rows, h, keys[t], j))
                <==> PrimaryKey(w, t, log, states[i].origins[t], keys[t]))
            && MirrorExact(p, w, IndexOf(w, log.commitLsn.value), t, FoldMirror(map[], false, h))
  {
    hide TrueRec, HeapAt, Disciplined, FullHistory, KeyHeld, ShowsAt, FoldMirror, TablePhys, TableInv, FilesOk, IsLogOf;
    var w, s := TrueWal(p), states[i];
    PhysTraceInv(p, w, n, keys, states, steps, i);
    assert LogInv(w, t, s.logs[t], s.origins[t], s.floor);
    var o, hi := s.origins[t].value, s.logs[t].commitLsn.value;
    LogIsHistory(w, n, t, s.logs[t], o);
    LogLength(s.logs[t].rows, FullHistory(w, t, o, hi));
    ViewIsMirror(s.logs[t].rows, FullHistory(w, t, o, hi), keys[t]);
    HistoryIsTable(p, w, n, t, o, hi);
  }

  lemma LogLength(rows: seq<EmitRow>, h: seq<PendingOp>)
    requires IsLogOf(rows, h)
    ensures |rows| == |h|
  {
  }

  lemma ShownTable(p: PWal, w: Wal, q: nat, t: nat, rows: seq<EmitRow>, m: Mirror, key: KeyFn)
    requires q <= |p| && Shows(rows, m, key) && MirrorExact(p, w, q, t, m)
    ensures IsTable(p, w, q, t, View(rows, key), key)
  {
  }

  /**
   In every state of every careful run the rows a restart would load are right for every live row; the mirror it would
   load is, if and only if the loader gives every live row its page's bytes.
   */
  lemma LoadedMirrorAlwaysRight(p: PWal, n: nat, keys: seq<KeyFn>, states: seq<Sys>, steps: seq<Step>, i: nat, t: nat, loader: Loader)
    requires Setup(p, TrueWal(p), n) && IsPhysTrace(p, n, keys, states, steps) && IsCareful(p, n, states, steps) && i < |states| && t < n
    requires |states[i].logs| == n && |states[i].files| == n && states[i].logs[t].restartLsn.Some?
    ensures states[i].logs[t].commitLsn.Some?
    ensures var w, q := TrueWal(p), IndexOf(TrueWal(p), states[i].logs[t].commitLsn.value);
            && RowsOk(p, w, q, t, LoadRows(states[i].files[t]))
            && (MirrorOk(p, w, q, t, LoadMirror(states[i].files[t], loader)) <==> Loads(p, w, q, t, loader))
  {
    hide LoadMirror, LoadRows, HeapAt, TrueRec;
    var w, s := TrueWal(p), states[i];
    PhysTraceInv(p, w, n, keys, states, steps, i);
    assert LogInv(w, t, s.logs[t], s.origins[t], s.floor);
    assert FilesOk(p, w, t, s.logs[t], s.files[t], keys[t]);
    LoadedRight(p, w, IndexOf(w, s.logs[t].commitLsn.value), t, s.files[t], loader);
  }

  // ---- Stale entries --------------------------------------------------------------------

  /** What the files of a table gained between two states: nothing but the entries of the commits in between. */
  ghost predicate Gained(w: Wal, t: nat, s: Sys, s': Sys, rows: seq<EmitRow>) {
    && |s.logs| == |s.files| == |s'.logs| == |s'.files| && t < |s.logs|
    && s.logs[t].commitLsn.Some? && s'.logs[t].commitLsn.Some? && s.logs[t].commitLsn.value <= s'.logs[t].commitLsn.value
    && s'.files[t] == s.files[t] + rows
    && Erased(rows) == Expected(w, t, |w|, s.logs[t].commitLsn.value, s'.logs[t].commitLsn.value)
  }

  lemma GainedNothing(w: Wal, n: nat, t: nat, s: Sys)
    requires Typed(s, n) && t < n && s.logs[t].commitLsn.Some?
    ensures Gained(w, t, s, s, [])
  {
    ExpectedEmpty(w, t, |w|, s.logs[t].commitLsn.value, s.logs[t].commitLsn.value);
  }

  lemma GainedMore(w: Wal, n: nat, t: nat, a: Sys, b: Sys, c: Sys, x: seq<EmitRow>, y: seq<EmitRow>)
    requires WellFormed(w, n) && Gained(w, t, a, b, x) && Gained(w, t, b, c, y)
    ensures Gained(w, t, a, c, x + y)
  {
    hide Expected;
    ExpectedSplit(w, t, |w|, a.logs[t].commitLsn.value, b.logs[t].commitLsn.value, c.logs[t].commitLsn.value);
    assert Erased(x + y) == Erased(x) + Erased(y);
    assert a.files[t] + (x + y) == a.files[t] + x + y;
  }

  /** One step that does not compact table `t`. */
  lemma GainedStep(p: PWal, w: Wal, n: nat, keys: seq<KeyFn>, s: Sys, a: Step, t: nat) returns (rows: seq<EmitRow>)
    requires Setup(p, w, n) && |keys| == n && PhysInv(p, w, n, keys, s) && Enabled(w, n, s, a) && t < n
    requires s.logs[t].commitLsn.Some? && !(a.Compact? && a.t == t)
    ensures Gained(w, t, s, Apply(w, n, s, a), rows)
  {
    hide TrueRec, HeapAt, Disciplined, OverlayOk, MirrorOk, Covered, RoundsInv, OpenInv, FlushInv, BufferInv, StartCovers, FilesOk, Expected, Gained;
    assert LogInv(w, t, s.logs[t], s.origins[t], s.floor);
    if a.FlushTable? && s.run.phase.next == t && s.run.tables[t].pending.rows != [] {
      var u := s.run;
      assert TableInv(w, t, u.start, u.pos, u.open, u.tables[t], s.logs[t]);
      rows := u.tables[t].pending.rows;
      FlushGains(w, n, t, s, a);
    } else {
      rows := [];
      GainedNothing(w, n, t, s);
      var s' := Apply(w, n, s, a);
      assert s'.logs[t] == s.logs[t] && s'.files[t] == s.files[t];
      GainedSame(w, n, t, s, s');
    }
  }

  lemma GainedSame(w: Wal, n: nat, t: nat, s: Sys, s': Sys)
    requires Typed(s, n) && Typed(s', n) && Gained(w, t, s, s, []) && s'.logs[t] == s.logs[t] && s'.files[t] == s.files[t]
    ensures Gained(w, t, s, s', [])
  {
  }

  lemma FlushGains(w: Wal, n: nat, t: nat, s: Sys, a: Step)
    requires WellFormed(w, n) && Typed(s, n) && a.FlushTable? && Enabled(w, n, s, a) && s.run.phase.next == t
    requires s.logs[t].commitLsn.Some? && s.run.pos <= |w| && s.run.tables[t].pending.rows != []
    requires PendingInv(w, t, s.run.pos, s.run.tables[t].pending, s.logs[t].commitLsn.value)
    ensures Gained(w, t, s, Apply(w, n, s, a), s.run.tables[t].pending.rows)
  {
    PendingIsExpected(w, n, t, s.run.pos, s.run.tables[t].pending, s.logs[t].commitLsn.value);
  }

  lemma {:induction false} GainedBetween(p: PWal, w: Wal, n: nat, keys: seq<KeyFn>, states: seq<Sys>, steps: seq<Step>, j: nat, i: nat, t: nat)
      returns (rows: seq<EmitRow>)
    requires Setup(p, w, n) && IsPhysTrace(p, n, keys, states, steps) && IsCareful(p, n, states, steps) && j <= i < |states| && t < n
    requires |states[j].logs| == n && states[j].logs[t].commitLsn.Some?
    requires forall k :: j <= k < i ==> !(steps[k].Compact? && steps[k].t == t)
    ensures Gained(w, t, states[j], states[i], rows)
    decreases i
  {
    hide Setup, PhysInv, PhysEnabled, Careful, Enabled, Apply, Gained, TrueWal;
    SetupForms(p, w, n);
    if i == j {
      rows := [];
      PhysTraceInv(p, w, n, keys, states, steps, j);
      InvTyped(p, w, n, keys, states[j]);
      GainedNothing(w, n, t, states[j]);
    } else {
      var x := GainedBetween(p, w, n, keys, states, steps, j, i - 1, t);
      PhysTraceInv(p, w, n, keys, states, steps, i - 1);
      PhysTraceInv(p, w, n, keys, states, steps, i);
      GainedMarks(w, t, states[j], states[i - 1], x);
      var y := GainedStep(p, w, n, keys, states[i - 1], steps[i - 1], t);
      rows := x + y;
      GainedMore(w, n, t, states[j], states[i - 1], states[i], x, y);
    }
  }

  lemma InvTyped(p: PWal, w: Wal, n: nat, keys: seq<KeyFn>, s: Sys)
    requires |p| == |w| && |keys| == n && PhysInv(p, w, n, keys, s)
    ensures Typed(s, n)
  {
  }

  lemma GainedMarks(w: Wal, t: nat, s: Sys, s': Sys, rows: seq<EmitRow>)
    requires Gained(w, t, s, s', rows)
    ensures |s'.logs| == |s'.files| == |s.logs| && t < |s'.logs| && s'.logs[t].commitLsn.Some?
  {
  }

  /**
   What a restart would load is exactly the table if and only if, over the commits logged since any state after which
   the table was not compacted, no loaded ctid was updated away for good, and those never settled were live then.
   */
  lemma LoadedExactAlways(p: PWal, n: nat, keys: seq<KeyFn>, states: seq<Sys>, steps: seq<Step>, j: nat, i: nat, t: nat)
    requires Setup(p, TrueWal(p), n) && IsPhysTrace(p, n, keys, states, steps) && IsCareful(p, n, states, steps) && j <= i < |states| && t < n
    requires |states[j].logs| == n && states[j].logs[t].commitLsn.Some?
    requires forall k :: j <= k < i ==> !(steps[k].Compact? && steps[k].t == t)
    ensures |states[i].logs| == n && |states[i].files| == n && states[i].logs[t].commitLsn.Some?
    ensures var w, lo, hi := TrueWal(p), states[j].logs[t].commitLsn.value, states[i].logs[t].commitLsn.value;
            var h, loaded := History(w, t, |w|, lo, hi), LoadRows(states[i].files[t]);
            RowsExact(p, w, IndexOf(w, hi), t, loaded)
            <==> forall c :: c in loaded ==> !Lingers(h, c) && (Unsettled(h, c) ==> LiveAt(p, w, IndexOf(w, lo), Key(t, c)))
  {
    hide Setup, PhysEnabled, Careful, LoadRows, HeapAt, TrueRec, RowsExact, Lingers, Unsettled, LiveAt, RowsOk, History, Gained, PhysInv;
    var w := TrueWal(p);
    var rows := GainedBetween(p, w, n, keys, states, steps, j, i, t);
    GainedMarks(w, t, states[j], states[i], rows);
    PhysTraceInv(p, w, n, keys, states, steps, j);
    PhysTraceInv(p, w, n, keys, states, steps, i);
    LoadedSince(p, w, n, keys, states[j], states[i], t, rows);
  }

  lemma LoadedSince(p: PWal, w: Wal, n: nat, keys: seq<KeyFn>, s: Sys, s': Sys, t: nat, rows: seq<EmitRow>)
    requires Setup(p, w, n) && |keys| == n && t < n && PhysInv(p, w, n, keys, s) && PhysInv(p, w, n, keys, s') && Gained(w, t, s, s', rows)
    ensures var lo, hi := s.logs[t].commitLsn.value, s'.logs[t].commitLsn.value;
            var h, loaded := History(w, t, |w|, lo, hi), LoadRows(s'.files[t]);
            RowsExact(p, w, IndexOf(w, hi), t, loaded)
            <==> forall c :: c in loaded ==> !Lingers(h, c) && (Unsettled(h, c) ==> LiveAt(p, w, IndexOf(w, lo), Key(t, c)))
  {
    hide TrueRec, HeapAt, Disciplined, MirrorOk, RowsOk, RowsExact, Lingers, Unsettled, LiveAt, History, LoadRows, TablePhys, TableInv, Covered, Represents, FoldMirror, FullHistory;
    var lo, hi := s.logs[t].commitLsn.value, s'.logs[t].commitLsn.value;
    assert LogInv(w, t, s.logs[t], s.origins[t], s.floor);
    assert FilesOk(p, w, t, s.logs[t], s.files[t], keys[t]) && FilesOk(p, w, t, s'.logs[t], s'.files[t], keys[t]);
    var o := s.origins[t].value;
    HistoryIsTable(p, w, n, t, o, lo);
    LoadAppend(s.files[t], rows);
    HistoryIsExpected(w, n, t, |w|, lo, hi);
    LoadedExactWhen(p, w, n, t, LoadRows(s.files[t]), FoldMirror(map[], false, FullHistory(w, t, o, lo)), lo, hi);
  }

  /** A compaction by a key that held leaves files that load as exactly the table. */
  lemma CompactionMakesExact(p: PWal, n: nat, keys: seq<KeyFn>, states: seq<Sys>, steps: seq<Step>, i: nat, t: nat)
    requires Setup(p, TrueWal(p), n) && IsPhysTrace(p, n, keys, states, steps) && IsCareful(p, n, states, steps) && i < |steps| && t < n
    requires |states[i].logs| == n && |states[i].origins| == n && steps[i].Compact? && steps[i].t == t
    requires states[i].logs[t].restartLsn.Some? && PrimaryKey(TrueWal(p), t, states[i].logs[t], states[i].origins[t], keys[t])
    ensures |states[i + 1].files| == n && |states[i + 1].logs| == n && states[i + 1].logs[t].commitLsn.Some?
    ensures var w := TrueWal(p);
            RowsExact(p, w, IndexOf(w, states[i + 1].logs[t].commitLsn.value), t, LoadRows(states[i + 1].files[t]))
  {
    hide LoadRows, HeapAt, TrueRec, RowsExact, FullHistory, KeyHeld, Compacted, TablePhys, TableInv, Represents, RowsOk, Disciplined, Careful;
    var w, s := TrueWal(p), states[i];
    PhysTraceInv(p, w, n, keys, states, steps, i);
    PhysTraceInv(p, w, n, keys, states, steps, i + 1);
    assert LogInv(w, t, s.logs[t], s.origins[t], s.floor);
    assert FilesOk(p, w, t, s.logs[t], s.files[t], keys[t]);
    HeldKeyIsExact(p, w, n, t, s.logs[t], s.origins[t].value, s.files[t], keys[t]);
  }

  /**
   Once what is loaded is exactly the table, as a compaction by a held key leaves it, it stays so until a ctid is updated
   away and neither overwritten nor tombstoned later; and it is exact again as soon as there is no such ctid.
   */
  lemma ExactUntilUpdatedAway(p: PWal, n: nat, keys: seq<KeyFn>, states: seq<Sys>, steps: seq<Step>, j: nat, i: nat, t: nat)
    requires Setup(p, TrueWal(p), n) && IsPhysTrace(p, n, keys, states, steps) && IsCareful(p, n, states, steps) && j <= i < |states| && t < n
    requires |states[j].logs| == n && |states[j].files| == n && states[j].logs[t].commitLsn.Some?
    requires RowsExact(p, TrueWal(p), IndexOf(TrueWal(p), states[j].logs[t].commitLsn.value), t, LoadRows(states[j].files[t]))
    requires forall k :: j <= k < i ==> !(steps[k].Compact? && steps[k].t == t)
    ensures |states[i].logs| == n && |states[i].files| == n && states[i].logs[t].commitLsn.Some?
    ensures var w, lo, hi := TrueWal(p), states[j].logs[t].commitLsn.value, states[i].logs[t].commitLsn.value;
            var h, loaded := History(w, t, |w|, lo, hi), LoadRows(states[i].files[t]);
            RowsExact(p, w, IndexOf(w, hi), t, loaded) <==> forall c :: c in loaded ==> !Lingers(h, c)
  {
    hide Setup, PhysEnabled, Careful, LoadRows, HeapAt, TrueRec, Lingers, Unsettled, LiveAt, RowsOk, History, Gained, FoldEntries, Expected, PhysInv;
    var w := TrueWal(p);
    LoadedExactAlways(p, n, keys, states, steps, j, i, t);
    var rows := GainedBetween(p, w, n, keys, states, steps, j, i, t);
    PhysTraceInv(p, w, n, keys, states, steps, i);
    var lo, hi := states[j].logs[t].commitLsn.value, states[i].logs[t].commitLsn.value;
    var h, loaded := History(w, t, |w|, lo, hi), LoadRows(states[i].files[t]);
    LoadedFold(p, w, n, keys, states[j], states[i], t, rows);
    forall c | c in loaded && Unsettled(h, c) ensures LiveAt(p, w, IndexOf(w, lo), Key(t, c)) {
      UnsettledLoaded(LoadRows(states[j].files[t]), h, c);
    }
  }

  lemma LoadedFold(p: PWal, w: Wal, n: nat, keys: seq<KeyFn>, s: Sys, s': Sys, t: nat, rows: seq<EmitRow>)
    requires Setup(p, w, n) && |keys| == n && t < n && PhysInv(p, w, n, keys, s') && Gained(w, t, s, s', rows)
    ensures LoadRows(s'.files[t])
            == FoldEntries(LoadRows(s.files[t]), HistoryEntries(History(w, t, |w|, s.logs[t].commitLsn.value, s'.logs[t].commitLsn.value)))
  {
    hide TrueRec, HeapAt, Disciplined, RowsOk, History, LoadRows, TablePhys, TableInv, Represents, FoldEntries;
    assert FilesOk(p, w, t, s'.logs[t], s'.files[t], keys[t]);
    LoadAppend(s.files[t], rows);
    HistoryIsExpected(w, n, t, |w|, s.logs[t].commitLsn.value, s'.logs[t].commitLsn.value);
  }

  /** Where the log of a table begins, or will begin with its first flush. */
  function Beginning(origin: Option<Origin>, d: Lsn): Origin {
    if origin.Some? then origin.value else Origin(d, [])
  }

  /** The log as it would be if what is pending were appended now. */
  function Accepted(w: Wal, pos: nat, tb: Table, log: DeltaLog): DeltaLog
    requires pos <= |w|
  {
    DeltaLog(log.rows + tb.pending.rows, Some(Max(Watermark(log, tb.dedupeBelow), ReadUpTo(w, pos))), Some(0))
  }

  /**
   What a running engine has accepted is never lost: the log and the pending batch together are the snapshot and
   every commit read so far above the cutover.
   */
  lemma NothingLost(p: PWal, n: nat, keys: seq<KeyFn>, states: seq<Sys>, steps: seq<Step>, i: nat, t: nat)
    requires Setup(p, TrueWal(p), n) && IsPhysTrace(p, n, keys, states, steps) && IsCareful(p, n, states, steps) && i < |states| && t < n && states[i].run.Up?
    ensures Typed(states[i], n) && states[i].run.pos <= |p|
    ensures var w, u, log := TrueWal(p), states[i].run, states[i].logs[t];
            var o := Beginning(states[i].origins[t], u.tables[t].dedupeBelow);
            OriginOk(p, w, t, o) && ExactlyOnce(w, t, Accepted(w, u.pos, u.tables[t], log), Some(o))
  {
    var w, s := TrueWal(p), states[i];
    PhysTraceInv(p, w, n, keys, states, steps, i);
    var u := s.run;
    assert TablePhys(p, w, t, u.start, u.pos, u.open, u.tables[t], s.logs[t]);
    assert LogInv(w, t, s.logs[t], s.origins[t], s.floor);
    assert TableInv(w, t, u.start, u.pos, u.open, u.tables[t], s.logs[t]);
    AcceptedSoFar(w, n, t, u.start, u.pos, u.open, u.tables[t], s.logs[t], s.origins[t], s.floor);
  }

  lemma PendingIsOwed(w: Wal, n: nat, t: nat, pos: nat, q: Pending, wm: Lsn)
    requires WellFormed(w, n) && pos <= |w| && PendingInv(w, t, pos, q, wm)
    ensures Erased(q.rows) == Expected(w, t, |w|, wm, Max(wm, ReadUpTo(w, pos)))
  {
    if ReadUpTo(w, pos) >= wm {
      ExpectedIsDue(w, t, |w|, pos, wm);
    } else {
      ExpectedEmpty(w, t, |w|, wm, wm);
      assert q.rows == [];
    }
  }

  lemma LoggedSoFar(w: Wal, t: nat, log: DeltaLog, origin: Option<Origin>, d: Lsn)
    requires ExactlyOnce(w, t, log, origin)
    ensures var o, wm := Beginning(origin, d), Watermark(log, d);
            o.cutover <= wm && Erased(log.rows) == SnapEntries(o) + Expected(w, t, |w|, o.cutover, wm)
  {
    if origin.None? {
      ExpectedEmpty(w, t, |w|, d, d);
      assert SnapEntries(Origin(d, [])) == [];
    }
  }

  lemma AcceptedSoFar(w: Wal, n: nat, t: nat, start: nat, pos: nat, open: OpenMap, tb: Table, log: DeltaLog, origin: Option<Origin>, floor: Lsn)
    requires WellFormed(w, n) && start <= pos <= |w| && TableInv(w, t, start, pos, open, tb, log) && LogInv(w, t, log, origin, floor)
    ensures ExactlyOnce(w, t, Accepted(w, pos, tb, log), Some(Beginning(origin, tb.dedupeBelow)))
  {
    var q, wm, o := tb.pending, Watermark(log, tb.dedupeBelow), Beginning(origin, tb.dedupeBelow);
    assert Erased(log.rows + q.rows) == SnapEntries(o) + Expected(w, t, |w|, o.cutover, Max(wm, ReadUpTo(w, pos))) by {
      LoggedSoFar(w, t, log, origin, tb.dedupeBelow);
      PendingIsOwed(w, n, t, pos, q, wm);
      EntriesJoin(w, t, log.rows, q.rows, o, wm, Max(wm, ReadUpTo(w, pos)));
    }
    assert o.cutover <= wm by { LoggedSoFar(w, t, log, origin, tb.dedupeBelow); }
    PendingAfterLog(log.rows, q.rows, wm);
  }

  lemma EntriesJoin(w: Wal, t: nat, a: seq<EmitRow>, b: seq<EmitRow>, o: Origin, wm: Lsn, hi: Lsn)
    requires Increasing(w) && o.cutover <= wm <= hi && Erased(a) == SnapEntries(o) + Expected(w, t, |w|, o.cutover, wm)
    requires Erased(b) == Expected(w, t, |w|, wm, hi)
    ensures Erased(a + b) == SnapEntries(o) + Expected(w, t, |w|, o.cutover, hi)
  {
    ExpectedSplit(w, t, |w|, o.cutover, wm, hi);
    var s, x, y := SnapEntries(o), Expected(w, t, |w|, o.cutover, wm), Expected(w, t, |w|, wm, hi);
    assert Erased(a + b) == Erased(a) + Erased(b);
    assert s + x + y == s + (x + y);
  }

  lemma PendingAfterLog(a: seq<EmitRow>, b: seq<EmitRow>, wm: Lsn)
    requires StrictlyOrdered(a) && StrictlyOrdered(b)
    requires forall j :: 0 <= j < |a| ==> a[j].lsn <= wm
    requires forall j :: 0 <= j < |b| ==> wm < b[j].lsn
    ensures StrictlyOrdered(a + b)
  {
    OrderedAppend(a, b, wm);
  }

  /** A log that reads like everything accepted shows exactly the table as of the last record read. */
  lemma AcceptedShowsTable(p: PWal, w: Wal, n: nat, t: nat, all: DeltaLog, o: Origin, rows: seq<EmitRow>, key: KeyFn)
    requires Setup(p, w, n) && all.restartLsn.Some? && ExactlyOnce(w, t, all, Some(o)) && OriginOk(p, w, t, o)
    requires KeyHeld(FullHistory(w, t, o, all.commitLsn.value), key) && View(rows, key) == View(all.rows, key)
    ensures IsTable(p, w, IndexOf(w, all.commitLsn.value), t, View(rows, key), key)
  {
    var hi := all.commitLsn.value;
    LogIsHistory(w, n, t, all, o);
    ViewShowsMirror(all.rows, FullHistory(w, t, o, hi), key);
    HistoryIsTable(p, w, n, t, o, hi);
    ShownTable(p, w, IndexOf(w, hi), t, all.rows, FoldMirror(map[], false, FullHistory(w, t, o, hi)), key);
  }

  /**
   The merged freshness read, in every state of every run: the stored files plus any tail that reaches back into what
   is durable (`a <= |log.rows|`) show exactly the Postgres table as of the last record read.
   */
  lemma FreshReadIsTable(p: PWal, n: nat, keys: seq<KeyFn>, states: seq<Sys>, steps: seq<Step>, i: nat, t: nat, a: nat)
    requires Setup(p, TrueWal(p), n) && IsPhysTrace(p, n, keys, states, steps) && IsCareful(p, n, states, steps) && i < |states| && t < n && states[i].run.Up?
    requires Typed(states[i], n) && states[i].run.pos <= |p| && a <= |states[i].logs[t].rows|
    requires var all := Accepted(TrueWal(p), states[i].run.pos, states[i].run.tables[t], states[i].logs[t]);
             var o := Beginning(states[i].origins[t], states[i].run.tables[t].dedupeBelow);
             KeyHeld(FullHistory(TrueWal(p), t, o, all.commitLsn.value), keys[t])
    ensures var all := Accepted(TrueWal(p), states[i].run.pos, states[i].run.tables[t], states[i].logs[t]);
            IsTable(p, TrueWal(p), IndexOf(TrueWal(p), all.commitLsn.value), t,
                    View(states[i].files[t] + all.rows[a..], keys[t]), keys[t])
  {
    var w, s := TrueWal(p), states[i];
    var all := Accepted(w, s.run.pos, s.run.tables[t], s.logs[t]);
    var o := Beginning(s.origins[t], s.run.tables[t].dedupeBelow);
    NothingLost(p, n, keys, states, steps, i, t);
    assert Represents(s.files[t], all.rows[..|s.logs[t].rows|], keys[t]) by {
      PhysTraceInv(p, w, n, keys, states, steps, i);
      assert FilesOk(p, w, t, s.logs[t], s.files[t], keys[t]);
      assert all.rows[..|s.logs[t].rows|] == s.logs[t].rows;
    }
    MergedRead(s.files[t], all.rows, |s.logs[t].rows|, a, keys[t]);
    AcceptedShowsTable(p, w, n, t, all, o, s.files[t] + all.rows[a..], keys[t]);
  }
}
