/**
 What the restart LSN does not cover (src/engine.rs `restart_lsn`): it looks at the transaction buffer and the last
 commit, not at the chunk cache, so a chunk can fall behind the restart while its transaction is still open.
 */
module ToastGap {
  import opened Base
  import opened TxBuf
  import opened Sink
  import opened Engine
  import opened Stream
  import opened StreamFacts
  import opened Protocol
  import opened ProtocolProof
  import opened ToastCache

  /** A transaction that commits above `d` writes, after the chunk, the table owning it. */
  ghost predicate Needed(w: Wal, chunks: Chunks, t: nat, d: Lsn, i: nat) {
    && i in chunks && i < |w| && w[i].Changes? && w[i].table == t
    && exists k, m :: i < k < m < |w| && Writes(w[k], t, w[i].xid) && Commits(w[m], w[i].xid) && w[m].lsn > d
  }

  /** Every chunk in the cache lies at or above LSN `l`. */
  ghost predicate Above(w: Wal, c: Cache, l: Lsn) {
    forall v, q :: v in c && q in c[v].parts && c[v].parts[q] < |w| ==> l <= w[c[v].parts[q]].lsn
  }

  // ---- The cache in every run -----------------------------------------------------------

  /** A run of the protocol with its chunk cache. */
  ghost predicate IsCachedTrace(w: Wal, chunks: Chunks, n: nat, states: seq<Sys>, steps: seq<Step>, caches: seq<Cache>) {
    && IsTrace(w, n, states, steps) && |caches| == |states| && caches[0] == map[]
    && forall i :: 0 <= i < |steps| ==> caches[i + 1] == AfterStep(w, chunks, states[i], steps[i], caches[i])
  }

  ghost predicate RunCache(w: Wal, chunks: Chunks, s: Sys, c: Cache) {
    s.run.Up? ==> s.run.start <= s.run.pos <= |w| && CacheIs(w, chunks, s.run.start, s.run.pos, c)
  }

  lemma EmptyCache(w: Wal, chunks: Chunks, start: nat)
    ensures CacheIs(w, chunks, start, start, map[])
  {
  }

  lemma StepCached(w: Wal, chunks: Chunks, n: nat, s: Sys, a: Step, c: Cache)
    requires WellFormed(w, n) && ChunksOk(w, chunks) && Inv(w, n, s) && Enabled(w, n, s, a) && RunCache(w, chunks, s, c)
    ensures RunCache(w, chunks, Apply(w, n, s, a), AfterStep(w, chunks, s, a, c))
  {
    hide Inv, CacheIs, AfterRecord, Release, StableSort, Collect, Forget, AddOps, WellFormed;
    match a {
      case Start(_, _, _, _) => EmptyCache(w, chunks, a.start);
      case Read(_) => RecordCached(w, n, chunks, s.run.start, s.run.pos, c);
      case _ =>
    }
  }

  /** In every state of every run the cache holds exactly the chunks this run has read of transactions still open. */
  lemma {:induction false} CacheAlways(w: Wal, chunks: Chunks, n: nat, states: seq<Sys>, steps: seq<Step>, caches: seq<Cache>, i: nat)
    requires WellFormed(w, n) && ChunksOk(w, chunks) && IsCachedTrace(w, chunks, n, states, steps, caches) && i < |states|
    ensures RunCache(w, chunks, states[i], caches[i])
  {
    hide WellFormed, ChunksOk, RunCache, Inv, Enabled, Apply, AfterStep;
    if i == 0 {
      DownCache(w, chunks, n, caches[0]);
    } else {
      CacheAlways(w, chunks, n, states, steps, caches, i - 1);
      TraceInv(w, n, states, steps, i - 1);
      StepCached(w, chunks, n, states[i - 1], steps[i - 1], caches[i - 1]);
    }
  }

  lemma DownCache(w: Wal, chunks: Chunks, n: nat, c: Cache)
    ensures RunCache(w, chunks, Init(n), c)
  {
  }

  // ---- One flush, every future ----------------------------------------------------------

  /** A stream that agrees with `w` on what has been read. */
  ghost predicate Future(w: Wal, n: nat, pos: nat, w': Wal) {
    pos <= |w| && pos <= |w'| && w'[..pos] == w[..pos] && WellFormed(w', n)
  }

  lemma SameFinished(w: Wal, w': Wal, pos: nat, x: Xid)
    requires pos <= |w| && pos <= |w'| && w'[..pos] == w[..pos]
    ensures Finished(w', pos, x) <==> Finished(w, pos, x)
  {
    forall i | 0 <= i < pos ensures w'[i] == w[i] {
      assert w'[..pos][i] == w[..pos][i];
    }
    if Finished(w, pos, x) {
      var i :| 0 <= i < pos && i < |w| && Finishes(w[i], x);
      assert Finishes(w'[i], x);
    }
    if Finished(w', pos, x) {
      var i :| 0 <= i < pos && i < |w'| && Finishes(w'[i], x);
      assert Finishes(w[i], x);
    }
  }

  lemma NotYetRead(w: Wal, n: nat, pos: nat, m: nat)
    requires WellFormed(w, n) && pos <= |w| && m < |w| && w[m].lsn > ReadUpTo(w, pos)
    ensures pos <= m
  {
  }

  /** A transaction that commits above everything read is open. */
  lemma StaysOpen(w: Wal, n: nat, pos: nat, m: nat, x: Xid)
    requires WellFormed(w, n) && pos <= |w| && m < |w| && Commits(w[m], x) && w[m].lsn > ReadUpTo(w, pos)
    ensures !Finished(w, pos, x)
  {
    NotYetRead(w, n, pos, m);
    assert Finishes(w[m], x);
  }

  lemma SamePast(w: Wal, n: nat, pos: nat, w': Wal, i: nat)
    requires Future(w, n, pos, w') && i < pos
    ensures w'[i] == w[i] && ReadUpTo(w', pos) == ReadUpTo(w, pos)
  {
    assert w'[..pos][i] == w[..pos][i] && w'[..pos][pos - 1] == w[..pos][pos - 1];
  }

  /** A chunk read in this run that a transaction still to commit needs is in the cache. */
  lemma NeededIsHeld(w: Wal, chunks: Chunks, n: nat, start: nat, pos: nat, c: Cache, w': Wal, t: nat, i: nat)
    requires ChunksOk(w, chunks) && CacheIs(w, chunks, start, pos, c) && Future(w, n, pos, w')
    requires start <= i < pos && Needed(w', chunks, t, ReadUpTo(w, pos), i)
    ensures HeldAs(c, chunks[i], i)
  {
    hide CacheIs, WellFormed, Finished, ReadUpTo, ChunksOk;
    SamePast(w, n, pos, w', i);
    var x := w[i].xid;
    var k, m :| i < k < m < |w'| && Writes(w'[k], t, x) && Commits(w'[m], x) && w'[m].lsn > ReadUpTo(w, pos);
    StaysOpen(w', n, pos, m, x);
    SameFinished(w, w', pos, x);
    HeldIff(w, chunks, start, pos, c, i);
  }

  /** The open transaction writes the table once more and commits. */
  function Continued(w: Wal, pos: nat, x: Xid, t: nat): Wal
    requires pos <= |w|
  {
    var l := ReadUpTo(w, pos);
    w[..pos] + [Changes(l + 1, x, t, [Insert(Ctid(0, 0), Image([], None))]), Commit(l + 2, x, [])]
  }

  lemma RecordAdded(w: Wal, n: nat, r: Rec)
    requires WellFormed(w, n) && RecOk(r, n) && r.lsn > ReadUpTo(w, |w|)
    requires forall i, x :: 0 <= i < |w| && Finishes(w[i], x) ==> !Finishes(r, x) && (r.Changes? ==> x != r.xid)
    ensures WellFormed(w + [r], n)
  {
    hide Finishes;
    var w' := w + [r];
    assert forall i :: 0 <= i < |w| ==> w'[i] == w[i];
    forall i, j | 0 <= i < j < |w'| ensures w'[i].lsn < w'[j].lsn {
      assert i < |w| - 1 ==> w[i].lsn < w[|w| - 1].lsn;
    }
    forall i, j, x | 0 <= i < j < |w'| && Finishes(w'[i], x) ensures !Finishes(w'[j], x) {
      assert Finishes(w[i], x);
    }
  }

  lemma Past(w: Wal, n: nat, pos: nat)
    requires WellFormed(w, n) && pos <= |w|
    ensures WellFormed(w[..pos], n) && ReadUpTo(w[..pos], pos) == ReadUpTo(w, pos)
  {
    var p := w[..pos];
    forall i, j, x | 0 <= i < j < |p| && Finishes(p[i], x) ensures !Finishes(p[j], x) {
      assert Finishes(w[i], x);
    }
  }

  lemma ContinuedIsFuture(w: Wal, n: nat, pos: nat, x: Xid, t: nat)
    requires WellFormed(w, n) && pos <= |w| && t < n && !Finished(w, pos, x)
    ensures Future(w, n, pos, Continued(w, pos, x, t))
  {
    hide WellFormed;
    var l := ReadUpTo(w, pos);
    var write, end, p := Changes(l + 1, x, t, [Insert(Ctid(0, 0), Image([], None))]), Commit(l + 2, x, []), w[..pos];
    Past(w, n, pos);
    forall i, y | 0 <= i < |p| && Finishes(p[i], y) ensures y != x {
      assert Finishes(w[i], y);
    }
    RecordAdded(p, n, write);
    forall i, y | 0 <= i < pos + 1 && Finishes((p + [write])[i], y) ensures y != x {
      assert i < pos ==> (p + [write])[i] == p[i];
    }
    RecordAdded(p + [write], n, end);
    assert Continued(w, pos, x, t) == p + [write] + [end];
    assert Continued(w, pos, x, t)[..pos] == p;
  }

  lemma ContinuedNeeds(w: Wal, chunks: Chunks, n: nat, start: nat, pos: nat, i: nat)
    requires WellFormed(w, n) && ChunksOk(w, chunks) && pos <= |w| && Waiting(w, chunks, start, pos, i)
    ensures Needed(Continued(w, pos, w[i].xid, w[i].table), chunks, w[i].table, ReadUpTo(w, pos), i)
  {
    var w' := Continued(w, pos, w[i].xid, w[i].table);
    assert w'[i] == w[i];
    assert i < pos < pos + 1 < |w'| && Writes(w'[pos], w[i].table, w[i].xid) && Commits(w'[pos + 1], w[i].xid);
  }

  /** Whatever comes after `pos`, LSN `l` is at or below every chunk of this run that is still needed. */
  ghost predicate CoversEveryFuture(w: Wal, chunks: Chunks, n: nat, start: nat, pos: nat, l: Lsn) {
    forall w': Wal, t: nat, i: nat :: Future(w, n, pos, w') && start <= i < pos && Needed(w', chunks, t, ReadUpTo(w, pos), i) ==> l <= w'[i].lsn
  }

  lemma CoversWhenAbove(w: Wal, chunks: Chunks, n: nat, start: nat, pos: nat, c: Cache, l: Lsn)
    requires WellFormed(w, n) && ChunksOk(w, chunks) && pos <= |w| && CacheIs(w, chunks, start, pos, c) && Above(w, c, l)
    ensures CoversEveryFuture(w, chunks, n, start, pos, l)
  {
    hide CacheIs, ChunksOk, WellFormed, Needed;
    forall w': Wal, t: nat, i: nat | Future(w, n, pos, w') && start <= i < pos && Needed(w', chunks, t, ReadUpTo(w, pos), i) ensures l <= w'[i].lsn {
      NeededIsHeld(w, chunks, n, start, pos, c, w', t, i);
      assert w'[..pos][i] == w[..pos][i];
    }
  }

  lemma AboveWhenCovers(w: Wal, chunks: Chunks, n: nat, start: nat, pos: nat, c: Cache, l: Lsn)
    requires WellFormed(w, n) && ChunksOk(w, chunks) && pos <= |w| && CacheIs(w, chunks, start, pos, c)
    requires CoversEveryFuture(w, chunks, n, start, pos, l)
    ensures Above(w, c, l)
  {
    hide WellFormed, ChunksOk, CoversEveryFuture, Waiting;
    forall v, q | v in c && q in c[v].parts && c[v].parts[q] < |w| ensures l <= w[c[v].parts[q]].lsn {
      var i := c[v].parts[q];
      assert HeldAs(c, chunks[i], i);
      CoveredNow(w, chunks, n, start, pos, l, i);
    }
  }

  lemma CoveredNow(w: Wal, chunks: Chunks, n: nat, start: nat, pos: nat, l: Lsn, i: nat)
    requires WellFormed(w, n) && ChunksOk(w, chunks) && pos <= |w| && CoversEveryFuture(w, chunks, n, start, pos, l)
    requires Waiting(w, chunks, start, pos, i)
    ensures l <= w[i].lsn
  {
    hide Needed, Future, WellFormed, ChunksOk;
    ChunkRecord(w, chunks, n, i);
    ContinuedIsFuture(w, n, pos, w[i].xid, w[i].table);
    ContinuedNeeds(w, chunks, n, start, pos, i);
    var w' := Continued(w, pos, w[i].xid, w[i].table);
    assert w'[i] == w[i];
  }

  lemma ChunkRecord(w: Wal, chunks: Chunks, n: nat, i: nat)
    requires WellFormed(w, n) && ChunksOk(w, chunks) && i in chunks
    ensures i < |w| && w[i].Changes? && w[i].table < n
  {
    assert RecOk(w[i], n);
  }

  /**
   At every flush of every run: the page the stamped restart falls on is at or below every chunk still needed, whatever
   follows in the stream, if and only if no open transaction has a cached chunk below that page. The restart is the
   oldest first LSN of the transaction buffer, or the last commit when nothing is buffered.
   */
  lemma FlushCoversExactly(w: Wal, chunks: Chunks, n: nat, states: seq<Sys>, steps: seq<Step>, caches: seq<Cache>, i: nat)
    requires WellFormed(w, n) && ChunksOk(w, chunks) && IsCachedTrace(w, chunks, n, states, steps, caches)
    requires i < |steps| && steps[i].BeginFlush?
    ensures states[i].run.Up? && states[i].run.pos <= |w| && IsRestart(states[i].run.open, states[i].run.lastCommit, steps[i].restart)
    ensures CoversEveryFuture(w, chunks, n, states[i].run.start, states[i].run.pos, PageFloor(steps[i].restart))
            <==> Above(w, caches[i], PageFloor(steps[i].restart))
  {
    hide WellFormed, ChunksOk, CoversEveryFuture, Above, CacheIs;
    CacheAlways(w, chunks, n, states, steps, caches, i);
    var u, l := states[i].run, PageFloor(steps[i].restart);
    if Above(w, caches[i], l) {
      CoversWhenAbove(w, chunks, n, u.start, u.pos, caches[i], l);
    } else if CoversEveryFuture(w, chunks, n, u.start, u.pos, l) {
      AboveWhenCovers(w, chunks, n, u.start, u.pos, caches[i], l);
    }
  }

  // ---- Whole runs -----------------------------------------------------------------------

  /** Every chunk needed above watermark `d` is at or above LSN `l`. */
  ghost predicate ChunksFrom(w: Wal, chunks: Chunks, t: nat, d: Lsn, l: Lsn) {
    forall i: nat :: Needed(w, chunks, t, d, i) ==> l <= w[i].lsn
  }

  /** Cuts are clean for chunks too, and no flush stamps a restart on a page above a cached chunk. */
  ghost predicate ChunkSafe(w: Wal, chunks: Chunks, n: nat, s: Sys, a: Step, c: Cache)
    requires Typed(s, n)
  {
    match a
    case TakeSnapshot(t, cutover, _) => ChunksFrom(w, chunks, t, cutover, cutover)
    case Start(cutovers, _, _, _) =>
      |cutovers| == n && forall t :: 0 <= t < n && s.logs[t].restartLsn.None? ==> ChunksFrom(w, chunks, t, cutovers[t], cutovers[t])
    case BeginFlush(restart) => Above(w, c, PageFloor(restart))
    case _ => true
  }

  ghost predicate LogChunks(w: Wal, chunks: Chunks, t: nat, log: DeltaLog) {
    log.restartLsn.Some? && log.commitLsn.Some? ==> ChunksFrom(w, chunks, t, log.commitLsn.value, PageFloor(log.restartLsn.value))
  }

  ghost predicate StartChunks(w: Wal, chunks: Chunks, t: nat, d: Lsn, start: nat) {
    forall i: nat :: Needed(w, chunks, t, d, i) ==> start <= i
  }

  ghost predicate ToastInv(w: Wal, chunks: Chunks, n: nat, s: Sys, c: Cache)
    requires Typed(s, n)
  {
    && (forall t :: 0 <= t < n ==> LogChunks(w, chunks, t, s.logs[t]))
    && (s.run.Up? ==> forall t :: 0 <= t < n ==> StartChunks(w, chunks, t, s.run.tables[t].dedupeBelow, s.run.start))
    && (s.run.Up? && s.run.phase.Flushing? ==> Above(w, c, PageFloor(s.run.phase.restart)))
  }

  lemma FloorMono(a: Lsn, b: Lsn)
    requires a <= b
    ensures PageFloor(a) <= PageFloor(b) && PageFloor(a) <= a
  {
    assert a == PAGE * (a / PAGE) + a % PAGE && b == PAGE * (b / PAGE) + b % PAGE;
    assert a / PAGE <= b / PAGE;
  }

  lemma StartToast(w: Wal, chunks: Chunks, n: nat, s: Sys, a: Step, c: Cache)
    requires Inv(w, n, s) && a.Start? && Enabled(w, n, s, a) && ToastInv(w, chunks, n, s, c) && ChunkSafe(w, chunks, n, s, a, c)
    ensures ToastInv(w, chunks, n, Apply(w, n, s, a), map[])
  {
    hide Needed;
    var u := Apply(w, n, s, a).run;
    forall t | 0 <= t < n ensures StartChunks(w, chunks, t, u.tables[t].dedupeBelow, a.start) {
      assert LogInv(w, t, s.logs[t], s.origins[t], s.floor);
      assert LogChunks(w, chunks, t, s.logs[t]);
      FloorMono(a.resumeFrom, Candidate(s.logs[t], a.cutovers[t]));
      forall i: nat | Needed(w, chunks, t, u.tables[t].dedupeBelow, i) ensures a.start <= i {
        NeededAt(w, chunks, t, u.tables[t].dedupeBelow, i);
      }
    }
  }

  lemma NeededAt(w: Wal, chunks: Chunks, t: nat, d: Lsn, i: nat)
    requires Needed(w, chunks, t, d, i)
    ensures i < |w| && i in chunks
  {
  }

  /** What the flush of a table leaves to be needed is cached, or still to be read. */
  lemma FlushedNeeds(w: Wal, chunks: Chunks, n: nat, t: nat, u: Run, log: DeltaLog, c: Cache, i: nat)
    requires WellFormed(w, n) && ChunksOk(w, chunks) && u.Up? && t < n == |u.tables| && u.start <= u.pos <= |w|
    requires TableInv(w, t, u.start, u.pos, u.open, u.tables[t], log) && u.tables[t].pending.rows != []
    requires StartChunks(w, chunks, t, u.tables[t].dedupeBelow, u.start) && CacheIs(w, chunks, u.start, u.pos, c)
    requires Needed(w, chunks, t, u.tables[t].pending.maxCommit, i)
    ensures i < |w| && (u.pos <= i || HeldAs(c, chunks[i], i))
  {
    hide CacheIs, ChunksOk, StartCovers, BufferInv;
    var m := u.tables[t].pending.maxCommit;
    var x := w[i].xid;
    var k, e :| i < k < e < |w| && Writes(w[k], t, x) && Commits(w[e], x) && w[e].lsn > m;
    assert Needed(w, chunks, t, u.tables[t].dedupeBelow, i);
    if i < u.pos {
      if e < u.pos {
        DueNothing(w, t, u.pos, m, e, k, x);
      } else {
        assert Finishes(w[e], x);
        assert !Finished(w, u.pos, x);
        HeldIff(w, chunks, u.start, u.pos, c, i);
      }
    }
  }

  lemma FlushToast(w: Wal, chunks: Chunks, n: nat, s: Sys, a: Step, c: Cache)
    requires WellFormed(w, n) && ChunksOk(w, chunks) && Inv(w, n, s) && RunCache(w, chunks, s, c)
    requires a.FlushTable? && Enabled(w, n, s, a) && ToastInv(w, chunks, n, s, c)
    ensures ToastInv(w, chunks, n, Apply(w, n, s, a), c)
  {
    hide Needed, CacheIs, WellFormed, LogInv, TableInv, Above;
    var u, t, s' := s.run, s.run.phase.next, Apply(w, n, s, a);
    if u.tables[t].pending.rows != [] {
      FlushLogChunks(w, chunks, n, s, t, c);
    }
    forall t' | 0 <= t' < n
      ensures LogChunks(w, chunks, t', s'.logs[t']) && StartChunks(w, chunks, t', s'.run.tables[t'].dedupeBelow, u.start)
    {
      assert LogChunks(w, chunks, t', s.logs[t']) && StartChunks(w, chunks, t', u.tables[t'].dedupeBelow, u.start);
      assert t' != t ==> s'.logs[t'] == s.logs[t'] && s'.run.tables[t'] == u.tables[t'];
    }
  }

  lemma FlushLogChunks(w: Wal, chunks: Chunks, n: nat, s: Sys, t: nat, c: Cache)
    requires WellFormed(w, n) && ChunksOk(w, chunks) && Inv(w, n, s) && RunCache(w, chunks, s, c) && ToastInv(w, chunks, n, s, c)
    requires s.run.Up? && s.run.phase.Flushing? && t < n && s.run.tables[t].pending.rows != []
    ensures LogChunks(w, chunks, t, FlushedLog(s.run.tables[t], s.logs[t], s.run.phase.restart))
  {
    hide Needed, CacheIs, ChunksOk, LogInv, WellFormed, TableInv, OpenInv, RoundsInv;
    var u := s.run;
    var tb, l := u.tables[t], PageFloor(u.phase.restart);
    assert TableInv(w, t, u.start, u.pos, u.open, tb, s.logs[t]);
    forall i: nat | Needed(w, chunks, t, tb.pending.maxCommit, i) ensures i < |w| && l <= w[i].lsn {
      FlushedNeeds(w, chunks, n, t, u, s.logs[t], c, i);
      if u.pos <= i {
        RestartWasRead(w, n, s, i);
      }
    }
  }

  /** The round's restart is at or below the last record read, so below every later one. */
  lemma RestartWasRead(w: Wal, n: nat, s: Sys, i: nat)
    requires WellFormed(w, n) && Inv(w, n, s) && s.run.Up? && s.run.phase.Flushing? && s.run.pos <= i < |w|
    ensures PageFloor(s.run.phase.restart) <= w[i].lsn
  {
  }

  lemma ToastStep(w: Wal, chunks: Chunks, n: nat, s: Sys, a: Step, c: Cache)
    requires WellFormed(w, n) && ChunksOk(w, chunks) && Inv(w, n, s) && Enabled(w, n, s, a) && RunCache(w, chunks, s, c)
    requires ToastInv(w, chunks, n, s, c) && ChunkSafe(w, chunks, n, s, a, c)
    ensures ToastInv(w, chunks, n, Apply(w, n, s, a), AfterStep(w, chunks, s, a, c))
  {
    hide WellFormed, ChunksOk, Inv, RunCache, Above, ChunksFrom, StartChunks, Release, StableSort, Collect, Forget, AddOps;
    match a {
      case Start(_, _, _, _) => StartToast(w, chunks, n, s, a, c);
      case FlushTable => FlushToast(w, chunks, n, s, a, c);
      case TakeSnapshot(_, _, _) => SnapshotToast(w, chunks, n, s, a, c);
      case _ =>
    }
  }

  lemma SnapshotToast(w: Wal, chunks: Chunks, n: nat, s: Sys, a: Step, c: Cache)
    requires Inv(w, n, s) && a.TakeSnapshot? && Enabled(w, n, s, a) && ToastInv(w, chunks, n, s, c) && ChunkSafe(w, chunks, n, s, a, c)
    ensures ToastInv(w, chunks, n, Apply(w, n, s, a), c)
  {
    hide Needed;
    var s' := Apply(w, n, s, a);
    FloorMono(a.cutover, a.cutover);
    forall t | 0 <= t < n ensures LogChunks(w, chunks, t, s'.logs[t]) {
      assert t != a.t ==> s'.logs[t] == s.logs[t] && LogChunks(w, chunks, t, s.logs[t]);
    }
  }

  ghost predicate IsSafeTrace(w: Wal, chunks: Chunks, n: nat, states: seq<Sys>, steps: seq<Step>, caches: seq<Cache>) {
    && IsCachedTrace(w, chunks, n, states, steps, caches)
    && forall i :: 0 <= i < |steps| ==> Typed(states[i], n) && ChunkSafe(w, chunks, n, states[i], steps[i], caches[i])
  }

  lemma {:induction false} ToastAlways(w: Wal, chunks: Chunks, n: nat, states: seq<Sys>, steps: seq<Step>, caches: seq<Cache>, i: nat)
    requires WellFormed(w, n) && ChunksOk(w, chunks) && IsSafeTrace(w, chunks, n, states, steps, caches) && i < |states|
    ensures Inv(w, n, states[i]) && ToastInv(w, chunks, n, states[i], caches[i])
  {
    hide WellFormed, ChunksOk, Enabled, Apply, AfterStep, ChunkSafe, RunCache;
    TraceInv(w, n, states, steps, i);
    if i > 0 {
      ToastAlways(w, chunks, n, states, steps, caches, i - 1);
      CacheAlways(w, chunks, n, states, steps, caches, i - 1);
      ToastStep(w, chunks, n, states[i - 1], steps[i - 1], caches[i - 1]);
    }
  }

  /**
   In every run whose flushes meet that condition, whatever crashes and restarts it has: whenever a record is read
   whose transaction is still to be delivered to its table, all chunks that transaction logged before it for the table
   are in the cache.
   */
  lemma ChunksAlwaysFound(w: Wal, chunks: Chunks, n: nat, states: seq<Sys>, steps: seq<Step>, caches: seq<Cache>, i: nat, j: nat)
    requires WellFormed(w, n) && ChunksOk(w, chunks) && IsSafeTrace(w, chunks, n, states, steps, caches) && i < |states|
    requires Typed(states[i], n) && states[i].run.Up? && states[i].run.pos < |w|
    requires var r, u := w[states[i].run.pos], states[i].run;
             r.Changes? && r.ops != [] && r.table < n && Matters(w, r.xid, u.tables[r.table].dedupeBelow)
    requires j in chunks && j < states[i].run.pos && w[j].Changes?
    requires w[j].xid == w[states[i].run.pos].xid && w[j].table == w[states[i].run.pos].table
    ensures HeldAs(caches[i], chunks[j], j)
  {
    hide ChunkSafe, Enabled, Apply, AfterStep, LogInv, TableInv, ChunksOk, HeldAs;
    var u := states[i].run;
    var pos, t, x := u.pos, w[u.pos].table, w[u.pos].xid;
    ToastAlways(w, chunks, n, states, steps, caches, i);
    CacheAlways(w, chunks, n, states, steps, caches, i);
    var m :| 0 <= m < |w| && Commits(w[m], x) && w[m].lsn > u.tables[t].dedupeBelow;
    CommitsLater(w, n, pos, m, x);
    assert Writes(w[pos], t, x);
    assert Needed(w, chunks, t, u.tables[t].dedupeBelow, j);
    assert StartChunks(w, chunks, t, u.tables[t].dedupeBelow, u.start);
    HeldIff(w, chunks, u.start, pos, caches[i], j);
  }

  lemma CommitsLater(w: Wal, n: nat, pos: nat, m: nat, x: Xid)
    requires WellFormed(w, n) && pos < |w| && m < |w| && w[pos].Changes? && w[pos].xid == x && Commits(w[m], x)
    ensures pos < m && !Finished(w, pos, x)
  {
    assert Finishes(w[m], x);
  }

  /** A chunk record buffers no op; then another transaction writes and commits two pages later. */
  const CHUNK: Rec := Changes(100, 1, 0, [])
  const WRITE: Rec := Changes(20000, 2, 0, [Insert(Ctid(0, 1), Image([], None))])
  const COMMIT: Rec := Commit(20100, 2, [])
  const TUPLE: Rec := Changes(20200, 1, 0, [Insert(Ctid(0, 2), Image([], None))])
  const LATER: Rec := Commit(20300, 1, [])
  const WAL: Wal := [CHUNK, WRITE, COMMIT, TUPLE, LATER]
  const CHUNKS: Chunks := map[0 := Chunk(7, 0)]
  const CACHED: Cache := map[7 := Held(1, map[0 := 0])]

  const TABLE: Table := Table(0, map[], Pending([], 0, 0))
  const BUFFERED: OpenTx := OpenTx(20000, [PendingOp(20000, 0, Insert(Ctid(0, 1), Image([], None)))], map[Key(0, Ctid(0, 1)) := Image([], None)])

  function RunAt(pos: nat, open: OpenMap, table: Table, lastCommit: Lsn): Run {
    Up(0, pos, open, [table], lastCommit, Streaming, [])
  }

  lemma ChunkBuffersNothing()
    ensures ReadRec(RunAt(0, map[], TABLE, 0), CHUNK, [], 1) == RunAt(1, map[], TABLE, 0)
  {
  }

  lemma WriteBuffers()
    ensures ReadRec(RunAt(1, map[], TABLE, 0), WRITE, WRITE.ops, 1) == RunAt(2, map[2 := BUFFERED], TABLE, 0)
  {
    assert WRITE.ops[..0] == [];
    var op := WRITE.ops[0];
    assert AddOps(map[], 2, 20000, 0, []) == map[];
    assert AddOps(map[], 2, 20000, 0, WRITE.ops) == AddOp(map[], 2, 20000, 0, op);
    assert OverlayAfter(map[], 0, op) == map[Key(0, Ctid(0, 1)) := Image([], None)];
    assert [] + [PendingOp(20000, 0, op)] == BUFFERED.ops;
  }

  lemma Collected()
    ensures StableSort(Collect(map[2 := BUFFERED], [2])) == BUFFERED.ops && Forget(map[2 := BUFFERED], [2]) == map[]
  {
    assert [2][..0] == [];
    assert BUFFERED.ops[..0] == [];
  }

  lemma CommitReleases()
    ensures var u := ReadRec(RunAt(2, map[2 := BUFFERED], TABLE, 0), COMMIT, [], 1);
            u == RunAt(3, map[], u.tables[0], 20100) && !NothingPending(u.tables)
  {
    hide Collect, SortInto, StableSort, Forget;
    assert [2] + [] == [2];
    Collected();
    assert BUFFERED.ops[..0] == [];
  }

  lemma StreamIsWellFormed()
    ensures WellFormed(WAL, 1) && Matters(WAL, 1, 20100) && !Finished(WAL, 3, 1)
  {
    hide WellFormed, Finishes;
    assert Commits(WAL[4], 1);
    assert WellFormed([], 1) by { NothingIsWellFormed(); }
    forall x ensures !Finishes(CHUNK, x) && !Finishes(WRITE, x) && !Finishes(TUPLE, x) { Finishers(x); }
    forall x ensures (Finishes(COMMIT, x) <==> x == 2) && (Finishes(LATER, x) <==> x == 1) { Finishers(x); }
    RecordAdded([], 1, CHUNK);
    assert [] + [CHUNK] == [CHUNK];
    RecordAdded([CHUNK], 1, WRITE);
    assert [CHUNK] + [WRITE] == [CHUNK, WRITE];
    RecordAdded([CHUNK, WRITE], 1, COMMIT);
    assert [CHUNK, WRITE] + [COMMIT] == [CHUNK, WRITE, COMMIT];
    RecordAdded([CHUNK, WRITE, COMMIT], 1, TUPLE);
    assert [CHUNK, WRITE, COMMIT] + [TUPLE] == [CHUNK, WRITE, COMMIT, TUPLE];
    RecordAdded([CHUNK, WRITE, COMMIT, TUPLE], 1, LATER);
    assert [CHUNK, WRITE, COMMIT, TUPLE] + [LATER] == WAL;
  }

  lemma Finishers(x: Xid)
    ensures !Finishes(CHUNK, x) && !Finishes(WRITE, x) && !Finishes(TUPLE, x)
    ensures (Finishes(COMMIT, x) <==> x == 2) && (Finishes(LATER, x) <==> x == 1)
  {
  }

  lemma NothingIsWellFormed()
    ensures WellFormed([], 1)
  {
  }

  /** The chunk stays cached through the other transaction's commit, and its own transaction needs it. */
  lemma ChunkWaits()
    ensures ChunksOk(WAL, CHUNKS) && AfterRecord(WAL, CHUNKS, 0, map[]) == CACHED
    ensures AfterRecord(WAL, CHUNKS, 1, CACHED) == CACHED && AfterRecord(WAL, CHUNKS, 2, CACHED) == CACHED
    ensures Needed(WAL, CHUNKS, 0, 20100, 0)
  {
    assert Writes(WAL[3], 0, 1) && Commits(WAL[4], 1);
    assert Dropped(CACHED, Family(WAL[2])) == CACHED;
  }

  /**
   After the commit a flush stamps its LSN as the restart: the stream would then start on a page above the chunk, whose
   transaction is still to commit and to be delivered.
   */
  lemma ChunkFallsBehind()
    ensures WellFormed(WAL, 1) && Matters(WAL, 1, 20100) && !Finished(WAL, 3, 1)
    ensures ChunksOk(WAL, CHUNKS) && Needed(WAL, CHUNKS, 0, 20100, 0)
    ensures AfterRecord(WAL, CHUNKS, 2, AfterRecord(WAL, CHUNKS, 1, AfterRecord(WAL, CHUNKS, 0, map[]))) == CACHED
    ensures !Above(WAL, CACHED, PageFloor(20100))
    ensures var u1 := ReadRec(RunAt(0, map[], TABLE, 0), WAL[0], WAL[0].ops, 1);
            && u1 == RunAt(1, map[], TABLE, 0)
            && var u2 := ReadRec(RunAt(1, map[], TABLE, 0), WAL[1], WAL[1].ops, 1);
               && u2 == RunAt(2, map[2 := BUFFERED], TABLE, 0)
               && var u3 := ReadRec(RunAt(2, map[2 := BUFFERED], TABLE, 0), WAL[2], [], 1);
                  && u3.open == map[] && u3.lastCommit == 20100 && !NothingPending(u3.tables)
                  && IsRestart(u3.open, u3.lastCommit, 20100) && WAL[0].lsn < PageFloor(20100)
  {
    hide AddOps, WellFormed, Matters, Finished, AfterRecord, Needed, ChunksOk;
    StreamIsWellFormed();
    ChunkWaits();
    assert 7 in CACHED && 0 in CACHED[7].parts;
    ChunkBuffersNothing();
    WriteBuffers();
    CommitReleases();
    assert IsOldest(map[], None);
  }
}
