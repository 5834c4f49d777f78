/** The served tail beside the engine that feeds it (src/engine.rs `handle_commit`, `flush_all`; src/serve.rs). */
module FreshRun {
  import opened TxBuf
  import opened Sink
  import opened Engine
  import opened Stream
  import opened StreamFacts
  import opened Protocol
  import opened ProtocolProof
  import opened ChangeLog
  import opened Heap
  import opened HeapProof
  import opened TableView
  import opened LogMirror
  import opened PhysicalRun
  import opened Tail

  /** What a step of the engine does to the tail of table `t`: rows a commit emits are pushed, a flush marks them. */
  ghost predicate Feeds(s: Sys, a: Step, s': Sys, t: nat, e: Event)
    requires s.run.Up? && s'.run.Up? && t < |s.run.tables| == |s'.run.tables|
  {
    var rows, rows' := s.run.tables[t].pending.rows, s'.run.tables[t].pending.rows;
    if a.Read? && |rows| < |rows'| then e.Emitted? && e.rows == rows'[|rows|..]
    else if a.FlushTable? && s.run.phase.Flushing? && s.run.phase.next == t && rows != [] then e.Flush?
    else if a.Compact? && a.t == t then e.CompactFiles?
    else e.Idle?
  }

  /** The engine is up from state `i` to state `j`, having just started, and `fs`, `es` are its tail's states and events. */
  ghost predicate Served(n: nat, states: seq<Sys>, steps: seq<Step>, i: nat, j: nat, t: nat, fs: seq<Fresh>, es: seq<Event>, key: KeyFn) {
    && 0 < i <= j < |states| == |steps| + 1 && t < n && steps[i - 1].Start?
    && (forall k :: i <= k <= j ==> Typed(states[k], n) && states[k].run.Up?)
    && IsFreshRun(fs, es, key) && |es| == j - i
    && fs[0].before == states[i].logs[t].rows && fs[0].files == states[i].files[t]
    && (forall k :: i <= k < j ==> Feeds(states[k], steps[k], states[k + 1], t, es[k - i]))
  }

  /** The tail's account of the table agrees with the engine's. */
  ghost predicate Agrees(f: Fresh, s: Sys, t: nat)
    requires s.run.Up? && t < |s.run.tables| && t < |s.logs| && t < |s.files|
  {
    && f.before + f.emitted == s.logs[t].rows + s.run.tables[t].pending.rows
    && |f.before| + f.flushed == |s.logs[t].rows| && f.files == s.files[t]
  }

  // ---- One step -------------------------------------------------------------------------

  lemma {:induction false} FoldExtends(tb: Table, lsn: Lsn, ops: seq<PendingOp>)
    ensures tb.pending.rows <= FoldOps(tb, lsn, ops).pending.rows
    decreases |ops|
  {
    if ops != [] {
      FoldExtends(tb, lsn, ops[..|ops| - 1]);
    }
  }

  lemma ReadExtends(w: Wal, n: nat, s: Sys, a: Step, t: nat)
    requires Typed(s, n) && a.Read? && Enabled(w, n, s, a) && t < n
    ensures var s' := Apply(w, n, s, a);
            && s'.run.Up? && s'.logs == s.logs && s'.files == s.files && s.run.tables[t].pending.rows <= s'.run.tables[t].pending.rows
  {
    hide StableSort, Collect, Forget, Release, FoldOps, AddOps;
    var u := s.run;
    match w[u.pos] {
      case Changes(_, _, _, _) => ChangesApplied(w, n, s, a);
      case Abort(_, _, _) => AbortApplied(w, n, s, a);
      case Commit(_, _, _) =>
        CommitApplied(w, n, s, a);
        var lsn, ops := w[u.pos].lsn, StableSort(Collect(u.open, Family(w[u.pos])));
        ReleaseOneTable(u.tables, lsn, ops, t);
        FoldExtends(u.tables[t], lsn, OfTable(ops, t));
    }
  }

  lemma ReadAgrees(w: Wal, n: nat, s: Sys, a: Step, t: nat, f: Fresh, e: Event, key: KeyFn)
    requires Typed(s, n) && a.Read? && Enabled(w, n, s, a) && t < n && s.run.Up? && Agrees(f, s, t)
    requires Apply(w, n, s, a).run.Up? && Feeds(s, a, Apply(w, n, s, a), t, e) && Timely(f, e) && f.flushed <= |f.emitted|
    ensures Agrees(Next(f, e, key), Apply(w, n, s, a), t)
  {
    hide Apply, Enabled, Capped;
    ReadExtends(w, n, s, a, t);
    var rows, rows', log := s.run.tables[t].pending.rows, Apply(w, n, s, a).run.tables[t].pending.rows, s.logs[t].rows;
    if |rows| < |rows'| {
      assert rows' == rows + e.rows;
      assert f.before + (f.emitted + e.rows) == (f.before + f.emitted) + e.rows;
      assert log + rows' == (log + rows) + e.rows;
    }
  }

  lemma FlushAgrees(w: Wal, n: nat, s: Sys, a: Step, t: nat, f: Fresh, e: Event, key: KeyFn)
    requires Typed(s, n) && a.FlushTable? && Enabled(w, n, s, a) && t < n && Agrees(f, s, t)
    requires Feeds(s, a, Apply(w, n, s, a), t, e) && Timely(f, e) && f.flushed <= |f.emitted|
    ensures Agrees(Next(f, e, key), Apply(w, n, s, a), t)
  {
    hide Capped, Retained;
    var rows, log := s.run.tables[t].pending.rows, s.logs[t].rows;
    if s.run.phase.next == t && rows != [] {
      assert (f.before + f.emitted)[|log|..] == rows;
      assert f.emitted[f.flushed..] == (f.before + f.emitted)[|f.before| + f.flushed..];
      assert log + rows + [] == log + rows;
    }
  }

  lemma StepAgrees(w: Wal, n: nat, s: Sys, a: Step, t: nat, f: Fresh, e: Event, key: KeyFn)
    requires Typed(s, n) && Enabled(w, n, s, a) && t < n && s.run.Up? && Apply(w, n, s, a).run.Up? && Agrees(f, s, t)
    requires a.Compact? ==> a.key == key || a.t != t
    requires Feeds(s, a, Apply(w, n, s, a), t, e) && Timely(f, e) && f.flushed <= |f.emitted|
    ensures Agrees(Next(f, e, key), Apply(w, n, s, a), t)
  {
    hide Capped, Retained;
    match a {
      case Read(_) => ReadAgrees(w, n, s, a, t, f, e, key);
      case FlushTable => FlushAgrees(w, n, s, a, t, f, e, key);
      case _ =>
    }
  }

  // ---- Whole runs -----------------------------------------------------------------------

  lemma StartsEmpty(p: PWal, n: nat, keys: seq<KeyFn>, states: seq<Sys>, steps: seq<Step>, i: nat, t: nat)
    requires Setup(p, TrueWal(p), n) && IsPhysTrace(p, n, keys, states, steps) && IsCareful(p, n, states, steps)
    requires 0 < i < |states| && steps[i - 1].Start? && t < n && Typed(states[i], n)
    ensures states[i].run.Up? && states[i].run.tables[t].pending.rows == []
  {
    hide PhysInv, Careful, PhysEnabled;
    PhysTraceInv(p, TrueWal(p), n, keys, states, steps, i);
  }

  lemma {:induction false} AgreesAlways(p: PWal, n: nat, keys: seq<KeyFn>, states: seq<Sys>, steps: seq<Step>, i: nat, j: nat, t: nat,
                                        fs: seq<Fresh>, es: seq<Event>, k: nat)
    requires Setup(p, TrueWal(p), n) && IsPhysTrace(p, n, keys, states, steps) && IsCareful(p, n, states, steps)
    requires t < n && Served(n, states, steps, i, j, t, fs, es, keys[t]) && i <= k <= j
    ensures Agrees(fs[k - i], states[k], t)
    decreases k
  {
    hide Setup, PhysInv, Careful, Enabled, Apply, Next, Feeds, Agrees, Represents;
    if k == i {
      StartsEmpty(p, n, keys, states, steps, i, t);
      AgreesAtStart(fs[0], states[i], t);
    } else {
      AgreesAlways(p, n, keys, states, steps, i, j, t, fs, es, k - 1);
      PhysTraceInv(p, TrueWal(p), n, keys, states, steps, k);
      StepAgrees(TrueWal(p), n, states[k - 1], steps[k - 1], t, fs[k - 1 - i], es[k - 1 - i], keys[t]);
    }
  }

  lemma AgreesAtStart(f: Fresh, s: Sys, t: nat)
    requires s.run.Up? && t < |s.run.tables| && t < |s.logs| && t < |s.files| && s.run.tables[t].pending.rows == []
    requires f.before == s.logs[t].rows && f.files == s.files[t] && f.emitted == [] && f.flushed == 0
    ensures Agrees(f, s, t)
  {
  }

  /** Everything accepted so far, in order. */
  lemma AcceptedOrdered(p: PWal, n: nat, keys: seq<KeyFn>, states: seq<Sys>, steps: seq<Step>, i: nat, t: nat, f: Fresh)
    requires Setup(p, TrueWal(p), n) && IsPhysTrace(p, n, keys, states, steps) && IsCareful(p, n, states, steps)
    requires i < |states| && t < n && Typed(states[i], n) && states[i].run.Up? && Agrees(f, states[i], t)
    ensures StrictlyOrdered(f.before + f.emitted)
  {
    hide Setup, StrictlyOrdered;
    NothingLost(p, n, keys, states, steps, i, t);
  }

  /**
   The merged read with the tail the engine really serves, in every state since its start: the files plus the served
   batches show exactly the Postgres table as of the last record read.
   */
  lemma ServedReadIsTable(p: PWal, n: nat, keys: seq<KeyFn>, states: seq<Sys>, steps: seq<Step>, i: nat, j: nat, t: nat,
                          fs: seq<Fresh>, es: seq<Event>)
    requires Setup(p, TrueWal(p), n) && IsPhysTrace(p, n, keys, states, steps) && IsCareful(p, n, states, steps)
    requires t < n && Served(n, states, steps, i, j, t, fs, es, keys[t]) && states[j].run.pos <= |p|
    requires var all := Accepted(TrueWal(p), states[j].run.pos, states[j].run.tables[t], states[j].logs[t]);
             var o := Beginning(states[j].origins[t], states[j].run.tables[t].dedupeBelow);
             KeyHeld(FullHistory(TrueWal(p), t, o, all.commitLsn.value), keys[t])
    ensures var all := Accepted(TrueWal(p), states[j].run.pos, states[j].run.tables[t], states[j].logs[t]);
            IsTable(p, TrueWal(p), IndexOf(TrueWal(p), all.commitLsn.value), t,
                    View(states[j].files[t] + Rows(fs[j - i].batches), keys[t]), keys[t])
  {
    hide Setup, PhysEnabled, Careful, Enabled, Apply, View, IsTable, KeyHeld, FullHistory, Feeds, Represents, StrictlyOrdered, Rows, Timely, Steady, Next, Agrees, FreshInv;
    var f, s := fs[j - i], states[j];
    AgreesAlways(p, n, keys, states, steps, i, j, t, fs, es, j);
    AcceptedOrdered(p, n, keys, states, steps, j, t, f);
    FreshRunInv(fs, es, keys[t], j - i);
    var a := TailReaches(f, s, t, keys[t]);
    FreshReadIsTable(p, n, keys, states, steps, j, t, a);
  }

  /** The served batches are all accepted rows from some durable one on. */
  lemma TailReaches(f: Fresh, s: Sys, t: nat, key: KeyFn) returns (a: nat)
    requires s.run.Up? && t < |s.run.tables| && t < |s.logs| && t < |s.files| && Agrees(f, s, t) && FreshInv(f, key)
    ensures a <= |s.logs[t].rows| && Rows(f.batches) == (s.logs[t].rows + s.run.tables[t].pending.rows)[a..]
  {
    hide Represents, Rows, Unflushed, Aged;
    var b: nat, u: nat :| HoldFrom(f.emitted, f.flushed, f.batches, b, u);
    a := |f.before| + b;
    assert (f.before + f.emitted)[a..] == f.emitted[b..];
  }

  /** Files fetched at state `k` and the tail at state `j`, within the retention time: the table as of the tail. */
  lemma FetchedApartIsTable(p: PWal, n: nat, keys: seq<KeyFn>, states: seq<Sys>, steps: seq<Step>, i: nat, k: nat, j: nat, t: nat,
                            fs: seq<Fresh>, es: seq<Event>)
    requires Setup(p, TrueWal(p), n) && IsPhysTrace(p, n, keys, states, steps) && IsCareful(p, n, states, steps)
    requires t < n && Served(n, states, steps, i, j, t, fs, es, keys[t]) && i <= k <= j && states[j].run.pos <= |p|
    requires forall e :: k - i <= e < j - i ==> Prompt(fs[e], es[e], fs[k - i].clock)
    requires var all := Accepted(TrueWal(p), states[j].run.pos, states[j].run.tables[t], states[j].logs[t]);
             var o := Beginning(states[j].origins[t], states[j].run.tables[t].dedupeBelow);
             KeyHeld(FullHistory(TrueWal(p), t, o, all.commitLsn.value), keys[t])
    ensures var all := Accepted(TrueWal(p), states[j].run.pos, states[j].run.tables[t], states[j].logs[t]);
            IsTable(p, TrueWal(p), IndexOf(TrueWal(p), all.commitLsn.value), t,
                    View(states[k].files[t] + Rows(fs[j - i].batches), keys[t]), keys[t])
  {
    hide Setup, PhysEnabled, Careful, Enabled, Apply, View, IsTable, KeyHeld, FullHistory, Feeds, Represents, StrictlyOrdered, Rows, Steady, Next;
    var f := fs[j - i];
    AgreesAlways(p, n, keys, states, steps, i, j, t, fs, es, j);
    AgreesAlways(p, n, keys, states, steps, i, j, t, fs, es, k);
    AcceptedOrdered(p, n, keys, states, steps, j, t, f);
    FilesThenTail(fs, es, keys[t], k - i, j - i);
    MergedReadAlways(fs, es, keys[t], j - i);
    ServedReadIsTable(p, n, keys, states, steps, i, j, t, fs, es);
  }
}
