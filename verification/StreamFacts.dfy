/** Facts about WAL-order truth, the commit sort and per-table release, used by the protocol proofs. */
module StreamFacts {
  import opened Base
  import opened TxBuf
  import opened Sink
  import opened Engine
  import opened Stream

  ghost predicate Increasing(w: Wal) {
    forall i, j :: 0 <= i < j < |w| ==> w[i].lsn < w[j].lsn
  }

  /** The ops of one table, in order. */
  function OfTable(ops: seq<PendingOp>, t: nat): seq<PendingOp>
    decreases |ops|
  {
    if ops == [] then []
    else OfTable(ops[..|ops| - 1], t) + (if ops[|ops| - 1].table == t then [ops[|ops| - 1]] else [])
  }

  /** What transaction `x` has buffered for table `t`. */
  function Buffered(open: OpenMap, x: Xid, t: nat): seq<PendingOp> {
    if x in open then OfTable(open[x].ops, t) else []
  }

  // ---- Sorting --------------------------------------------------------------------------

  lemma {:induction false} OfTableConcat(a: seq<PendingOp>, b: seq<PendingOp>, t: nat)
    ensures OfTable(a + b, t) == OfTable(a, t) + OfTable(b, t)
    decreases |b|
  {
    if b == [] {
      assert a + b == a;
    } else {
      OfTableConcat(a, b[..|b| - 1], t);
      assert (a + b)[..|a + b| - 1] == a + b[..|b| - 1];
    }
  }

  lemma {:induction false} OfTableBound(s: seq<PendingOp>, t: nat, hi: Lsn)
    requires forall i :: 0 <= i < |s| ==> s[i].lsn <= hi
    ensures forall i :: 0 <= i < |OfTable(s, t)| ==> OfTable(s, t)[i].lsn <= hi
    decreases |s|
  {
    if s != [] {
      OfTableBound(s[..|s| - 1], t, hi);
    }
  }

  lemma OfTableSnoc(s: seq<PendingOp>, o: PendingOp, t: nat)
    ensures OfTable(s + [o], t) == OfTable(s, t) + (if o.table == t then [o] else [])
  {
    assert (s + [o])[..|s|] == s;
  }

  lemma InsertBeforeLast(s: seq<PendingOp>, last: PendingOp, o: PendingOp)
    requires o.lsn < last.lsn
    ensures InsertOp(s + [last], o) == InsertOp(s, o) + [last]
  {
    assert (s + [last])[..|s|] == s;
  }

  lemma {:induction false} InsertOfTable(s: seq<PendingOp>, o: PendingOp, t: nat)
    requires SortedByLsn(s)
    ensures OfTable(InsertOp(s, o), t) == if o.table == t then InsertOp(OfTable(s, t), o) else OfTable(s, t)
    decreases |s|
  {
    if s == [] || s[|s| - 1].lsn <= o.lsn {
      OfTableSnoc(s, o, t);
      OfTableBound(s, t, o.lsn);
    } else {
      var front, last := s[..|s| - 1], s[|s| - 1];
      InsertOfTable(front, o, t);
      assert s == front + [last];
      calc {
        OfTable(InsertOp(s, o), t);
        OfTable(InsertOp(front, o) + [last], t);
        { OfTableSnoc(InsertOp(front, o), last, t); }
        OfTable(InsertOp(front, o), t) + (if last.table == t then [last] else []);
      }
      OfTableSnoc(front, last, t);
      if last.table == t {
        InsertBeforeLast(OfTable(front, t), last, o);
        assert OfTable(s, t) == OfTable(front, t) + [last];
      } else {
        assert OfTable(s, t) == OfTable(front, t);
      }
    }
  }

  lemma {:induction false} SortOfTable(s: seq<PendingOp>, t: nat)
    ensures OfTable(StableSort(s), t) == StableSort(OfTable(s, t))
    decreases |s|
  {
    if s != [] {
      var front, last := s[..|s| - 1], s[|s| - 1];
      SortOfTable(front, t);
      StableSortIsStableSort(front, 0);
      InsertOfTable(StableSort(front), last, t);
      if last.table == t {
        var f := OfTable(front, t);
        assert (f + [last])[..|f|] == f;
      } else {
        assert OfTable(s, t) == OfTable(front, t);
      }
    }
  }

  lemma {:induction false} SortIntoConcat(a: seq<PendingOp>, b: seq<PendingOp>, c: seq<PendingOp>)
    ensures SortInto(a, b + c) == SortInto(SortInto(a, b), c)
    decreases |c|
  {
    if c == [] {
      assert b + c == b;
    } else {
      SortIntoConcat(a, b, c[..|c| - 1]);
      assert (b + c)[..|b + c| - 1] == b + c[..|c| - 1];
    }
  }

  lemma {:induction false} SortIntoAppends(a: seq<PendingOp>, b: seq<PendingOp>, l: Lsn)
    requires forall i :: 0 <= i < |a| ==> a[i].lsn <= l
    requires forall i :: 0 <= i < |b| ==> b[i].lsn == l
    ensures SortInto(a, b) == a + b
    decreases |b|
  {
    if b != [] {
      SortIntoAppends(a, b[..|b| - 1], l);
    }
  }

  lemma {:induction false} InsertBeforeTail(a: seq<PendingOp>, tail: seq<PendingOp>, o: PendingOp)
    requires forall i :: 0 <= i < |tail| ==> o.lsn < tail[i].lsn
    ensures InsertOp(a + tail, o) == InsertOp(a, o) + tail
    decreases |tail|
  {
    if tail == [] {
      assert a + tail == a;
    } else {
      var tail' := tail[..|tail| - 1];
      InsertBeforeTail(a, tail', o);
      var s, last := a + tail, tail[|tail| - 1];
      assert s[..|s| - 1] == a + tail' && s[|s| - 1] == last;
      assert InsertOp(s, o) == InsertOp(a + tail', o) + [last];
    }
  }

  lemma {:induction false} SortIntoBeforeTail(a: seq<PendingOp>, tail: seq<PendingOp>, b: seq<PendingOp>)
    requires forall i, j :: 0 <= i < |tail| && 0 <= j < |b| ==> b[j].lsn < tail[i].lsn
    ensures SortInto(a + tail, b) == SortInto(a, b) + tail
    decreases |b|
  {
    if b != [] {
      SortIntoBeforeTail(a, tail, b[..|b| - 1]);
      InsertBeforeTail(SortInto(a, b[..|b| - 1]), tail, b[|b| - 1]);
    }
  }

  // ---- WAL-order truth ------------------------------------------------------------------

  ghost predicate AllBelow(s: seq<PendingOp>, l: Lsn) {
    forall j :: 0 <= j < |s| ==> s[j].lsn < l
  }

  ghost predicate AllKnown(s: seq<PendingOp>) {
    forall j :: 0 <= j < |s| ==> DeleteKnown(s[j].op)
  }

  lemma {:induction false} TruthBound(w: Wal, lo: nat, hi: nat, fam: set<Xid>, t: nat, l: Lsn)
    requires lo <= hi <= |w|
    requires forall i :: lo <= i < hi ==> w[i].lsn < l
    ensures AllBelow(Truth(w, lo, hi, fam, t), l)
    decreases hi
  {
    if lo < hi {
      TruthBound(w, lo, hi - 1, fam, t, l);
    }
  }

  lemma PartOk(r: Rec, n: nat, fam: set<Xid>, t: nat)
    requires RecOk(r, n)
    ensures AllKnown(Part(r, fam, t))
  {
    var s := Part(r, fam, t);
    forall j | 0 <= j < |s| ensures DeleteKnown(s[j].op) {
      assert s[j].op == r.ops[j];
    }
  }

  predicate DeleteKnown(op: Op) {
    op.Delete? ==> op.oldRow.Some?
  }

  lemma {:induction false} TruthOk(w: Wal, n: nat, lo: nat, hi: nat, fam: set<Xid>, t: nat)
    requires lo <= hi <= |w|
    requires forall i :: 0 <= i < |w| ==> RecOk(w[i], n)
    ensures AllKnown(Truth(w, lo, hi, fam, t))
    decreases hi
  {
    if lo < hi {
      TruthOk(w, n, lo, hi - 1, fam, t);
      PartOk(w[hi - 1], n, fam, t);
    }
  }

  lemma {:induction false} TruthOfNobody(w: Wal, lo: nat, hi: nat, t: nat)
    requires lo <= hi <= |w|
    ensures Truth(w, lo, hi, {}, t) == []
    decreases hi
  {
    if lo < hi {
      TruthOfNobody(w, lo, hi - 1, t);
    }
  }

  predicate SortsInto(a: seq<PendingOp>, b: seq<PendingOp>, c: seq<PendingOp>) {
    SortInto(a, b) == c
  }

  /** Sorting another transaction's ops into those of `fam` restores the WAL order of both. */
  lemma {:induction false} MergeTruth(w: Wal, lo: nat, hi: nat, fam: set<Xid>, x: Xid, t: nat)
    requires lo <= hi <= |w| && Increasing(w) && x !in fam
    ensures SortsInto(Truth(w, lo, hi, fam, t), Truth(w, lo, hi, {x}, t), Truth(w, lo, hi, fam + {x}, t))
    decreases hi
  {
    hide Part, AllBelow, InsertOp;
    if lo < hi {
      var r := w[hi - 1];
      var a, b := Truth(w, lo, hi - 1, fam, t), Truth(w, lo, hi - 1, {x}, t);
      var both := Truth(w, lo, hi - 1, fam + {x}, t);
      TruthBound(w, lo, hi - 1, fam + {x}, t, r.lsn);
      TruthBound(w, lo, hi - 1, {x}, t, r.lsn);
      MergeTruth(w, lo, hi - 1, fam, x, t);
      MergeLast(a, b, both, r, fam, x, t);
    }
  }

  lemma MergeLast(a: seq<PendingOp>, b: seq<PendingOp>, both: seq<PendingOp>, r: Rec, fam: set<Xid>, x: Xid, t: nat)
    requires SortsInto(a, b, both) && x !in fam
    requires AllBelow(both, r.lsn) && AllBelow(b, r.lsn)
    ensures SortsInto(a + Part(r, fam, t), b + Part(r, {x}, t), both + Part(r, fam + {x}, t))
  {
    var p, q := Part(r, fam, t), Part(r, {x}, t);
    assert q == [] ==> b + q == b;
    assert p == [] ==> a + p == a;
    if r.Changes? && r.table == t && r.xid == x {
      assert p == [];
      SortIntoConcat(a, b, q);
      SortIntoAppends(both, q, r.lsn);
    } else if r.Changes? && r.table == t && r.xid in fam {
      assert q == [];
      SortIntoBeforeTail(a, p, b);
    } else {
      assert p == [] && q == [];
    }
  }

  /** Collecting a committed family's buffers and sorting them yields its ops in WAL order. */
  lemma {:induction false} CollectIsTruth(w: Wal, lo: nat, hi: nat, open: OpenMap, xids: seq<Xid>, t: nat)
    requires lo <= hi <= |w| && Increasing(w)
    requires forall x :: x in xids ==> Buffered(open, x, t) == Truth(w, lo, hi, {x}, t)
    ensures StableSort(OfTable(Collect(open, xids), t)) == Truth(w, lo, hi, XidSet(xids), t)
    decreases |xids|
  {
    if xids == [] {
      TruthOfNobody(w, lo, hi, t);
      assert XidSet(xids) == {};
    } else {
      var rest, x := xids[..|xids| - 1], xids[|xids| - 1];
      CollectIsTruth(w, lo, hi, open, rest, t);
      assert xids == rest + [x];
      if x in rest {
        assert XidSet(xids) == XidSet(rest);
        assert Collect(open, xids) == Collect(open, rest);
      } else {
        assert XidSet(xids) == XidSet(rest) + {x};
        var more := if x in open then open[x].ops else [];
        OfTableConcat(Collect(open, rest), more, t);
        SortIntoConcat([], OfTable(Collect(open, rest), t), OfTable(more, t));
        MergeTruth(w, lo, hi, XidSet(rest), x, t);
      }
    }
  }

  lemma {:induction false} TruthNoWrites(w: Wal, lo: nat, hi: nat, fam: set<Xid>, t: nat)
    requires lo <= hi <= |w|
    requires forall i, x :: lo <= i < hi && x in fam ==> !Writes(w[i], t, x)
    ensures Truth(w, lo, hi, fam, t) == []
    decreases hi
  {
    if lo < hi {
      TruthNoWrites(w, lo, hi - 1, fam, t);
      var r := w[hi - 1];
      assert Part(r, fam, t) == [] by {
        if r.Changes? && r.table == t && r.xid in fam {
          assert !Writes(w[hi - 1], t, r.xid);
        }
      }
    }
  }

  lemma PartHas(r: Rec, fam: set<Xid>, t: nat)
    requires r.Changes? && r.xid in fam && Writes(r, t, r.xid)
    ensures Part(r, fam, t) != [] && Part(r, fam, t)[0].lsn == r.lsn
  {
  }

  lemma {:induction false} TruthHas(w: Wal, lo: nat, hi: nat, fam: set<Xid>, t: nat, i: nat) returns (j: nat)
    requires lo <= i < hi <= |w| && w[i].Changes? && w[i].xid in fam && Writes(w[i], t, w[i].xid)
    ensures j < |Truth(w, lo, hi, fam, t)| && Truth(w, lo, hi, fam, t)[j].lsn == w[i].lsn
    decreases hi
  {
    hide Part, Writes;
    if i == hi - 1 {
      PartHas(w[i], fam, t);
      j := |Truth(w, lo, hi - 1, fam, t)|;
    } else {
      j := TruthHas(w, lo, hi - 1, fam, t, i);
    }
  }

  /** Reading may begin at `start` when nothing of the family was written to `t` before it. */
  lemma {:induction false} TruthFrom(w: Wal, start: nat, hi: nat, fam: set<Xid>, t: nat)
    requires start <= hi <= |w|
    requires forall i, x :: 0 <= i < start && x in fam ==> !Writes(w[i], t, x)
    ensures Truth(w, start, hi, fam, t) == Truth(w, 0, hi, fam, t)
    decreases hi
  {
    if start == hi {
      TruthNoWrites(w, 0, hi, fam, t);
    } else {
      TruthFrom(w, start, hi - 1, fam, t);
    }
  }

  // ---- Expected entries -----------------------------------------------------------------

  lemma {:induction false} ExpectedEmpty(w: Wal, t: nat, n: nat, lo: Lsn, hi: Lsn)
    requires n <= |w|
    requires forall i :: 0 <= i < n && lo < w[i].lsn <= hi ==> !w[i].Commit?
    ensures Expected(w, t, n, lo, hi) == []
  {
    if n > 0 {
      ExpectedEmpty(w, t, n - 1, lo, hi);
    }
  }

  lemma {:induction false} ExpectedSplit(w: Wal, t: nat, n: nat, lo: Lsn, mid: Lsn, hi: Lsn)
    requires n <= |w| && Increasing(w) && lo <= mid <= hi
    ensures Expected(w, t, n, lo, mid) + Expected(w, t, n, mid, hi) == Expected(w, t, n, lo, hi)
  {
    hide CommitEntries, Truth;
    if n > 0 {
      ExpectedSplit(w, t, n - 1, lo, mid, hi);
      var r := w[n - 1];
      if r.Commit? && lo < r.lsn <= mid {
        ExpectedEmpty(w, t, n - 1, mid, hi);
      }
    }
  }

  lemma {:induction false} ExpectedIsDue(w: Wal, t: nat, n: nat, pos: nat, lo: Lsn)
    requires pos <= |w| && n <= |w| && Increasing(w)
    ensures Expected(w, t, n, lo, ReadUpTo(w, pos)) == Due(w, t, Min(n, pos), lo)
  {
    hide CommitEntries, Truth;
    if n > 0 {
      ExpectedIsDue(w, t, n - 1, pos, lo);
    }
  }

  /** Nothing is owed by the first `n` records when no commit among them above `lo` wrote the table. */
  lemma {:induction false} NothingDue(w: Wal, t: nat, n: nat, lo: Lsn)
    requires n <= |w|
    requires forall k, i, x :: 0 <= i < k < n && Commits(w[k], x) && w[k].lsn > lo ==> !Writes(w[i], t, x)
    ensures Due(w, t, n, lo) == []
  {
    hide Truth;
    if n > 0 {
      NothingDue(w, t, n - 1, lo);
      var r := w[n - 1];
      if r.Commit? && lo < r.lsn {
        forall i, x | 0 <= i < n - 1 && x in XidSet(Family(r)) ensures !Writes(w[i], t, x) {
          assert Commits(w[n - 1], x);
        }
        TruthNoWrites(w, 0, n - 1, XidSet(Family(r)), t);
      }
    }
  }

  /** Conversely, when nothing is owed, no such commit wrote the table. */
  lemma {:induction false} DueNothing(w: Wal, t: nat, n: nat, lo: Lsn, k: nat, i: nat, x: Xid)
    requires n <= |w| && Due(w, t, n, lo) == []
    requires i < k < n && Commits(w[k], x) && w[k].lsn > lo
    ensures !Writes(w[i], t, x)
  {
    if k < n - 1 {
      DueNothing(w, t, n - 1, lo, k, i, x);
    } else {
      assert CommitEntries(w, k, t) == [];
      if Writes(w[i], t, x) {
        var _ := TruthHas(w, 0, k, XidSet(Family(w[k])), t, i);
      }
    }
  }

  // ---- Release, table by table ----------------------------------------------------------

  function Erase(r: EmitRow): Entry {
    Entry(r.lsn, r.deleted, r.ctid, r.row)
  }

  function Erased(s: seq<EmitRow>): seq<Entry> {
    seq(|s|, i requires 0 <= i < |s| => Erase(s[i]))
  }

  function FoldOps(tb: Table, lsn: Lsn, ops: seq<PendingOp>): Table
    decreases |ops|
  {
    if ops == [] then tb else ApplyOp(FoldOps(tb, lsn, ops[..|ops| - 1]), lsn, ops[|ops| - 1].op)
  }

  /** A release acts on each table by that table's own ops alone. */
  lemma {:induction false} ReleaseOneTable(ts: seq<Table>, lsn: Lsn, ops: seq<PendingOp>, t: nat)
    requires TablesInRange(ops, |ts|) && t < |ts|
    ensures Release(ts, lsn, ops)[t] == if lsn <= ts[t].dedupeBelow then ts[t] else FoldOps(ts[t], lsn, OfTable(ops, t))
    decreases |ops|
  {
    if ops != [] {
      var front, last := ops[..|ops| - 1], ops[|ops| - 1];
      ReleaseOneTable(ts, lsn, front, t);
      if last.table == t {
        var f := OfTable(front, t);
        assert (f + [last])[..|f|] == f;
      } else {
        assert OfTable(ops, t) == OfTable(front, t);
      }
    }
  }

  /** `q` is `p` with one row per op appended: the entries in op order, under increasing tie-break counters. */
  ghost predicate Appends(p: Pending, q: Pending, lsn: Lsn, ops: seq<PendingOp>) {
    && |q.rows| == |p.rows| + |ops|
    && q.rows[..|p.rows|] == p.rows
    && (forall j :: |p.rows| <= j < |q.rows| ==> q.rows[j].lsn == lsn && q.rows[j].seqno == p.seqno + 1 + j - |p.rows|)
    && q.seqno == p.seqno + |ops|
    && q.maxCommit == (if ops == [] then p.maxCommit else Max(p.maxCommit, lsn))
    && Erased(q.rows) == Erased(p.rows) + Entries(lsn, ops)
  }

  /** One applied op: one row. */
  lemma ApplyAppends(t: Table, lsn: Lsn, op: Op)
    requires DeleteKnown(op)
    ensures var p, q := t.pending, ApplyOp(t, lsn, op).pending;
            && |q.rows| == |p.rows| + 1 && q.rows[..|p.rows|] == p.rows
            && q.rows[|p.rows|].seqno == q.seqno == p.seqno + 1 && q.maxCommit == Max(p.maxCommit, lsn)
            && q.rows[|p.rows|].lsn == lsn && Erase(q.rows[|p.rows|]) == EntryOf(lsn, op)
            && ApplyOp(t, lsn, op).dedupeBelow == t.dedupeBelow
  {
    hide MirrorAfter;
  }

  lemma AppendsOne(p: Pending, t: Table, lsn: Lsn, ops: seq<PendingOp>, last: PendingOp)
    requires Appends(p, t.pending, lsn, ops) && DeleteKnown(last.op)
    ensures Appends(p, ApplyOp(t, lsn, last.op).pending, lsn, ops + [last])
  {
    hide ApplyOp, EntryOf;
    ApplyAppends(t, lsn, last.op);
    var mid, q := t.pending, ApplyOp(t, lsn, last.op).pending;
    var r := q.rows[|mid.rows|];
    assert q.rows == mid.rows + [r];
    assert Erased(q.rows) == Erased(mid.rows) + [Erase(r)];
    assert Entries(lsn, ops + [last]) == Entries(lsn, ops) + [EntryOf(lsn, last.op)];
    assert q.rows[..|p.rows|] == mid.rows[..|p.rows|];
  }

  /** Each released op appends one row. */
  lemma {:induction false} FoldAppends(tb: Table, lsn: Lsn, ops: seq<PendingOp>)
    requires AllKnown(ops)
    ensures Appends(tb.pending, FoldOps(tb, lsn, ops).pending, lsn, ops)
    ensures FoldOps(tb, lsn, ops).dedupeBelow == tb.dedupeBelow
    decreases |ops|
  {
    hide ApplyOp, Appends;
    if ops == [] {
      NothingAppended(tb.pending, lsn);
    } else {
      var front, last := ops[..|ops| - 1], ops[|ops| - 1];
      FoldAppends(tb, lsn, front);
      assert DeleteKnown(last.op);
      assert ops == front + [last];
      AppendsOne(tb.pending, FoldOps(tb, lsn, front), lsn, front, last);
      ApplyAppends(FoldOps(tb, lsn, front), lsn, last.op);
    }
  }

  lemma NothingAppended(p: Pending, lsn: Lsn)
    ensures Appends(p, p, lsn, [])
  {
    assert p.rows[..|p.rows|] == p.rows;
    assert Erased(p.rows) + Entries(lsn, []) == Erased(p.rows);
  }
}
