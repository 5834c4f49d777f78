/**
 Pre-image correctness, live and during replay against a mirror that is ahead of the record, and with it the
 exactly-once theorem for the engine that decodes the physical WAL itself.
 */
module Preimage {
  import opened Base
  import opened TxBuf
  import opened Engine
  import opened Stream
  import opened ProtocolProof
  import opened Heap
  import opened HeapProof
  import opened MirrorProof
  import opened LogMirror

  /** Every overlay entry is a version its still-open transaction wrote during this run. */
  ghost predicate EntriesAreWrites(p: PWal, w: Wal, t: nat, start: nat, pos: nat, open: OpenMap)
    requires pos <= |p|
  {
    forall y, c :: y in open && Key(t, c) in open[y].overlay ==>
      !Finished(w, pos, y) && WroteInRun(p, start, pos, y, Key(t, c))
  }

  ghost predicate WroteInRun(p: PWal, start: nat, pos: nat, y: Xid, k: Key)
    requires pos <= |p|
  {
    exists j: nat :: start <= j < pos && p[j].xid == y && k in Written(HeapAt(p, j), p[j])
  }

  /** A version whose writer is still to be delivered, and has not marked it itself, is in the writer's overlay. */
  ghost predicate WritesAreEntries(p: PWal, w: Wal, t: nat, pos: nat, open: OpenMap, d: Lsn)
    requires pos <= |p|
  {
    forall c :: Key(t, c) in HeapAt(p, pos) ==> EntryFor(w, pos, open, d, Key(t, c), HeapAt(p, pos)[Key(t, c)])
  }

  ghost predicate EntryFor(w: Wal, pos: nat, open: OpenMap, d: Lsn, k: Key, s: Slot) {
    !Finished(w, pos, s.writer) && Matters(w, s.writer, d) && s.writer !in s.deleters ==>
      s.writer in open && k in open[s.writer].overlay && open[s.writer].overlay[k] == s.img
  }

  ghost predicate OverlayOk(p: PWal, w: Wal, t: nat, start: nat, pos: nat, open: OpenMap, d: Lsn)
    requires pos <= |p|
  {
    EntriesAreWrites(p, w, t, start, pos, open) && WritesAreEntries(p, w, t, pos, open, d)
  }

  /** Open transactions' overlays are disjoint, so the order a lookup visits them in cannot matter. */
  lemma OverlaysDisjoint(p: PWal, w: Wal, n: nat, t: nat, start: nat, pos: nat, open: OpenMap, y: Xid, z: Xid, c: Ctid)
    requires Setup(p, w, n) && pos <= |p| && EntriesAreWrites(p, w, t, start, pos, open)
    requires y in open && z in open && Key(t, c) in open[y].overlay && Key(t, c) in open[z].overlay
    ensures y == z
  {
    EntryIsWriter(p, w, n, t, start, pos, open, y, c);
    EntryIsWriter(p, w, n, t, start, pos, open, z, c);
  }

  lemma EntryIsWriter(p: PWal, w: Wal, n: nat, t: nat, start: nat, pos: nat, open: OpenMap, y: Xid, c: Ctid)
    requires Setup(p, w, n) && pos <= |p| && EntriesAreWrites(p, w, t, start, pos, open)
    requires y in open && Key(t, c) in open[y].overlay
    ensures Key(t, c) in HeapAt(p, pos) && HeapAt(p, pos)[Key(t, c)].writer == y && !Finished(w, pos, y)
  {
    HeapInvariant(p, w, n, pos);
    assert WroteInRun(p, start, pos, y, Key(t, c));
    var j: nat :| start <= j < pos && p[j].xid == y && Key(t, c) in Written(HeapAt(p, j), p[j]);
    assert WriteStays(p, pos, j, Key(t, c));
  }

  // ---- The theorem ----------------------------------------------------------------------

  /** How far the mirror has got: the records read, or the whole prefix its log already covered. */
  function MirrorIndex(w: Wal, pos: nat, d: Lsn): nat {
    Max(pos, IndexOf(w, d))
  }

  /** A version about to be marked by a transaction that will be delivered is still live where the mirror stands. */
  lemma TargetStillLive(p: PWal, w: Wal, n: nat, pos: nat, d: Lsn, k: Key)
    requires Setup(p, w, n) && pos < |p| && Targets(p[pos], k) && Matters(w, p[pos].xid, d)
    requires k in HeapAt(p, pos) && Committed(w, pos, HeapAt(p, pos)[k].writer)
    ensures var q := MirrorIndex(w, pos, d);
            q <= |p| && LiveAt(p, w, q, k) && HeapAt(p, q)[k].img == HeapAt(p, pos)[k].img
  {
    hide HeapAt, Written, Tagged;
    var x, q := p[pos].xid, MirrorIndex(w, pos, d);
    assert DisciplinedAt(p, w, pos);
    assert Lockable(w, pos, HeapAt(p, pos), x, k);
    var c :| 0 <= c < |w| && Commits(w[c], x) && w[c].lsn > d;
    assert Finishes(w[c], x);
    assert w[pos] == TrueRec(p, pos);
    assert WillCommit(w, x);
    if q == pos {
      forall a | a in HeapAt(p, pos)[k].deleters ensures !Committed(w, pos, a) {
        AbortedNeverCommits(w, n, pos, a);
      }
    } else {
      HeapInvariant(p, w, n, q);
      assert q <= c && !Finished(w, q, x);
      assert MarkStays(p, q, pos, k);
      MarkerHoldsSlot(w, n, q, HeapAt(p, q), k, x);
      CommittedLater(w, pos, q, HeapAt(p, pos)[k].writer);
    }
  }

  lemma CommittedLater(w: Wal, i: nat, j: nat, x: Xid)
    requires i <= j && Committed(w, i, x)
    ensures Committed(w, j, x)
  {
    var k :| 0 <= k < i && k < |w| && Commits(w[k], x);
    assert k < j;
  }

  /**
   Whatever order the overlays are searched in, the pre-image found for an update or delete of a transaction still
   to be delivered is exactly the version it physically targets, even when the mirror is ahead of the record.
   */
  lemma PreimageIsTarget(p: PWal, w: Wal, n: nat, t: nat, start: nat, pos: nat, open: OpenMap, m: Mirror, d: Lsn, c: Ctid,
                         found: Option<Image>)
    requires Setup(p, w, n) && pos < |p| && Targets(p[pos], Key(t, c)) && Matters(w, p[pos].xid, d)
    requires OverlayOk(p, w, t, start, pos, open, d)
    requires MirrorIndex(w, pos, d) <= |p| && MirrorOk(p, w, MirrorIndex(w, pos, d), t, m)
    requires IsPreimage(open, m, Key(t, c), found)
    ensures Key(t, c) in HeapAt(p, pos) && found == Some(HeapAt(p, pos)[Key(t, c)].img)
  {
    var k, x, h := Key(t, c), p[pos].xid, HeapAt(p, pos);
    assert DisciplinedAt(p, w, pos);
    assert Lockable(w, pos, h, x, k);
    var s := h[k];
    var l :| IsLookup(open, k, l) && found == if l.Some? then l else if k.ctid in m then Some(m[k.ctid]) else None;
    if Committed(w, pos, s.writer) {
      StatusMono(w, pos, s.writer);
      forall z | z in open ensures k !in open[z].overlay {
        if k in open[z].overlay {
          EntryIsWriter(p, w, n, t, start, pos, open, z, c);
        }
      }
      TargetStillLive(p, w, n, pos, d, k);
    } else {
      TogetherMatters(w, x, s.writer, d);
      WriterUnmarked(w, n, pos, s);
      assert EntryFor(w, pos, open, d, k, s);
      var z :| z in open && k in open[z].overlay && Some(open[z].overlay[k]) == l;
      OverlaysDisjoint(p, w, n, t, start, pos, open, s.writer, z, c);
    }
  }

  lemma TogetherMatters(w: Wal, x: Xid, y: Xid, d: Lsn)
    requires Together(w, x, y) && Matters(w, x, d)
    ensures Matters(w, y, d)
  {
    var k :| 0 <= k < |w| && Commits(w[k], x) && w[k].lsn > d;
    assert Commits(w[k], y);
  }

  lemma WriterUnmarked(w: Wal, n: nat, pos: nat, s: Slot)
    requires !Finished(w, pos, s.writer) && forall q :: q in s.deleters ==> Aborted(w, pos, q)
    ensures s.writer !in s.deleters
  {
    StatusMono(w, pos, s.writer);
  }

  // ---- Overlays along a run -------------------------------------------------------------

  function OverlayOf(open: OpenMap, x: Xid): map<Key, Image> {
    if x in open then open[x].overlay else map[]
  }

  lemma InsertOverlay(open: OpenMap, x: Xid, lsn: Lsn, t: nat, c: Ctid, img: Image)
    ensures var o' := AddOp(open, x, lsn, t, Insert(c, img));
            x in o' && OverlayOf(o', x) == OverlayOf(open, x)[Key(t, c) := img]
  {
  }

  lemma {:induction false} InsertsOverlay(open: OpenMap, x: Xid, lsn: Lsn, t: nat, tuples: seq<(Ctid, Image)>)
    ensures var o' := AddOps(open, x, lsn, t, InsertOps(tuples));
            OverlayOf(o', x) == OverlayOf(open, x) + TupleMap(t, tuples) && (tuples != [] || x in open ==> x in o')
    decreases |tuples|
  {
    hide AddOp, OverlayOf;
    if tuples == [] {
      assert OverlayOf(open, x) + map[] == OverlayOf(open, x);
      assert InsertOps(tuples) == [];
    } else {
      var front, last := tuples[..|tuples| - 1], tuples[|tuples| - 1];
      InsertsOverlay(open, x, lsn, t, front);
      var ops := InsertOps(tuples);
      assert ops[..|ops| - 1] == InsertOps(front) && ops[|ops| - 1] == Insert(last.0, last.1);
      var o1 := AddOps(open, x, lsn, t, InsertOps(front));
      assert AddOps(open, x, lsn, t, ops) == AddOp(o1, x, lsn, t, Insert(last.0, last.1));
      InsertOverlay(o1, x, lsn, t, last.0, last.1);
    }
  }

  /** What buffering a decoded body does to one key of the writer's overlay. */
  lemma OverlayEffect(p: PWal, w: Wal, n: nat, i: nat, open: OpenMap, pre: Option<Image>, k: Key)
    requires Setup(p, w, n) && i < |p| && p[i].PChanges?
    ensures var r, ws := p[i], Written(HeapAt(p, i), p[i]);
            var got := DecodeBody(r.body, pre);
            var o' := AddOps(open, r.xid, r.lsn, r.table, got);
            && (r.xid in o' && k in o'[r.xid].overlay ==> k in ws || (r.xid in open && k in open[r.xid].overlay))
            && (k in ws && got == w[i].ops ==> r.xid in o' && k in o'[r.xid].overlay && o'[r.xid].overlay[k] == ws[k])
            && (k !in ws && !Targets(r, k) && r.xid in open && k in open[r.xid].overlay && got == w[i].ops ==>
                  r.xid in o' && k in o'[r.xid].overlay && o'[r.xid].overlay[k] == open[r.xid].overlay[k])
  {
    var r := p[i];
    assert DisciplinedAt(p, w, i);
    assert w[i] == TrueRec(p, i);
    match r.body {
      case Tuples(ts) =>
        InsertsOverlay(open, r.xid, r.lsn, r.table, ts);
      case One(ch) =>
        match Decode(ch, pre) {
          case None =>
          case Some(op) =>
            assert [op][..0] == [];
            assert AddOps(open, r.xid, r.lsn, r.table, [op]) == AddOp(open, r.xid, r.lsn, r.table, op);
        }
    }
  }

  lemma StillOpen(w: Wal, n: nat, i: nat, x: Xid)
    requires i < |w| && w[i].Changes?
    ensures Finished(w, i + 1, x) <==> Finished(w, i, x)
  {
    if Finished(w, i + 1, x) {
      var k :| 0 <= k < i + 1 && k < |w| && Finishes(w[k], x);
      assert k < i;
    }
    StatusMono(w, i, x);
  }

  lemma OverlayChanges(p: PWal, w: Wal, n: nat, t: nat, start: nat, pos: nat, open: OpenMap, d: Lsn, pre: Option<Image>)
    requires Setup(p, w, n) && start <= pos < |p| && p[pos].PChanges? && OverlayOk(p, w, t, start, pos, open, d)
    requires p[pos].table == t && Matters(w, p[pos].xid, d) ==> DecodeBody(p[pos].body, pre) == w[pos].ops
    ensures var r := p[pos];
            OverlayOk(p, w, t, start, pos + 1, AddOps(open, r.xid, r.lsn, r.table, DecodeBody(r.body, pre)), d)
  {
    var r := p[pos];
    var got := DecodeBody(r.body, pre);
    var o' := AddOps(open, r.xid, r.lsn, r.table, got);
    assert w[pos] == TrueRec(p, pos);
    AddOpsEffect(open, r.xid, r.lsn, r.table, got);
    forall y, c | y in o' && Key(t, c) in o'[y].overlay
      ensures !Finished(w, pos + 1, y) && WroteInRun(p, start, pos + 1, y, Key(t, c))
    {
      OverlayEffect(p, w, n, pos, open, pre, Key(t, c));
      StillOpen(w, n, pos, y);
      if y == r.xid && Key(t, c) in Written(HeapAt(p, pos), r) {
        assert !Finished(w, pos, y);
      } else {
        assert y in open && Key(t, c) in open[y].overlay;
        assert WroteInRun(p, start, pos, y, Key(t, c));
      }
    }
    forall c | Key(t, c) in HeapAt(p, pos + 1) ensures EntryFor(w, pos + 1, o', d, Key(t, c), HeapAt(p, pos + 1)[Key(t, c)]) {
      EntryKept(p, w, n, t, start, pos, open, d, pre, c);
    }
  }

  lemma EntryKept(p: PWal, w: Wal, n: nat, t: nat, start: nat, pos: nat, open: OpenMap, d: Lsn, pre: Option<Image>, c: Ctid)
    requires Setup(p, w, n) && start <= pos < |p| && p[pos].PChanges? && WritesAreEntries(p, w, t, pos, open, d)
    requires p[pos].table == t && Matters(w, p[pos].xid, d) ==> DecodeBody(p[pos].body, pre) == w[pos].ops
    requires Key(t, c) in HeapAt(p, pos + 1)
    ensures var r := p[pos];
            EntryFor(w, pos + 1, AddOps(open, r.xid, r.lsn, r.table, DecodeBody(r.body, pre)), d, Key(t, c),
                     HeapAt(p, pos + 1)[Key(t, c)])
  {
    var r, k := p[pos], Key(t, c);
    var h, s' := HeapAt(p, pos), HeapAt(p, pos + 1)[k];
    assert w[pos] == TrueRec(p, pos);
    AddOpsEffect(open, r.xid, r.lsn, r.table, DecodeBody(r.body, pre));
    StillOpen(w, n, pos, s'.writer);
    if !Finished(w, pos + 1, s'.writer) && Matters(w, s'.writer, d) && s'.writer !in s'.deleters {
      OverlayEffect(p, w, n, pos, open, pre, k);
      WrittenTable(p, pos, k);
      if k !in Written(h, r) {
        assert k in h && s'.writer == h[k].writer && s'.img == h[k].img && h[k].deleters <= s'.deleters;
        assert EntryFor(w, pos, open, d, k, h[k]);
        if s'.writer == r.xid {
          assert !Targets(r, k);
          OtherTableUntouched(open, r, pre, t, k);
        }
      }
    }
  }

  lemma {:induction false} AddOpsOtherTable(open: OpenMap, x: Xid, lsn: Lsn, table: nat, ops: seq<Op>, k: Key)
    requires k.table != table && x in open
    ensures var o' := AddOps(open, x, lsn, table, ops);
            x in o' && (k in o'[x].overlay <==> k in open[x].overlay)
            && (k in open[x].overlay ==> o'[x].overlay[k] == open[x].overlay[k])
    decreases |ops|
  {
    if ops != [] {
      AddOpsOtherTable(open, x, lsn, table, ops[..|ops| - 1], k);
    }
  }

  lemma OtherTableUntouched(open: OpenMap, r: PRec, pre: Option<Image>, t: nat, k: Key)
    requires r.PChanges? && k.table == t && r.xid in open && k in open[r.xid].overlay
    ensures r.table != t ==>
              var o' := AddOps(open, r.xid, r.lsn, r.table, DecodeBody(r.body, pre));
              r.xid in o' && k in o'[r.xid].overlay && o'[r.xid].overlay[k] == open[r.xid].overlay[k]
  {
    if r.table != t {
      AddOpsOtherTable(open, r.xid, r.lsn, r.table, DecodeBody(r.body, pre), k);
    }
  }

  lemma OverlayForgets(p: PWal, w: Wal, n: nat, t: nat, start: nat, pos: nat, open: OpenMap, d: Lsn)
    requires Setup(p, w, n) && start <= pos < |p| && !p[pos].PChanges? && OverlayOk(p, w, t, start, pos, open, d)
    ensures !w[pos].Changes? && OverlayOk(p, w, t, start, pos + 1, Forget(open, Family(w[pos])), d)
  {
    assert w[pos] == TrueRec(p, pos);
    var o' := Forget(open, Family(w[pos]));
    CommitLeavesHeap(p, pos);
    forall y, c | y in o' && Key(t, c) in o'[y].overlay
      ensures !Finished(w, pos + 1, y) && WroteInRun(p, start, pos + 1, y, Key(t, c))
    {
      assert y in open && y !in Family(w[pos]) && !Finishes(w[pos], y);
      assert !Finished(w, pos, y) && WroteInRun(p, start, pos, y, Key(t, c));
    }
    forall c | Key(t, c) in HeapAt(p, pos + 1) ensures EntryFor(w, pos + 1, o', d, Key(t, c), HeapAt(p, pos + 1)[Key(t, c)]) {
      var s := HeapAt(p, pos)[Key(t, c)];
      assert EntryFor(w, pos, open, d, Key(t, c), s);
      if !Finished(w, pos + 1, s.writer) {
        assert !Finishes(w[pos], s.writer);
        StatusMono(w, pos, s.writer);
      }
    }
  }

  // ---- A run begins ---------------------------------------------------------------------

  lemma {:induction false} WriterWrote(p: PWal, i: nat, k: Key) returns (j: nat)
    requires i <= |p| && k in HeapAt(p, i)
    ensures j < i && p[j].xid == HeapAt(p, i)[k].writer && k in Written(HeapAt(p, j), p[j])
  {
    if k in Written(HeapAt(p, i - 1), p[i - 1]) {
      j := i - 1;
    } else {
      j := WriterWrote(p, i - 1, k);
    }
  }

  lemma WrittenWrites(p: PWal, w: Wal, n: nat, j: nat, k: Key)
    requires Setup(p, w, n) && j < |p| && k in Written(HeapAt(p, j), p[j])
    ensures Writes(w[j], k.table, p[j].xid)
  {
    assert w[j] == TrueRec(p, j);
    assert DisciplinedAt(p, w, j);
    WrittenTable(p, j, k);
  }

  /** Nothing still to be delivered was written before the run starts, so empty overlays are right. */
  lemma OverlayStarts(p: PWal, w: Wal, n: nat, t: nat, start: nat, d: Lsn)
    requires Setup(p, w, n) && start <= |p| && StartCovers(w, t, d, start)
    ensures OverlayOk(p, w, t, start, start, map[], d)
  {
    forall c | Key(t, c) in HeapAt(p, start) ensures EntryFor(w, start, map[], d, Key(t, c), HeapAt(p, start)[Key(t, c)]) {
      var k := Key(t, c);
      var y := HeapAt(p, start)[k].writer;
      if !Finished(w, start, y) && Matters(w, y, d) {
        var j := WriterWrote(p, start, k);
        WrittenWrites(p, w, n, j, k);
      }
    }
  }
}
