/** The pre-image mirror, live or rebuilt from the log, holds every committed live version. */
module MirrorProof {
  import opened TxBuf
  import opened Engine
  import opened Stream
  import opened StreamFacts
  import opened Heap
  import opened HeapProof

  /** The version in slot `k` is committed and nobody has committed a mark on it. */
  ghost predicate LiveAt(p: PWal, w: Wal, i: nat, k: Key)
    requires i <= |p|
  {
    var h := HeapAt(p, i);
    k in h && Committed(w, i, h[k].writer) && forall q :: q in h[k].deleters ==> !Committed(w, i, q)
  }

  /** `m` answers correctly for every live ctid of table `t`; entries for other ctids may be stale. */
  ghost predicate MirrorOk(p: PWal, w: Wal, i: nat, t: nat, m: Mirror)
    requires i <= |p|
  {
    forall c :: LiveAt(p, w, i, Key(t, c)) ==> c in m && m[c] == HeapAt(p, i)[Key(t, c)].img
  }

  /** The live mirror drops an update's old ctid; a mirror rebuilt from the log (`keep`) does not. */
  function MirrorStep(m: Mirror, op: Op, keep: bool): Mirror {
    match op
    case Insert(c, img) => m[c := img]
    case Update(o, c, img) => (if keep then m else m - {o})[c := img]
    case Delete(c, _) => m - {c}
  }

  function FoldMirror(m: Mirror, keep: bool, ops: seq<PendingOp>): Mirror
    decreases |ops|
  {
    if ops == [] then m else MirrorStep(FoldMirror(m, keep, ops[..|ops| - 1]), ops[|ops| - 1].op, keep)
  }

  lemma {:induction false} FoldMirrorConcat(m: Mirror, keep: bool, a: seq<PendingOp>, b: seq<PendingOp>)
    ensures FoldMirror(m, keep, a + b) == FoldMirror(FoldMirror(m, keep, a), keep, b)
    decreases |b|
  {
    if b == [] {
      assert a + b == a;
    } else {
      FoldMirrorConcat(m, keep, a, b[..|b| - 1]);
      assert (a + b)[..|a + b| - 1] == a + b[..|b| - 1];
    }
  }

  lemma {:induction false} FoldOpsMirror(tb: Table, lsn: Lsn, ops: seq<PendingOp>)
    ensures FoldOps(tb, lsn, ops).mirror == FoldMirror(tb.mirror, false, ops)
    decreases |ops|
  {
    if ops != [] {
      FoldOpsMirror(tb, lsn, ops[..|ops| - 1]);
    }
  }

  // ---- One record's effect on one ctid --------------------------------------------------

  lemma {:induction false} FoldInserts(m: Mirror, keep: bool, r: Rec, tuples: seq<(Ctid, Image)>, c: Ctid)
    requires r.Changes? && r.ops == InsertOps(tuples)
    ensures var m', ws := FoldMirror(m, keep, Tagged(r)), TupleMap(r.table, tuples);
            if Key(r.table, c) in ws then c in m' && m'[c] == ws[Key(r.table, c)]
            else (c in m' <==> c in m) && (c in m ==> m'[c] == m[c])
    decreases |tuples|
  {
    if tuples == [] {
      assert Tagged(r) == [];
    } else {
      var front := tuples[..|tuples| - 1];
      var r' := r.(ops := InsertOps(front));
      FoldInserts(m, keep, r', front, c);
      assert Tagged(r)[..|tuples| - 1] == Tagged(r');
      assert Tagged(r)[|tuples| - 1].op == Insert(tuples[|tuples| - 1].0, tuples[|tuples| - 1].1);
    }
  }

  /** Folding a record's true ops sets the ctids it writes, may drop the one it targets, and leaves the rest. */
  lemma FoldRecord(p: PWal, w: Wal, n: nat, i: nat, m: Mirror, keep: bool, c: Ctid)
    requires Setup(p, w, n) && i < |p| && p[i].PChanges?
    ensures var m', ws, k := FoldMirror(m, keep, Tagged(w[i])), Written(HeapAt(p, i), p[i]), Key(p[i].table, c);
            && (k in ws ==> c in m' && m'[c] == ws[k])
            && (k !in ws && !Targets(p[i], k) ==> (c in m' <==> c in m) && (c in m ==> m'[c] == m[c]))
  {
    assert DisciplinedAt(p, w, i);
    assert w[i] == TrueRec(p, i);
    match p[i].body {
      case Tuples(ts) =>
        FoldInserts(m, keep, w[i], ts, c);
      case One(ch) =>
        var op := Decode(ch, TruePre(HeapAt(p, i), p[i])).value;
        assert Tagged(w[i])[..0] == [] && Tagged(w[i])[0].op == op && |Tagged(w[i])| == 1;
        assert FoldMirror(m, keep, Tagged(w[i])) == MirrorStep(m, op, keep);
    }
  }

  // ---- A committing family --------------------------------------------------------------

  ghost predicate TouchedBy(p: PWal, j: nat, fam: set<Xid>, k: Key)
    requires j < |p|
  {
    p[j].xid in fam && (k in Written(HeapAt(p, j), p[j]) || Targets(p[j], k))
  }

  /**
   After folding the family's ops up to `j`: a version of theirs that none of them marked is in the mirror, and a
   ctid none of them touched is as before.
   */
  ghost predicate FamilyFolded(p: PWal, j: nat, fam: set<Xid>, k: Key, m: Mirror, m': Mirror)
    requires j <= |p|
  {
    var h, c := HeapAt(p, j), k.ctid;
    && (k in h && h[k].writer in fam && h[k].deleters !! fam ==> c in m' && m'[c] == h[k].img)
    && ((forall i :: 0 <= i < j ==> !TouchedBy(p, i, fam, k)) ==> (c in m' <==> c in m) && (c in m ==> m'[c] == m[c]))
  }

  lemma {:induction false} FoldFamily(p: PWal, w: Wal, n: nat, j: nat, fam: set<Xid>, k: Key, m: Mirror, keep: bool)
    requires Setup(p, w, n) && j <= |p|
    ensures FamilyFolded(p, j, fam, k, m, FoldMirror(m, keep, Truth(w, 0, j, fam, k.table)))
  {
    if j > 0 {
      var i := j - 1;
      FoldFamily(p, w, n, i, fam, k, m, keep);
      var prev := Truth(w, 0, i, fam, k.table);
      FoldMirrorConcat(m, keep, prev, Part(w[i], fam, k.table));
      FoldFamilyStep(p, w, n, i, fam, k, m, FoldMirror(m, keep, prev), keep);
    }
  }

  lemma FoldFamilyStep(p: PWal, w: Wal, n: nat, i: nat, fam: set<Xid>, k: Key, m: Mirror, mid: Mirror, keep: bool)
    requires Setup(p, w, n) && i < |p| && FamilyFolded(p, i, fam, k, m, mid)
    ensures FamilyFolded(p, i + 1, fam, k, m, FoldMirror(mid, keep, Part(w[i], fam, k.table)))
  {
    var h, h' := HeapAt(p, i), HeapAt(p, i + 1);
    assert w[i] == TrueRec(p, i);
    if p[i].PChanges? && p[i].table == k.table && p[i].xid in fam {
      assert Part(w[i], fam, k.table) == Tagged(w[i]);
      FoldRecord(p, w, n, i, mid, keep, k.ctid);
      WrittenTable(p, i, k);
      assert k in Written(h, p[i]) || Targets(p[i], k) ==> TouchedBy(p, i, fam, k);
      if k !in Written(h, p[i]) && k in h' {
        assert k in h && h'[k].writer == h[k].writer && h'[k].img == h[k].img;
        assert Targets(p[i], k) ==> p[i].xid in h'[k].deleters;
      }
    } else {
      assert Part(w[i], fam, k.table) == [];
      WrittenTable(p, i, k);
      assert k in Written(h, p[i]) ==> h'[k].writer == p[i].xid && p[i].xid !in fam;
    }
    assert (forall j :: 0 <= j < i + 1 ==> !TouchedBy(p, j, fam, k)) ==> (forall j :: 0 <= j < i ==> !TouchedBy(p, j, fam, k));
  }

  lemma {:induction false} TupleMapTable(table: nat, tuples: seq<(Ctid, Image)>, k: Key)
    ensures k in TupleMap(table, tuples) ==> k.table == table
    decreases |tuples|
  {
    if tuples != [] {
      TupleMapTable(table, tuples[..|tuples| - 1], k);
    }
  }

  lemma WrittenTable(p: PWal, i: nat, k: Key)
    requires i < |p|
    ensures k in Written(HeapAt(p, i), p[i]) ==> p[i].PChanges? && p[i].table == k.table
    ensures Targets(p[i], k) ==> p[i].PChanges? && p[i].table == k.table
  {
    if p[i].PChanges? && p[i].body.Tuples? {
      TupleMapTable(p[i].table, p[i].body.tuples, k);
    }
  }

  // ---- The mirror along the WAL ---------------------------------------------------------

  lemma StatusUnchanged(w: Wal, i: nat, x: Xid)
    requires i < |w| && !Commits(w[i], x)
    ensures Committed(w, i + 1, x) <==> Committed(w, i, x)
  {
    if Committed(w, i + 1, x) {
      var k :| 0 <= k < i + 1 && k < |w| && Commits(w[k], x);
      assert k < i;
    }
    StatusMono(w, i, x);
  }

  /** A record that commits nothing makes no version live that was not. */
  lemma MirrorKept(p: PWal, w: Wal, n: nat, i: nat, t: nat, m: Mirror)
    requires Setup(p, w, n) && i < |p| && !w[i].Commit? && MirrorOk(p, w, i, t, m)
    ensures MirrorOk(p, w, i + 1, t, m)
  {
    var h, h' := HeapAt(p, i), HeapAt(p, i + 1);
    assert w[i] == TrueRec(p, i);
    forall c | LiveAt(p, w, i + 1, Key(t, c)) ensures LiveAt(p, w, i, Key(t, c)) && h'[Key(t, c)].img == h[Key(t, c)].img {
      var k := Key(t, c);
      StatusUnchanged(w, i, h'[k].writer);
      if k in Written(h, p[i]) {
        NotCommittedYet(w, n, i);
      } else {
        assert k in h && h'[k].writer == h[k].writer && h[k].deleters <= h'[k].deleters;
        forall q | q in h[k].deleters ensures !Committed(w, i, q) { StatusMono(w, i, q); }
      }
    }
  }

  lemma NotCommittedYet(w: Wal, n: nat, i: nat)
    requires WellFormed(w, n) && i < |w| && w[i].Changes?
    ensures !Committed(w, i, w[i].xid)
  {
    StatusMono(w, i, w[i].xid);
  }

  /** Releasing a commit's true ops, either way of folding, yields the mirror after that commit. */
  lemma MirrorCommitted(p: PWal, w: Wal, n: nat, i: nat, t: nat, m: Mirror, keep: bool)
    requires Setup(p, w, n) && i < |p| && w[i].Commit? && MirrorOk(p, w, i, t, m)
    ensures MirrorOk(p, w, i + 1, t, FoldMirror(m, keep, Truth(w, 0, i, XidSet(Family(w[i])), t)))
  {
    var fam := XidSet(Family(w[i]));
    var m' := FoldMirror(m, keep, Truth(w, 0, i, fam, t));
    assert w[i] == TrueRec(p, i);
    assert HeapAt(p, i + 1) == HeapAt(p, i) by { CommitLeavesHeap(p, i); }
    forall c | LiveAt(p, w, i + 1, Key(t, c)) ensures c in m' && m'[c] == HeapAt(p, i)[Key(t, c)].img {
      var k := Key(t, c);
      FoldFamily(p, w, n, i, fam, k, m, keep);
      var s := HeapAt(p, i)[k];
      forall q | q in s.deleters ensures q !in fam {
        assert Commits(w[i], q) <==> q in fam;
      }
      if s.writer !in fam {
        StatusUnchanged(w, i, s.writer);
        forall q | q in s.deleters ensures !Committed(w, i, q) { StatusMono(w, i, q); }
        assert LiveAt(p, w, i, k);
        FamilyDidNotTouch(p, w, n, i, k);
      }
    }
  }

  lemma CommitLeavesHeap(p: PWal, i: nat)
    requires i < |p| && !p[i].PChanges?
    ensures HeapAt(p, i + 1) == HeapAt(p, i)
  {
    var h := HeapAt(p, i);
    assert Written(h, p[i]) == map[];
  }

  /** A committing family touched no slot that, once it has committed, is live under someone else's version. */
  lemma FamilyDidNotTouch(p: PWal, w: Wal, n: nat, i: nat, k: Key)
    requires Setup(p, w, n) && i < |p| && w[i].Commit?
    requires k in HeapAt(p, i) && HeapAt(p, i)[k].writer !in XidSet(Family(w[i]))
    requires HeapAt(p, i)[k].deleters !! XidSet(Family(w[i]))
    ensures forall j :: 0 <= j < i ==> !TouchedBy(p, j, XidSet(Family(w[i])), k)
  {
    var fam := XidSet(Family(w[i]));
    HeapInvariant(p, w, n, i);
    forall j | 0 <= j < i ensures !TouchedBy(p, j, fam, k) {
      var z := p[j].xid;
      if z in fam {
        assert Commits(w[i], z) && Finishes(w[i], z);
        assert !Finished(w, i, z);
      }
    }
  }
}
