/** The mirror that drops replaced ctids holds the committed live rows and nothing else. */
module LiveMirror {
  import opened TxBuf
  import opened Engine
  import opened Stream
  import opened Heap
  import opened HeapProof
  import opened MirrorProof

  /** `m` is the table: exactly the live ctids of `t`, each with its version. */
  ghost predicate MirrorExact(p: PWal, w: Wal, i: nat, t: nat, m: Mirror)
    requires i <= |p|
  {
    MirrorOk(p, w, i, t, m) && forall c :: c in m ==> LiveAt(p, w, i, Key(t, c))
  }

  /** Every mark on a version was made after the version was written. */
  lemma {:induction false} DeleterMarked(p: PWal, i: nat, k: Key, q: Xid) returns (j: nat)
    requires i <= |p| && k in HeapAt(p, i) && q in HeapAt(p, i)[k].deleters
    ensures j < i && p[j].xid == q && Targets(p[j], k)
    ensures forall l :: j <= l < i ==> k !in Written(HeapAt(p, l), p[l])
  {
    var h := HeapAt(p, i - 1);
    if k in h && q in h[k].deleters {
      j := DeleterMarked(p, i - 1, k, q);
    } else {
      j := i - 1;
    }
  }

  // ---- Records that commit nothing ------------------------------------------------------

  lemma LiveKept(p: PWal, w: Wal, n: nat, i: nat, k: Key)
    requires Setup(p, w, n) && i < |p| && !w[i].Commit? && LiveAt(p, w, i, k)
    ensures LiveAt(p, w, i + 1, k)
  {
    var h, h' := HeapAt(p, i), HeapAt(p, i + 1);
    assert DisciplinedAt(p, w, i);
    assert w[i] == TrueRec(p, i);
    if k in Written(h, p[i]) {
      assert Free(w, i, h, k);
      if Aborted(w, i, h[k].writer) {
        AbortedNeverCommits(w, n, i, h[k].writer);
      }
      assert false;
    }
    StatusMono(w, i, h[k].writer);
    forall q | q in h'[k].deleters ensures !Committed(w, i + 1, q) {
      StatusUnchanged(w, i, q);
      if q !in h[k].deleters {
        NotCommittedYet(w, n, i);
      }
    }
  }

  lemma ExactKept(p: PWal, w: Wal, n: nat, i: nat, t: nat, m: Mirror)
    requires Setup(p, w, n) && i < |p| && !w[i].Commit? && MirrorExact(p, w, i, t, m)
    ensures MirrorExact(p, w, i + 1, t, m)
  {
    MirrorKept(p, w, n, i, t, m);
    forall c | c in m ensures LiveAt(p, w, i + 1, Key(t, c)) {
      LiveKept(p, w, n, i, Key(t, c));
    }
  }

  // ---- A committing family --------------------------------------------------------------

  ghost predicate Untouched(p: PWal, lo: nat, hi: nat, fam: set<Xid>, k: Key)
    requires hi <= |p|
  {
    forall j :: lo <= j < hi ==> !TouchedBy(p, j, fam, k)
  }

  /** Record `l` wrote the slot for the family, which has not touched it since. */
  ghost predicate LastWrite(p: PWal, j: nat, fam: set<Xid>, k: Key, l: nat)
    requires j <= |p|
  {
    l < j && p[l].xid in fam && k in Written(HeapAt(p, l), p[l]) && Untouched(p, l + 1, j, fam, k)
  }

  ghost predicate HasReason(p: PWal, j: nat, fam: set<Xid>, k: Key, m: Mirror, m': Mirror)
    requires j <= |p|
  {
    k.ctid in m' ==> (Untouched(p, 0, j, fam, k) && k.ctid in m) || exists l: nat :: LastWrite(p, j, fam, k, l)
  }

  lemma {:induction false} FoldedHasReason(p: PWal, w: Wal, n: nat, j: nat, fam: set<Xid>, k: Key, m: Mirror)
    requires Setup(p, w, n) && j <= |p|
    ensures HasReason(p, j, fam, k, m, FoldMirror(m, false, Truth(w, 0, j, fam, k.table)))
  {
    if j > 0 {
      var i := j - 1;
      FoldedHasReason(p, w, n, i, fam, k, m);
      var prev := Truth(w, 0, i, fam, k.table);
      FoldMirrorConcat(m, false, prev, Part(w[i], fam, k.table));
      ReasonStep(p, w, n, i, fam, k, m, FoldMirror(m, false, prev));
    }
  }

  lemma ReasonStep(p: PWal, w: Wal, n: nat, i: nat, fam: set<Xid>, k: Key, m: Mirror, mid: Mirror)
    requires Setup(p, w, n) && i < |p| && HasReason(p, i, fam, k, m, mid)
    ensures HasReason(p, i + 1, fam, k, m, FoldMirror(mid, false, Part(w[i], fam, k.table)))
  {
    assert w[i] == TrueRec(p, i);
    WrittenTable(p, i, k);
    var m' := FoldMirror(mid, false, Part(w[i], fam, k.table));
    if TouchedBy(p, i, fam, k) {
      assert Part(w[i], fam, k.table) == Tagged(w[i]);
      if k in Written(HeapAt(p, i), p[i]) {
        assert LastWrite(p, i + 1, fam, k, i);
      } else {
        TargetDropped(p, w, n, i, mid, k);
      }
    } else {
      if p[i].PChanges? && p[i].table == k.table && p[i].xid in fam {
        assert Part(w[i], fam, k.table) == Tagged(w[i]);
        FoldRecord(p, w, n, i, mid, false, k.ctid);
      } else {
        assert Part(w[i], fam, k.table) == [];
      }
      assert k.ctid in m' ==> k.ctid in mid;
      if l: nat :| LastWrite(p, i, fam, k, l) {
        assert LastWrite(p, i + 1, fam, k, l);
      }
    }
  }

  /** An update or delete takes the ctid it targets out of the mirror. */
  lemma TargetDropped(p: PWal, w: Wal, n: nat, i: nat, m: Mirror, k: Key)
    requires Setup(p, w, n) && i < |p| && Targets(p[i], k) && k !in Written(HeapAt(p, i), p[i])
    ensures w[i].Changes? && k.ctid !in FoldMirror(m, false, Tagged(w[i]))
  {
    assert DisciplinedAt(p, w, i);
    assert w[i] == TrueRec(p, i);
    var op := Decode(p[i].body.change, TruePre(HeapAt(p, i), p[i])).value;
    assert Tagged(w[i])[..0] == [] && Tagged(w[i])[0].op == op && |Tagged(w[i])| == 1;
    assert FoldMirror(m, false, Tagged(w[i])) == MirrorStep(m, op, false);
  }

  lemma UntouchedStaysLive(p: PWal, w: Wal, n: nat, i: nat, k: Key)
    requires Setup(p, w, n) && i < |p| && w[i].Commit? && LiveAt(p, w, i, k)
    requires Untouched(p, 0, i, XidSet(Family(w[i])), k)
    ensures LiveAt(p, w, i + 1, k)
  {
    assert w[i] == TrueRec(p, i);
    CommitLeavesHeap(p, i);
    var s := HeapAt(p, i)[k];
    StatusMono(w, i, s.writer);
    forall q | q in s.deleters ensures !Committed(w, i + 1, q) {
      if Commits(w[i], q) {
        var j := DeleterMarked(p, i, k, q);
        assert TouchedBy(p, j, XidSet(Family(w[i])), k);
      } else {
        StatusUnchanged(w, i, q);
      }
    }
  }

  lemma LastWriteIsLive(p: PWal, w: Wal, n: nat, i: nat, k: Key, l: nat)
    requires Setup(p, w, n) && i < |p| && w[i].Commit? && LastWrite(p, i, XidSet(Family(w[i])), k, l)
    ensures LiveAt(p, w, i + 1, k)
  {
    var x, fam := p[l].xid, XidSet(Family(w[i]));
    assert w[i] == TrueRec(p, i);
    CommitLeavesHeap(p, i);
    HeapInvariant(p, w, n, i);
    assert Finishes(w[i], x) && Commits(w[i], x);
    assert !Finished(w, i, x);
    StatusMono(w, i, x);
    assert WriteStays(p, i, l, k);
    var s := HeapAt(p, i)[k];
    assert MarksOk(w, i, s);
    forall q | q in s.deleters ensures !Committed(w, i + 1, q) {
      var j := DeleterMarked(p, i, k, q);
      assert j > l;
      assert !TouchedBy(p, j, fam, k);
      assert !Commits(w[i], q);
      StatusUnchanged(w, i, q);
      if Committed(w, i, q) {
        TogetherCommitted(w, i, q, x);
      }
    }
  }

  lemma ExactCommitted(p: PWal, w: Wal, n: nat, i: nat, t: nat, m: Mirror)
    requires Setup(p, w, n) && i < |p| && w[i].Commit? && MirrorExact(p, w, i, t, m)
    ensures MirrorExact(p, w, i + 1, t, FoldMirror(m, false, Truth(w, 0, i, XidSet(Family(w[i])), t)))
  {
    var fam := XidSet(Family(w[i]));
    var m' := FoldMirror(m, false, Truth(w, 0, i, fam, t));
    MirrorCommitted(p, w, n, i, t, m, false);
    forall c | c in m' ensures LiveAt(p, w, i + 1, Key(t, c)) {
      FoldedHasReason(p, w, n, i, fam, Key(t, c), m);
      if l: nat :| LastWrite(p, i, fam, Key(t, c), l) {
        LastWriteIsLive(p, w, n, i, Key(t, c), l);
      } else {
        UntouchedStaysLive(p, w, n, i, Key(t, c));
      }
    }
  }
}
