/** What the lock discipline preserves about heap slots, at every WAL position. */
module HeapProof {
  import opened TxBuf
  import opened Stream
  import opened Heap

  /** `p` is a disciplined physical WAL and `w` its correctly decoded form. */
  ghost predicate Setup(p: PWal, w: Wal, n: nat) {
    w == TrueWal(p) && WellFormed(w, n) && Disciplined(p)
  }

  /** Whoever marked a version either saw its writer commit or commits together with it. */
  ghost predicate MarksOk(w: Wal, i: nat, s: Slot) {
    && (forall q :: q in s.deleters ==> Committed(w, i, s.writer) || Together(w, q, s.writer))
    && (forall q1, q2 :: q1 in s.deleters && q2 in s.deleters && q1 != q2 ==> Aborted(w, i, q1) || Aborted(w, i, q2))
  }

  ghost predicate SlotsOk(w: Wal, i: nat, h: Slots) {
    forall k :: k in h ==> MarksOk(w, i, h[k])
  }

  ghost predicate WillCommit(w: Wal, x: Xid) {
    exists k :: 0 <= k < |w| && Commits(w[k], x)
  }

  /** A version written by an unfinished transaction stays where it was written. */
  ghost predicate WritesStay(p: PWal, w: Wal, i: nat)
    requires i <= |p|
  {
    forall j, k :: 0 <= j < i && k in Written(HeapAt(p, j), p[j]) && !Finished(w, i, p[j].xid) ==>
      WriteStays(p, i, j, k)
  }

  ghost predicate WriteStays(p: PWal, i: nat, j: nat, k: Key)
    requires j < i <= |p| && k in Written(HeapAt(p, j), p[j])
  {
    var h := HeapAt(p, i);
    k in h && h[k].writer == p[j].xid && h[k].img == Written(HeapAt(p, j), p[j])[k]
  }

  /** A version marked by an unfinished transaction that will commit stays, with the mark. */
  ghost predicate MarksStay(p: PWal, w: Wal, i: nat)
    requires i <= |p|
  {
    forall j, k :: 0 <= j < i && Targets(p[j], k) && WillCommit(w, p[j].xid) && !Finished(w, i, p[j].xid) ==>
      MarkStays(p, i, j, k)
  }

  ghost predicate MarkStays(p: PWal, i: nat, j: nat, k: Key)
    requires j < i <= |p|
  {
    var was, h := HeapAt(p, j), HeapAt(p, i);
    k in was && k in h && h[k].writer == was[k].writer && h[k].img == was[k].img && p[j].xid in h[k].deleters
  }

  // ---- Status facts ---------------------------------------------------------------------

  lemma StatusMono(w: Wal, i: nat, x: Xid)
    ensures Finished(w, i, x) ==> Finished(w, i + 1, x)
    ensures Committed(w, i, x) ==> Committed(w, i + 1, x) && Finished(w, i, x)
    ensures Aborted(w, i, x) ==> Aborted(w, i + 1, x) && Finished(w, i, x)
  {
    if Committed(w, i, x) {
      var k :| 0 <= k < i && k < |w| && Commits(w[k], x);
      assert Finishes(w[k], x);
    }
    if Aborted(w, i, x) {
      var k :| 0 <= k < i && k < |w| && w[k].Abort? && x in Family(w[k]);
      assert Finishes(w[k], x);
    }
  }

  /** A transaction that aborted never commits. */
  lemma AbortedNeverCommits(w: Wal, n: nat, i: nat, x: Xid)
    requires WellFormed(w, n) && Aborted(w, i, x)
    ensures !WillCommit(w, x)
    ensures !Committed(w, i, x)
  {
    var a :| 0 <= a < i && a < |w| && w[a].Abort? && x in Family(w[a]);
    assert Finishes(w[a], x);
    forall k | 0 <= k < |w| ensures !Commits(w[k], x) {
      if Commits(w[k], x) {
        assert Finishes(w[k], x);
      }
    }
  }

  lemma TogetherCommitted(w: Wal, i: nat, q: Xid, y: Xid)
    requires Committed(w, i, q) && Together(w, q, y)
    ensures Committed(w, i, y)
  {
    var k :| 0 <= k < i && k < |w| && Commits(w[k], q);
    assert Commits(w[k], y);
  }

  // ---- A slot in use is not free --------------------------------------------------------

  /** The slot of an unfinished writer is not free. */
  lemma WriterHoldsSlot(w: Wal, n: nat, i: nat, h: Slots, k: Key)
    requires WellFormed(w, n) && SlotsOk(w, i, h) && k in h && !Finished(w, i, h[k].writer)
    ensures !Free(w, i, h, k)
  {
    StatusMono(w, i, h[k].writer);
    assert MarksOk(w, i, h[k]);
    forall q | q in h[k].deleters ensures !Committed(w, i, q) {
      if Committed(w, i, q) && Together(w, q, h[k].writer) {
        TogetherCommitted(w, i, q, h[k].writer);
      }
    }
  }

  /** The slot marked by an unfinished transaction that will commit is not free. */
  lemma MarkerHoldsSlot(w: Wal, n: nat, i: nat, h: Slots, k: Key, z: Xid)
    requires WellFormed(w, n) && SlotsOk(w, i, h) && k in h && z in h[k].deleters
    requires WillCommit(w, z) && !Finished(w, i, z)
    ensures !Free(w, i, h, k)
    ensures forall q :: q in h[k].deleters ==> !Committed(w, i, q)
  {
    var y := h[k].writer;
    assert MarksOk(w, i, h[k]);
    StatusMono(w, i, z);
    if Aborted(w, i, y) {
      AbortedNeverCommits(w, n, i, y);
    }
    forall q | q in h[k].deleters ensures !Committed(w, i, q) {
      if q != z && Aborted(w, i, q) {
        AbortedNeverCommits(w, n, i, q);
      }
    }
  }

  // ---- Induction over the WAL -----------------------------------------------------------

  lemma SlotsOkStep(p: PWal, w: Wal, n: nat, i: nat)
    requires Setup(p, w, n) && i < |p| && SlotsOk(w, i, HeapAt(p, i))
    ensures SlotsOk(w, i + 1, HeapAt(p, i + 1))
  {
    var h, h' := HeapAt(p, i), HeapAt(p, i + 1);
    assert DisciplinedAt(p, w, i);
    forall k | k in h' ensures MarksOk(w, i + 1, h'[k]) {
      if k in Written(h, p[i]) {
        assert h'[k].deleters == {};
      } else {
        assert k in h && MarksOk(w, i, h[k]);
        MarksOkLater(w, i, h[k]);
        if Targets(p[i], k) {
          assert Lockable(w, i, h, p[i].xid, k);
          forall q | q in h[k].deleters ensures Aborted(w, i + 1, q) { StatusMono(w, i, q); }
          StatusMono(w, i, h[k].writer);
          assert h'[k].deleters == h[k].deleters + {p[i].xid} && h'[k].writer == h[k].writer;
        }
      }
    }
  }

  lemma MarksOkLater(w: Wal, i: nat, s: Slot)
    requires MarksOk(w, i, s)
    ensures MarksOk(w, i + 1, s)
  {
    StatusMono(w, i, s.writer);
    forall q | q in s.deleters && Aborted(w, i, q) ensures Aborted(w, i + 1, q) { StatusMono(w, i, q); }
  }

  lemma WritesStayStep(p: PWal, w: Wal, n: nat, i: nat)
    requires Setup(p, w, n) && i < |p| && SlotsOk(w, i, HeapAt(p, i)) && WritesStay(p, w, i)
    ensures WritesStay(p, w, i + 1)
  {
    var h := HeapAt(p, i);
    assert DisciplinedAt(p, w, i);
    forall j, k | 0 <= j < i + 1 && k in Written(HeapAt(p, j), p[j]) && !Finished(w, i + 1, p[j].xid)
      ensures WriteStays(p, i + 1, j, k)
    {
      if j < i {
        StatusMono(w, i, p[j].xid);
        assert WriteStays(p, i, j, k);
        WriterHoldsSlot(w, n, i, h, k);
        assert k !in Written(h, p[i]);
      }
    }
  }

  lemma MarksStayStep(p: PWal, w: Wal, n: nat, i: nat)
    requires Setup(p, w, n) && i < |p| && SlotsOk(w, i, HeapAt(p, i)) && MarksStay(p, w, i)
    ensures MarksStay(p, w, i + 1)
  {
    var h := HeapAt(p, i);
    assert DisciplinedAt(p, w, i);
    forall j, k | 0 <= j < i + 1 && Targets(p[j], k) && WillCommit(w, p[j].xid) && !Finished(w, i + 1, p[j].xid)
      ensures MarkStays(p, i + 1, j, k)
    {
      StatusMono(w, i, p[j].xid);
      if j < i {
        assert MarkStays(p, i, j, k);
        MarkerHoldsSlot(w, n, i, h, k, p[j].xid);
        assert k !in Written(h, p[i]);
      } else {
        assert Lockable(w, i, h, p[i].xid, k);
        LockableNotFree(w, n, i, h, p[i].xid, k);
        assert k !in Written(h, p[i]);
      }
    }
  }

  lemma LockableNotFree(w: Wal, n: nat, i: nat, h: Slots, x: Xid, k: Key)
    requires WellFormed(w, n) && Lockable(w, i, h, x, k)
    ensures !Free(w, i, h, k)
  {
    forall q | q in h[k].deleters ensures !Committed(w, i, q) {
      AbortedNeverCommits(w, n, i, q);
    }
    StatusMono(w, i, h[k].writer);
    if Aborted(w, i, h[k].writer) {
      AbortedNeverCommits(w, n, i, h[k].writer);
    }
  }

  /** At every WAL position: marks are consistent, and versions and marks of unfinished transactions stay in place. */
  lemma {:induction false} HeapInvariant(p: PWal, w: Wal, n: nat, i: nat)
    requires Setup(p, w, n) && i <= |p|
    ensures SlotsOk(w, i, HeapAt(p, i)) && WritesStay(p, w, i) && MarksStay(p, w, i)
  {
    if i > 0 {
      HeapInvariant(p, w, n, i - 1);
      SlotsOkStep(p, w, n, i - 1);
      WritesStayStep(p, w, n, i - 1);
      MarksStayStep(p, w, n, i - 1);
    }
  }
}
