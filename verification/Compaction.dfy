/**
 What compaction does to the rows a restart loads (src/sink.rs `compact`, `load_mirror`): which live rows it keeps, and
 when the loaded rows are exactly the table.
 */
module Compaction {
  import opened Base
  import opened TxBuf
  import opened Sink
  import opened Engine
  import opened Stream
  import opened StreamFacts
  import opened Heap
  import opened HeapProof
  import opened MirrorProof
  import opened LiveMirror
  import opened ProtocolProof
  import opened ChangeLog
  import opened TableView
  import opened LogMirror
  import opened Protocol

  // ---- One ctid -------------------------------------------------------------------------

  /** No row of the same key is newer. */
  ghost predicate NewestOfKey(rows: seq<EmitRow>, r: EmitRow, key: KeyFn) {
    forall j :: 0 <= j < |rows| && key(rows[j].row) == key(r.row) ==> !Before(r, rows[j])
  }

  lemma {:induction false} LatestIsNewest(rows: seq<EmitRow>, c: Ctid, j: nat)
    requires j < |rows| && rows[j].ctid == c
    ensures c in LatestByCtid(rows) && !Before(LatestByCtid(rows)[c], rows[j])
    decreases |rows|
  {
    var n := |rows| - 1;
    if j < n {
      LatestIsNewest(rows[..n], c, j);
    }
  }

  lemma SameRow(rows: seq<EmitRow>, a: EmitRow, b: EmitRow)
    requires StrictlyOrdered(rows) && a in rows && b in rows && !Before(a, b) && !Before(b, a)
    ensures a == b
  {
    var i :| 0 <= i < |rows| && rows[i] == a;
    var j :| 0 <= j < |rows| && rows[j] == b;
    assert !(i < j) && !(j < i);
  }

  lemma CompactedMember(rows: seq<EmitRow>, key: KeyFn, r: EmitRow)
    requires StrictlyOrdered(rows)
    ensures r in Compacted(rows, key) <==> r in rows && !r.deleted && NewestOfKey(rows, r, key)
  {
    CompactedIsView(rows, key, r);
    ViewIsQuery(rows, key, key(r.row), r);
  }

  /** A loaded row survives compaction, as the row loaded for its ctid, if and only if it is the newest of its key. */
  lemma CompactAt(rows: seq<EmitRow>, key: KeyFn, c: Ctid)
    requires StrictlyOrdered(rows) && c in LoadRows(rows)
    ensures c in LatestByCtid(rows)
    ensures var after := LoadRows(Compacted(rows, key));
            c in after && after[c] == LoadRows(rows)[c] <==> NewestOfKey(rows, LatestByCtid(rows)[c], key)
  {
    hide LatestByCtid, NewestOfKey;
    var kept, r := Compacted(rows, key), LatestByCtid(rows)[c];
    LatestIsSome(rows, c);
    LatestIsSome(kept, c);
    CompactedMember(rows, key, r);
    if NewestOfKey(rows, r, key) {
      KeptAt(rows, kept, key, c, r);
    } else if c in LoadRows(kept) && LoadRows(kept)[c] == LoadRows(rows)[c] {
      var r' := LatestByCtid(kept)[c];
      CompactedMember(rows, key, r');
      TwinIsSame(rows, key, c, r, r');
    }
  }

  lemma KeptAt(rows: seq<EmitRow>, kept: seq<EmitRow>, key: KeyFn, c: Ctid, r: EmitRow)
    requires StrictlyOrdered(rows) && kept == Compacted(rows, key) && r in kept && r.ctid == c
    requires c in LatestByCtid(rows) && LatestByCtid(rows)[c] == r
    ensures c in LatestByCtid(kept) && LatestByCtid(kept)[c] == r
  {
    hide LatestByCtid;
    var i :| 0 <= i < |kept| && kept[i] == r;
    LatestIsNewest(kept, c, i);
    LatestIsSome(kept, c);
    var r' := LatestByCtid(kept)[c];
    CompactedMember(rows, key, r');
    CompactedMember(rows, key, r);
    var j :| 0 <= j < |rows| && rows[j] == r';
    LatestIsNewest(rows, c, j);
    SameRow(rows, r, r');
  }

  lemma TwinIsSame(rows: seq<EmitRow>, key: KeyFn, c: Ctid, r: EmitRow, r': EmitRow)
    requires StrictlyOrdered(rows) && r in rows && r' in rows && r.ctid == r'.ctid == c && r.row == r'.row
    requires c in LatestByCtid(rows) && LatestByCtid(rows)[c] == r && NewestOfKey(rows, r', key)
    ensures r == r'
  {
    hide LatestByCtid;
    var j :| 0 <= j < |rows| && rows[j] == r';
    LatestIsNewest(rows, c, j);
    var i :| 0 <= i < |rows| && rows[i] == r;
    assert !Before(r', rows[i]);
    SameRow(rows, r, r');
  }

  // ---- The whole table ------------------------------------------------------------------

  /** Every live row's newest log row is the newest of its key in the files. */
  ghost predicate KeepsLive(p: PWal, w: Wal, i: nat, t: nat, stored: seq<EmitRow>, key: KeyFn)
    requires i <= |p|
  {
    forall c :: LiveAt(p, w, i, Key(t, c)) ==> c in LatestByCtid(stored) && NewestOfKey(stored, LatestByCtid(stored)[c], key)
  }

  /** The rows loaded after compaction are right for every live row if and only if each is the newest of its key. */
  lemma CompactKeepsRows(p: PWal, w: Wal, i: nat, t: nat, stored: seq<EmitRow>, key: KeyFn)
    requires i <= |p| && StrictlyOrdered(stored) && RowsOk(p, w, i, t, LoadRows(stored))
    ensures RowsOk(p, w, i, t, LoadRows(Compacted(stored, key))) <==> KeepsLive(p, w, i, t, stored, key)
  {
    hide LatestByCtid, NewestOfKey, HeapAt, LoadRows;
    forall c | LiveAt(p, w, i, Key(t, c))
      ensures var after := LoadRows(Compacted(stored, key));
              c in LatestByCtid(stored)
              && (c in after && after[c] == HeapAt(p, i)[Key(t, c)].img.row <==> NewestOfKey(stored, LatestByCtid(stored)[c], key))
    {
      CompactAt(stored, key, c);
    }
  }

  /** Compacting the files keeps what they stand for, when every live row is the newest of its key. */
  lemma FilesCompact(p: PWal, w: Wal, n: nat, t: nat, log: DeltaLog, stored: seq<EmitRow>, key: KeyFn)
    requires Setup(p, w, n) && log.commitLsn.Some? && FilesOk(p, w, t, log, stored, key)
    requires KeepsLive(p, w, IndexOf(w, log.commitLsn.value), t, stored, key)
    ensures FilesOk(p, w, t, log, Compacted(stored, key), key)
  {
    hide KeepsLive, RowsOk, LoadRows, HeapAt, Represents, TrueRec, Disciplined;
    CompactKeepsRows(p, w, IndexOf(w, log.commitLsn.value), t, stored, key);
    RepresentsCompact(stored, log.rows, key);
    SurvivorsOrdered(stored, key, |stored|);
    assert stored[..|stored|] == stored;
    var kept := Compacted(stored, key);
    forall j | 0 <= j < |kept| ensures kept[j] in log.rows && kept[j].lsn <= log.commitLsn.value {
      assert kept[j] in stored;
    }
  }

  // ---- Unique keys are enough -----------------------------------------------------------

  ghost predicate KeysDistinct(m: Mirror, key: KeyFn) {
    forall c, d :: c in m && d in m && c != d ==> key(Some(m[c].row)) != key(Some(m[d].row))
  }

  ghost predicate DeletesLive(m: Mirror, op: Op) {
    op.Delete? ==> op.ctid in m && op.oldRow == Some(m[op.ctid].row)
  }

  /** After every op the live rows have distinct keys, and every delete logs the live row it removes. */
  ghost predicate UniqueHeld(h: seq<PendingOp>, key: KeyFn) {
    && (forall i :: 0 <= i <= |h| ==> KeysDistinct(FoldMirror(map[], false, h[..i]), key))
    && (forall i :: 0 <= i < |h| ==> DeletesLive(FoldMirror(map[], false, h[..i]), h[i].op))
  }

  /** `rows[i]` is the row of live ctid `c`, and nothing after it has its ctid or its key. */
  ghost predicate LastOf(rows: seq<EmitRow>, m: Mirror, key: KeyFn, c: Ctid, i: nat) {
    && c in m && i < |rows| && rows[i].ctid == c && !rows[i].deleted && rows[i].row == Some(m[c].row)
    && forall j :: i < j < |rows| ==> rows[j].ctid != c && key(rows[j].row) != key(rows[i].row)
  }

  /** The row an op logs has another key than every other row it leaves live. */
  lemma LogsOtherKey(m: Mirror, op: Op, key: KeyFn, r: EmitRow, c: Ctid)
    requires IsRowOf(r, m, op) && DeletesLive(m, op) && KeysDistinct(m, key) && KeysDistinct(MirrorStep(m, op, false), key)
    requires c != op.ctid && c in MirrorStep(m, op, false)
    ensures c in m && m[c] == MirrorStep(m, op, false)[c] && key(r.row) != key(Some(m[c].row))
  {
    if op.Delete? {
      assert op.ctid in m && r.row == Some(m[op.ctid].row);
    } else {
      var m' := MirrorStep(m, op, false);
      assert op.ctid in m' && r.row == Some(m'[op.ctid].row);
    }
  }

  lemma HeldAt(h: seq<PendingOp>, key: KeyFn)
    requires UniqueHeld(h, key) && h != []
    ensures var n := |h| - 1;
            var m := FoldMirror(map[], false, h[..n]);
            && FoldMirror(map[], false, h) == MirrorStep(m, h[n].op, false)
            && KeysDistinct(m, key) && KeysDistinct(FoldMirror(map[], false, h), key) && DeletesLive(m, h[n].op)
  {
    assert h[..|h|] == h;
  }

  lemma {:induction false} LiveRowIsLast(rows: seq<EmitRow>, h: seq<PendingOp>, key: KeyFn, c: Ctid) returns (i: nat)
    requires IsLogOf(rows, h) && UniqueHeld(h, key) && c in FoldMirror(map[], false, h)
    ensures LastOf(rows, FoldMirror(map[], false, h), key, c, i)
    decreases |h|
  {
    hide KeysDistinct, UniqueHeld, IsLogOf;
    assert |rows| == |h| && h != [] by { LogNonEmpty(rows, h, c); }
    var n := |h| - 1;
    var front, op := h[..n], h[n].op;
    var m := FoldMirror(map[], false, front);
    RowAt(rows, h, n, m);
    HeldAt(h, key);
    if op.ctid == c {
      i := n;
    } else {
      FrontHeld(rows, h, key);
      LogsOtherKey(m, op, key, rows[n], c);
      i := LiveRowIsLast(rows[..n], front, key, c);
      LastExtends(rows, m, FoldMirror(map[], false, h), key, c, i);
    }
  }

  lemma LogNonEmpty(rows: seq<EmitRow>, h: seq<PendingOp>, c: Ctid)
    requires IsLogOf(rows, h) && c in FoldMirror(map[], false, h)
    ensures |rows| == |h| && h != []
  {
  }

  lemma LastExtends(rows: seq<EmitRow>, m: Mirror, m': Mirror, key: KeyFn, c: Ctid, i: nat)
    requires rows != [] && LastOf(rows[..|rows| - 1], m, key, c, i) && c in m' && m'[c] == m[c]
    requires var r := rows[|rows| - 1]; r.ctid != c && key(r.row) != key(Some(m[c].row))
    ensures LastOf(rows, m', key, c, i)
  {
    var n := |rows| - 1;
    assert rows[i] == rows[..n][i];
    forall j | i < j < |rows| ensures rows[j].ctid != c && key(rows[j].row) != key(rows[i].row) {
      if j < n {
        assert rows[j] == rows[..n][j];
      }
    }
  }

  lemma FrontHeld(rows: seq<EmitRow>, h: seq<PendingOp>, key: KeyFn)
    requires IsLogOf(rows, h) && UniqueHeld(h, key) && h != []
    ensures IsLogOf(rows[..|h| - 1], h[..|h| - 1]) && UniqueHeld(h[..|h| - 1], key)
  {
    hide FoldMirror;
    var n := |h| - 1;
    assert Erased(rows[..n]) == Erased(rows)[..n] && HistoryEntries(h[..n]) == HistoryEntries(h)[..n];
    forall i | 0 <= i < n ensures DeleteKnown(h[..n][i].op) { assert DeleteKnown(h[i].op); }
    forall i | 0 <= i <= n ensures KeysDistinct(FoldMirror(map[], false, h[..n][..i]), key) {
      assert h[..n][..i] == h[..i];
    }
    forall i | 0 <= i < n ensures DeletesLive(FoldMirror(map[], false, h[..n][..i]), h[..n][i].op) {
      assert h[..n][..i] == h[..i];
      assert DeletesLive(FoldMirror(map[], false, h[..i]), h[i].op);
    }
  }

  lemma LastIsNewest(all: seq<EmitRow>, stored: seq<EmitRow>, m: Mirror, key: KeyFn, c: Ctid, i: nat)
    requires StrictlyOrdered(all) && StrictlyOrdered(stored) && LastOf(all, m, key, c, i) && Represents(stored, all, key)
    requires forall j :: 0 <= j < |stored| ==> stored[j] in all
    ensures c in LatestByCtid(stored) && NewestOfKey(stored, LatestByCtid(stored)[c], key)
  {
    hide LatestByCtid, Represents;
    var r := all[i];
    assert NewestOfKey(all, r, key) by {
      forall j | 0 <= j < |all| && key(all[j].row) == key(r.row) ensures !Before(r, all[j]) {
        NotBefore(all, j, i);
      }
    }
    ViewIsQuery(all, key, key(r.row), r);
    RepresentsView(stored, all, key);
    ViewIsQuery(stored, key, key(r.row), r);
    var k :| 0 <= k < |stored| && stored[k] == r;
    LatestIsNewest(stored, c, k);
    LatestIsSome(stored, c);
    var r' := LatestByCtid(stored)[c];
    var l :| 0 <= l < |all| && all[l] == r';
    NotBefore(all, l, i);
    SameRow(all, r, r');
  }

  lemma NotBefore(rows: seq<EmitRow>, i: nat, j: nat)
    requires StrictlyOrdered(rows) && i <= j < |rows|
    ensures !Before(rows[j], rows[i])
  {
    if i < j {
      assert Before(rows[i], rows[j]);
    }
  }

  /**
   Where live rows always had distinct keys, compaction loses none of them, whatever keys updates changed. So a unique
   primary key is all the loaded mirror needs.
   */
  lemma UniqueKeepsLive(p: PWal, w: Wal, n: nat, t: nat, log: DeltaLog, o: Origin, stored: seq<EmitRow>, key: KeyFn)
    requires Setup(p, w, n) && log.restartLsn.Some? && ExactlyOnce(w, t, log, Some(o)) && OriginOk(p, w, t, o)
    requires FilesOk(p, w, t, log, stored, key) && UniqueHeld(FullHistory(w, t, o, log.commitLsn.value), key)
    ensures KeepsLive(p, w, IndexOf(w, log.commitLsn.value), t, stored, key)
  {
    hide LatestByCtid, NewestOfKey, HeapAt, RowsOk, Represents, UniqueHeld, IsLogOf, FoldMirror, FullHistory, LastOf;
    var hi := log.commitLsn.value;
    var h := FullHistory(w, t, o, hi);
    LogIsHistory(w, n, t, log, o);
    HistoryIsTable(p, w, n, t, o, hi);
    forall c | LiveAt(p, w, IndexOf(w, hi), Key(t, c))
      ensures c in LatestByCtid(stored) && NewestOfKey(stored, LatestByCtid(stored)[c], key)
    {
      var i := LiveRowIsLast(log.rows, h, key, c);
      LastIsNewest(log.rows, stored, FoldMirror(map[], false, h), key, c, i);
    }
  }

  /** Two live rows with one key: compaction takes at least one of them from the loaded mirror. */
  lemma SharedKeyLosesRow(p: PWal, w: Wal, i: nat, t: nat, stored: seq<EmitRow>, key: KeyFn, c: Ctid, d: Ctid)
    requires i <= |p| && StrictlyOrdered(stored) && RowsOk(p, w, i, t, LoadRows(stored))
    requires c != d && LiveAt(p, w, i, Key(t, c)) && LiveAt(p, w, i, Key(t, d))
    requires key(Some(HeapAt(p, i)[Key(t, c)].img.row)) == key(Some(HeapAt(p, i)[Key(t, d)].img.row))
    ensures var before, after := LoadRows(stored), LoadRows(Compacted(stored, key));
            c in before && d in before && !(c in after && after[c] == before[c] && d in after && after[d] == before[d])
  {
    hide LatestByCtid, HeapAt, LiveAt;
    assert c in LoadRows(stored) && d in LoadRows(stored);
    CompactAt(stored, key, c);
    CompactAt(stored, key, d);
    LatestIsSome(stored, c);
    LatestIsSome(stored, d);
    var a, b := LatestByCtid(stored)[c], LatestByCtid(stored)[d];
    if NewestOfKey(stored, a, key) && NewestOfKey(stored, b, key) {
      SameRow(stored, a, b);
    }
  }

  // ---- When loading is exact ------------------------------------------------------------

  /** `m` is the table: exactly the live ctids of `t`, each with its row. */
  ghost predicate RowsExact(p: PWal, w: Wal, i: nat, t: nat, m: RowMap)
    requires i <= |p|
  {
    RowsOk(p, w, i, t, m) && forall c :: c in m ==> LiveAt(p, w, i, Key(t, c))
  }

  /** When the key held throughout the history, the rows loaded after compaction are exactly the table. */
  lemma HeldKeyIsExact(p: PWal, w: Wal, n: nat, t: nat, log: DeltaLog, o: Origin, stored: seq<EmitRow>, key: KeyFn)
    requires Setup(p, w, n) && log.restartLsn.Some? && ExactlyOnce(w, t, log, Some(o)) && OriginOk(p, w, t, o)
    requires FilesOk(p, w, t, log, stored, key) && KeyHeld(FullHistory(w, t, o, log.commitLsn.value), key)
    ensures RowsExact(p, w, IndexOf(w, log.commitLsn.value), t, LoadRows(Compacted(stored, key)))
    ensures KeepsLive(p, w, IndexOf(w, log.commitLsn.value), t, stored, key)
  {
    hide LatestByCtid, NewestOfKey, HeapAt, FoldMirror, FullHistory, KeepsLive, LoadRows;
    var m, q := FoldMirror(map[], false, FullHistory(w, t, o, log.commitLsn.value)), IndexOf(w, log.commitLsn.value);
    FilesShowTable(p, w, n, t, log, o, stored, key);
    CompactionRefreshesMirror(stored, m, key);
    RowsOfMirror(p, w, q, t, m);
    CompactKeepsRows(p, w, q, t, stored, key);
  }

  predicate Away(op: Op, c: Ctid) {
    op.Update? && op.oldCtid == c && op.ctid != c
  }

  /** The ctid was updated away and nothing was written or deleted there since. */
  ghost predicate Lingers(h: seq<PendingOp>, c: Ctid) {
    exists i :: 0 <= i < |h| && Away(h[i].op, c) && forall j :: i < j < |h| ==> h[j].op.ctid != c
  }

  /** Nothing was written or deleted there at all. */
  ghost predicate Unsettled(h: seq<PendingOp>, c: Ctid) {
    forall j :: 0 <= j < |h| ==> h[j].op.ctid != c
  }

  /**
   Replay that keeps an update's old ctid, against replay that drops it: the first has an entry the second has not
   exactly where a ctid lingers, or was such an entry to begin with and was never settled.
   */
  lemma {:induction false} KeptAgainstDropped(k0: Mirror, e0: Mirror, h: seq<PendingOp>, c: Ctid)
    requires e0.Keys <= k0.Keys
    ensures var k, e := FoldMirror(k0, true, h), FoldMirror(e0, false, h);
            && (c in e ==> c in k)
            && (c in k && c !in e <==> c in k && (Lingers(h, c) || (Unsettled(h, c) && c !in e0)))
    decreases |h|
  {
    if h != [] {
      var n := |h| - 1;
      var front, op := h[..n], h[n].op;
      KeptAgainstDropped(k0, e0, front, c);
      assert forall j :: 0 <= j < n ==> front[j] == h[j];
      if op.ctid == c {
        assert !Lingers(h, c);
      } else if Away(op, c) {
        assert Lingers(h, c);
      } else {
        LingersKept(h, c);
      }
    }
  }

  lemma LingersKept(h: seq<PendingOp>, c: Ctid)
    requires h != [] && h[|h| - 1].op.ctid != c && !Away(h[|h| - 1].op, c)
    ensures Lingers(h, c) <==> Lingers(h[..|h| - 1], c)
    ensures Unsettled(h, c) <==> Unsettled(h[..|h| - 1], c)
  {
    var n := |h| - 1;
    var front := h[..n];
    if i :| 0 <= i < |h| && Away(h[i].op, c) && forall j :: i < j < |h| ==> h[j].op.ctid != c {
      assert front[i] == h[i];
      assert forall j :: i < j < n ==> front[j].op.ctid != c;
    }
    if i :| 0 <= i < n && Away(front[i].op, c) && forall j :: i < j < n ==> front[j].op.ctid != c {
      assert Away(h[i].op, c);
      assert forall j :: i < j < |h| ==> h[j].op.ctid != c by {
        forall j | i < j < |h| ensures h[j].op.ctid != c { assert j < n ==> front[j] == h[j]; }
      }
    }
    assert forall j :: 0 <= j < n ==> front[j] == h[j];
  }

  lemma {:induction false} UnsettledLoaded(m: RowMap, h: seq<PendingOp>, c: Ctid)
    requires Unsettled(h, c) && c in FoldEntries(m, HistoryEntries(h))
    ensures c in m
    decreases |h|
  {
    if h != [] {
      var n := |h| - 1;
      assert HistoryEntries(h)[..n] == HistoryEntries(h[..n]) && HistoryEntries(h)[n].ctid == h[n].op.ctid;
      assert Unsettled(h[..n], c) by { assert forall j :: 0 <= j < n ==> h[..n][j] == h[j]; }
      UnsettledLoaded(m, h[..n], c);
    }
  }

  /**
   The rows loaded from files that were right at LSN `lo` and got the entries of the commits up to `hi` since: they are
   exactly the table at `hi` if and only if no loaded ctid lingers, and those never settled were live at `lo`.
   */
  lemma LoadedExactWhen(p: PWal, w: Wal, n: nat, t: nat, rows: RowMap, live: Mirror, lo: Lsn, hi: Lsn)
    requires Setup(p, w, n) && lo <= hi && RowsOk(p, w, IndexOf(w, lo), t, rows) && MirrorExact(p, w, IndexOf(w, lo), t, live)
    ensures var h := History(w, t, |w|, lo, hi);
            var loaded := FoldEntries(rows, HistoryEntries(h));
            RowsExact(p, w, IndexOf(w, hi), t, loaded)
            <==> forall c :: c in loaded ==>
                   !Lingers(h, c) && (Unsettled(h, c) ==> LiveAt(p, w, IndexOf(w, lo), Key(t, c)))
  {
    hide HeapAt, TrueRec, Disciplined, FoldMirror, FoldEntries, History, Lingers, Unsettled, RowsOk, Setup, LiveAt, MirrorExact, Imagined;
    SetupForms(p, w, n);
    var h := History(w, t, |w|, lo, hi);
    assert Tells(h, Expected(w, t, |w|, lo, hi)) by { HistoryIsExpected(w, n, t, |w|, lo, hi); }
    ReplayRows(p, w, n, t, rows, lo, hi);
    var loaded := FoldEntries(rows, HistoryEntries(h));
    forall c | c in loaded
      ensures LiveAt(p, w, IndexOf(w, hi), Key(t, c))
              <==> !Lingers(h, c) && (Unsettled(h, c) ==> LiveAt(p, w, IndexOf(w, lo), Key(t, c)))
    {
      LoadedLive(p, w, n, t, rows, live, lo, hi, c);
    }
  }

  lemma SetupForms(p: PWal, w: Wal, n: nat)
    requires Setup(p, w, n)
    ensures w == TrueWal(p) && |p| == |w| && WellFormed(w, n)
  {
  }

  lemma LoadedLive(p: PWal, w: Wal, n: nat, t: nat, rows: RowMap, live: Mirror, lo: Lsn, hi: Lsn, c: Ctid)
    requires Setup(p, w, n) && lo <= hi && RowsOk(p, w, IndexOf(w, lo), t, rows) && MirrorExact(p, w, IndexOf(w, lo), t, live)
    requires AllKnown(History(w, t, |w|, lo, hi)) && c in FoldEntries(rows, HistoryEntries(History(w, t, |w|, lo, hi)))
    ensures var h := History(w, t, |w|, lo, hi);
            LiveAt(p, w, IndexOf(w, hi), Key(t, c))
            <==> !Lingers(h, c) && (Unsettled(h, c) ==> LiveAt(p, w, IndexOf(w, lo), Key(t, c)))
  {
    hide HeapAt, TrueRec, Disciplined, FoldMirror, FoldEntries, History, Lingers, Unsettled, RowsOk, Setup, LiveAt, Imagined, MirrorExact;
    SetupForms(p, w, n);
    var h, k0 := History(w, t, |w|, lo, hi), Imagined(p, w, IndexOf(w, lo), t, rows);
    ImaginedHolds(p, w, IndexOf(w, lo), t, rows, live);
    EntriesFoldOps(k0, h);
    var k, e := FoldMirror(k0, true, h), FoldMirror(live, false, h);
    assert c in k by { assert c in RowsOf(k); }
    KeptAgainstDropped(k0, live, h, c);
    assert MirrorExact(p, w, IndexOf(w, hi), t, e) by { ReplayBetween(p, w, n, t, live, true, lo, hi); }
    ExactHolds(p, w, IndexOf(w, hi), t, e, c);
    ExactHolds(p, w, IndexOf(w, lo), t, live, c);
  }

  lemma ExactHolds(p: PWal, w: Wal, i: nat, t: nat, m: Mirror, c: Ctid)
    requires i <= |p| && MirrorExact(p, w, i, t, m)
    ensures LiveAt(p, w, i, Key(t, c)) <==> c in m
  {
  }

  lemma ImaginedHolds(p: PWal, w: Wal, i: nat, t: nat, rows: RowMap, live: Mirror)
    requires i <= |p| && RowsOk(p, w, i, t, rows) && MirrorExact(p, w, i, t, live)
    ensures live.Keys <= Imagined(p, w, i, t, rows).Keys && RowsOf(Imagined(p, w, i, t, rows)) == rows
  {
    hide HeapAt;
    var m := Imagined(p, w, i, t, rows);
    forall c | c in rows ensures m[c].row == rows[c] {}
    forall c | c in live ensures c in m {}
  }
}
