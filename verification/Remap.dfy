/**
 Remapping a table (src/engine.rs `remap_table`): tombstone everything the mirror holds, then log a fresh snapshot. The
 log reads like that snapshot exactly when nothing already logged outranks what the remap writes.
 */
module Remap {
  import opened Base
  import opened TxBuf
  import opened Sink
  import opened Engine
  import opened ChangeLog

  /** One tombstone for every mirror entry, in the order the map was drained, numbered on from `seqno`. */
  ghost predicate Drained(tombs: seq<EmitRow>, m: Mirror, lsn: Lsn, seqno: nat) {
    DrainedOf(tombs, m, m.Keys, lsn, seqno)
  }

  ghost predicate DrainedOf(tombs: seq<EmitRow>, m: Mirror, done: set<Ctid>, lsn: Lsn, seqno: nat) {
    && done <= m.Keys
    && (forall i :: 0 <= i < |tombs| ==> tombs[i].ctid in done && tombs[i] == Tombstone(m, tombs[i].ctid, lsn, seqno + 1 + i))
    && (forall i, j :: 0 <= i < j < |tombs| ==> tombs[i].ctid != tombs[j].ctid)
    && (forall c :: c in done ==> exists i :: 0 <= i < |tombs| && tombs[i].ctid == c)
  }

  function Tombstone(m: Mirror, c: Ctid, lsn: Lsn, seqno: nat): EmitRow
    requires c in m
  {
    EmitRow(lsn, seqno, true, c, Some(m[c].row))
  }

  function FreshRows(snap: seq<(Ctid, Image)>, cutover: Lsn, seqno: nat): seq<EmitRow> {
    seq(|snap|, i requires 0 <= i < |snap| => EmitRow(cutover, seqno + 1 + i, false, snap[i].0, Some(snap[i].1.row)))
  }

  function FreshMirror(snap: seq<(Ctid, Image)>): Mirror
    decreases |snap|
  {
    if snap == [] then map[] else FreshMirror(snap[..|snap| - 1])[snap[|snap| - 1].0 := snap[|snap| - 1].1]
  }

  /** Empty the mirror into the pending batch, in whatever order the map gives. */
  method DrainMirror(t: Table, lsn: Lsn) returns (pending: Pending)
    ensures t.pending.rows <= pending.rows
    ensures Drained(pending.rows[|t.pending.rows|..], t.mirror, lsn, t.pending.seqno)
    ensures pending.seqno == t.pending.seqno + |pending.rows| - |t.pending.rows|
  {
    pending := t.pending;
    ghost var tombs: seq<EmitRow> := [];
    var left := t.mirror.Keys;
    while left != {}
      invariant pending.rows == t.pending.rows + tombs && pending.seqno == t.pending.seqno + |tombs|
      invariant left <= t.mirror.Keys && DrainedOf(tombs, t.mirror, t.mirror.Keys - left, lsn, t.pending.seqno)
      decreases left
    {
      var c :| c in left;
      DrainedOne(tombs, t.mirror, t.mirror.Keys - left, c, lsn, t.pending.seqno);
      assert t.mirror.Keys - (left - {c}) == t.mirror.Keys - left + {c};
      tombs := tombs + [Tombstone(t.mirror, c, lsn, pending.seqno + 1)];
      pending := Emit(pending, lsn, true, c, Some(t.mirror[c].row));
      left := left - {c};
    }
    assert t.mirror.Keys - left == t.mirror.Keys;
    assert pending.rows[|t.pending.rows|..] == tombs;
  }

  lemma DrainedOne(tombs: seq<EmitRow>, m: Mirror, done: set<Ctid>, c: Ctid, lsn: Lsn, seqno: nat)
    requires DrainedOf(tombs, m, done, lsn, seqno) && c in m && c !in done
    ensures DrainedOf(tombs + [Tombstone(m, c, lsn, seqno + |tombs| + 1)], m, done + {c}, lsn, seqno)
  {
    var more := tombs + [Tombstone(m, c, lsn, seqno + |tombs| + 1)];
    assert more[|tombs|].ctid == c;
    forall d | d in done ensures exists i :: 0 <= i < |more| && more[i].ctid == d {
      var i :| 0 <= i < |tombs| && tombs[i].ctid == d;
      assert more[i].ctid == d;
    }
  }

  /** The snapshot's rows for the mirror and for the log. */
  method TakeSnapshot(snap: seq<(Ctid, Image)>, cutover: Lsn, seqno: nat) returns (mirror: Mirror, emits: seq<EmitRow>)
    ensures mirror == FreshMirror(snap) && emits == FreshRows(snap, cutover, seqno)
  {
    mirror, emits := map[], [];
    for i := 0 to |snap|
      invariant mirror == FreshMirror(snap[..i])
      invariant emits == FreshRows(snap, cutover, seqno)[..i]
    {
      assert snap[..i + 1][..i] == snap[..i];
      mirror := mirror[snap[i].0 := snap[i].1];
      emits := emits + [EmitRow(cutover, seqno + 1 + i, false, snap[i].0, Some(snap[i].1.row))];
    }
    assert snap[..|snap|] == snap;
  }

  /**
   The mirror's entries leave as tombstones behind what is pending, in one append; the snapshot follows in a second one,
   even when it is empty.
   */
  method RemapTable(t: Table, log: DeltaLog, tombstoneLsn: Lsn, restart: Lsn, cutover: Lsn, snap: seq<(Ctid, Image)>)
      returns (t': Table, log': DeltaLog, ghost tombs: seq<EmitRow>)
    ensures Drained(tombs, t.mirror, tombstoneLsn, t.pending.seqno)
    ensures log'.rows == log.rows + t.pending.rows + tombs + FreshRows(snap, cutover, t.pending.seqno + |tombs|)
    ensures log'.commitLsn == Some(cutover) && log'.restartLsn == Some(restart)
    ensures t'.dedupeBelow == cutover && t'.mirror == FreshMirror(snap) && t'.pending.rows == []
    ensures t'.pending.seqno == t.pending.seqno + |tombs| + |snap|
  {
    hide Drained, FreshRows, FreshMirror;
    var pending := DrainMirror(t, tombstoneLsn);
    tombs := pending.rows[|t.pending.rows|..];
    assert pending.rows == t.pending.rows + tombs;
    log' := log;
    if pending.rows != [] {
      log' := Append(log', pending.rows, pending.maxCommit, restart);
      pending := pending.(rows := []);
    }
    assert log'.rows == log.rows + t.pending.rows + tombs;
    var mirror, emits := TakeSnapshot(snap, cutover, pending.seqno);
    log' := Append(log', emits, cutover, restart);
    t' := Table(cutover, mirror, pending.(seqno := pending.seqno + |snap|));
  }

  // ---- When the log reads like the snapshot ---------------------------------------------

  ghost predicate OnePerKey(snap: seq<(Ctid, Image)>, key: KeyFn) {
    forall i, j :: 0 <= i < j < |snap| ==> key(Some(snap[i].1.row)) != key(Some(snap[j].1.row))
  }

  /** Every row the log shows has its key in the mirror. */
  ghost predicate KeysCovered(m: Mirror, rows: seq<EmitRow>, key: KeyFn) {
    forall k :: k in View(rows, key) ==> exists c :: c in m && key(Some(m[c].row)) == k
  }

  /** A reader sees the snapshot's rows and nothing else. */
  ghost predicate ReadsAs(all: seq<EmitRow>, taken: seq<EmitRow>, key: KeyFn) {
    && (forall i :: 0 <= i < |taken| ==> key(taken[i].row) in View(all, key) && View(all, key)[key(taken[i].row)] == taken[i])
    && (forall k :: k in View(all, key) ==> View(all, key)[k] in taken)
  }

  /** The snapshot row of a key is newer than the log's newest row and than the tombstones of that key. */
  ghost predicate SnapshotWins(rows: seq<EmitRow>, m: Mirror, lsn: Lsn, s: EmitRow, key: KeyFn) {
    var b := BestOf(rows, key, key(s.row));
    && (b.None? || Before(b.value, s) || b.value == s)
    && ((exists c :: c in m && key(Some(m[c].row)) == key(s.row)) ==> lsn <= s.lsn)
  }

  /** The row shown for a key that the snapshot no longer has is older than one of the key's tombstones. */
  ghost predicate TombstoneWins(rows: seq<EmitRow>, tombs: seq<EmitRow>, k: string, key: KeyFn) {
    k in View(rows, key) ==> exists i :: 0 <= i < |tombs| && key(tombs[i].row) == k && Before(View(rows, key)[k], tombs[i])
  }

  predicate HasKey(taken: seq<EmitRow>, k: string, key: KeyFn) {
    exists i :: 0 <= i < |taken| && key(taken[i].row) == k
  }

  lemma {:induction false} BestTombstone(tombs: seq<EmitRow>, m: Mirror, lsn: Lsn, seqno: nat, key: KeyFn, k: string)
    requires Drained(tombs, m, lsn, seqno)
    ensures var b := BestOf(tombs, key, k);
            && (b.Some? <==> exists c :: c in m && key(Some(m[c].row)) == k)
            && (b.Some? ==> b.value.deleted && b.value.lsn == lsn && b.value.seqno <= seqno + |tombs|)
            && (b.Some? ==> exists i :: 0 <= i < |tombs| && tombs[i] == b.value && key(tombs[i].row) == k)
            && (b.Some? ==> forall i :: 0 <= i < |tombs| && key(tombs[i].row) == k ==> !Before(b.value, tombs[i]))
  {
    BestIsNewest(tombs, key, k);
    if c :| c in m && key(Some(m[c].row)) == k {
      var i :| 0 <= i < |tombs| && tombs[i].ctid == c;
      assert key(tombs[i].row) == k;
    }
  }

  lemma BestFresh(taken: seq<EmitRow>, key: KeyFn, k: string)
    requires forall i, j :: 0 <= i < j < |taken| ==> key(taken[i].row) != key(taken[j].row)
    ensures BestOf(taken, key, k).Some? <==> HasKey(taken, k, key)
    ensures forall i :: 0 <= i < |taken| && key(taken[i].row) == k ==> BestOf(taken, key, k) == Some(taken[i])
  {
    BestIsNewest(taken, key, k);
  }

  /** One key of the snapshot: the reader sees the snapshot's row exactly when it wins. */
  lemma FreshKey(rows: seq<EmitRow>, tombs: seq<EmitRow>, taken: seq<EmitRow>, m: Mirror, lsn: Lsn, seqno: nat, key: KeyFn, i: nat)
    requires Drained(tombs, m, lsn, seqno) && i < |taken|
    requires forall a, b :: 0 <= a < b < |taken| ==> key(taken[a].row) != key(taken[b].row)
    requires forall a :: 0 <= a < |taken| ==> !taken[a].deleted && taken[a].seqno > seqno + |tombs|
    ensures var k, all := key(taken[i].row), rows + tombs + taken;
            && (k in View(all, key) && View(all, key)[k] == taken[i] <==> SnapshotWins(rows, m, lsn, taken[i], key))
            && (k in View(all, key) && View(all, key)[k] in taken ==> View(all, key)[k] == taken[i])
  {
    var k := key(taken[i].row);
    BestConcat(rows + tombs, taken, key, k);
    BestConcat(rows, tombs, key, k);
    BestFresh(taken, key, k);
    BestTombstone(tombs, m, lsn, seqno, key, k);
    BestIsNewest(rows + tombs + taken, key, k);
  }

  /** A key the snapshot does not have: the reader sees nothing exactly when the key was not shown or its tombstone wins. */
  lemma OtherKey(rows: seq<EmitRow>, tombs: seq<EmitRow>, taken: seq<EmitRow>, m: Mirror, lsn: Lsn, seqno: nat, key: KeyFn, k: string)
    requires Drained(tombs, m, lsn, seqno) && !HasKey(taken, k, key)
    ensures k !in View(rows + tombs + taken, key) <==> TombstoneWins(rows, tombs, k, key)
  {
    BestConcat(rows + tombs, taken, key, k);
    BestConcat(rows, tombs, key, k);
    BestIsNewest(taken, key, k);
    BestTombstone(tombs, m, lsn, seqno, key, k);
    BestIsNewest(tombs, key, k);
  }

  ghost predicate NothingOutranks(rows: seq<EmitRow>, tombs: seq<EmitRow>, taken: seq<EmitRow>, m: Mirror, lsn: Lsn, key: KeyFn) {
    && (forall i :: 0 <= i < |taken| ==> SnapshotWins(rows, m, lsn, taken[i], key))
    && (forall k :: !HasKey(taken, k, key) ==> TombstoneWins(rows, tombs, k, key))
  }

  /**
   After a remap the log reads as the fresh snapshot, if and only if nothing logged before outranks it: every row shown
   for a vanished key is older than its tombstone, and every snapshot row newer than the log and the tombstones.
   */
  lemma RemapReadsAsSnapshot(rows: seq<EmitRow>, tombs: seq<EmitRow>, snap: seq<(Ctid, Image)>, m: Mirror, lsn: Lsn, cutover: Lsn,
                             seqno: nat, key: KeyFn)
    requires Drained(tombs, m, lsn, seqno) && OnePerKey(snap, key)
    ensures var taken := FreshRows(snap, cutover, seqno + |tombs|);
            ReadsAs(rows + tombs + taken, taken, key) <==> NothingOutranks(rows, tombs, taken, m, lsn, key)
  {
    hide View, Best, BestOf, SnapshotWins, TombstoneWins;
    var taken := FreshRows(snap, cutover, seqno + |tombs|);
    var all := rows + tombs + taken;
    forall i | 0 <= i < |taken|
      ensures var k := key(taken[i].row);
              && (k in View(all, key) && View(all, key)[k] == taken[i] <==> SnapshotWins(rows, m, lsn, taken[i], key))
    {
      FreshKey(rows, tombs, taken, m, lsn, seqno, key, i);
    }
    forall k | !HasKey(taken, k, key) ensures k !in View(all, key) <==> TombstoneWins(rows, tombs, k, key) {
      OtherKey(rows, tombs, taken, m, lsn, seqno, key, k);
    }
    forall k | k in View(all, key) ensures key(View(all, key)[k].row) == k {
      ViewHasKey(all, key, k);
    }
  }

  lemma ViewHasKey(all: seq<EmitRow>, key: KeyFn, k: string)
    requires k in View(all, key)
    ensures key(View(all, key)[k].row) == k
  {
    BestIsNewest(all, key, k);
  }

  /** Enough for a caller: tombstones above everything logged, and a cutover no lower than the tombstones. */
  lemma HighTombstonesSuffice(rows: seq<EmitRow>, tombs: seq<EmitRow>, snap: seq<(Ctid, Image)>, m: Mirror, lsn: Lsn, cutover: Lsn,
                              seqno: nat, key: KeyFn)
    requires Drained(tombs, m, lsn, seqno) && OnePerKey(snap, key) && KeysCovered(m, rows, key)
    requires lsn <= cutover && forall i :: 0 <= i < |rows| ==> rows[i].lsn < lsn
    ensures var taken := FreshRows(snap, cutover, seqno + |tombs|); ReadsAs(rows + tombs + taken, taken, key)
  {
    var taken := FreshRows(snap, cutover, seqno + |tombs|);
    forall i | 0 <= i < |taken| ensures SnapshotWins(rows, m, lsn, taken[i], key) {
      BestIsNewest(rows, key, key(taken[i].row));
    }
    forall k | !HasKey(taken, k, key) ensures TombstoneWins(rows, tombs, k, key) {
      if k in View(rows, key) {
        BestIsNewest(rows, key, k);
        var c :| c in m && key(Some(m[c].row)) == k;
        var i :| 0 <= i < |tombs| && tombs[i].ctid == c;
        assert key(tombs[i].row) == k;
      }
    }
    RemapReadsAsSnapshot(rows, tombs, snap, m, lsn, cutover, seqno, key);
  }

  /**
   The re-snapshot after lost records (src/embed.rs `resnapshot_all`) puts its tombstones right above the watermark the
   run started from, which flushing does not raise. Every row logged above that and deleted in the lost part stays.
   */
  lemma ResnapshotLingers(rows: seq<EmitRow>, tombs: seq<EmitRow>, snap: seq<(Ctid, Image)>, m: Mirror, dedupeBelow: Lsn,
                          cutover: Lsn, seqno: nat, key: KeyFn, k: string)
    requires Drained(tombs, m, dedupeBelow + 1, seqno)
    requires k in View(rows, key) && View(rows, key)[k].lsn > dedupeBelow + 1
    requires forall i :: 0 <= i < |snap| ==> key(Some(snap[i].1.row)) != k
    ensures k in View(rows + tombs + FreshRows(snap, cutover, seqno + |tombs|), key)
  {
    OtherKey(rows, tombs, FreshRows(snap, cutover, seqno + |tombs|), m, dedupeBelow + 1, seqno, key, k);
  }

  function OneKey(row: Option<Row>): string { "k" }

  ghost predicate Spoiled(rows: seq<EmitRow>, tombs: seq<EmitRow>, m: Mirror) {
    && Drained(tombs, m, 10 + 1, 1) && KeysCovered(m, rows, OneKey)
    && !ReadsAs(rows + tombs + FreshRows([], 30, 1 + |tombs|), FreshRows([], 30, 1 + |tombs|), OneKey)
  }

  /** For instance, one row, flushed at LSN 20 of a run that started at 10, against an empty snapshot at 30. */
  lemma LostDeleteStays()
    ensures exists rows: seq<EmitRow>, tombs: seq<EmitRow>, m: Mirror :: Spoiled(rows, tombs, m)
  {
    var c := Ctid(0, 1);
    var rows, m: Mirror := [EmitRow(20, 1, false, c, Some([]))], map[c := Image([], None)];
    var tombs := [Tombstone(m, c, 11, 2)];
    assert tombs[0].ctid == c;
    assert Drained(tombs, m, 10 + 1, 1);
    BestIsNewest(rows, OneKey, "k");
    assert OneKey(rows[0].row) == "k";
    assert OneKey(Some(m[c].row)) == "k";
    assert forall k :: k in View(rows, OneKey) ==> k == "k" by {
      forall k | k in View(rows, OneKey) ensures k == "k" { ViewHasKey(rows, OneKey, k); }
    }
    assert KeysCovered(m, rows, OneKey);
    ResnapshotLingers(rows, tombs, [], m, 10, 30, 1, OneKey, "k");
    assert Spoiled(rows, tombs, m);
  }
}
