/**
 The change log read as a table (src/sink.rs): the latest (lsn, seq) row per key, minus tombstones; compaction to
 that state; and the pre-image mirror rebuilt per ctid.
 */
module ChangeLog {
  import opened Base
  import opened TxBuf
  import opened Sink

  /** The row with the greatest (lsn, seq) per ctid; a later row replaces only when strictly newer. */
  function LatestByCtid(rows: seq<EmitRow>): map<Ctid, EmitRow>
    decreases |rows|
  {
    if rows == [] then map[]
    else
      var m := LatestByCtid(rows[..|rows| - 1]);
      var r := rows[|rows| - 1];
      if r.ctid in m && !Before(m[r.ctid], r) then m else m[r.ctid := r]
  }

  /** The rows `load_mirror` finds: the newest of every ctid, tombstones removed. */
  function LoadRows(rows: seq<EmitRow>): map<Ctid, Row> {
    var m := LatestByCtid(rows);
    map c | c in m && !m[c].deleted && m[c].row.Some? :: m[c].row.value
  }

  /** Where a loaded row's attribute bytes come from: the log does not hold them. */
  type Loader = (Ctid, Row) -> Option<Bytes>

  /** Re-encode the row (`encode_attrs`); a row that does not re-encode takes the bytes now on its page, if any are read. */
  function Reloader(encode: Row -> Option<Bytes>, raw: map<Ctid, Bytes>): Loader {
    (c: Ctid, row: Row) => if encode(row).Some? then encode(row) else if c in raw then Some(raw[c]) else None
  }

  function LoadMirror(rows: seq<EmitRow>, loader: Loader): map<Ctid, Image> {
    var m := LoadRows(rows);
    map c | c in m :: Image(m[c], loader(c, m[c]))
  }

  /**
   `load_mirror` and the refresh after it: one pass keeps the newest row of every ctid, the tombstones go, the others are
   re-encoded, and those that do not re-encode take the bytes read off their page.
   */
  method ReadMirror(rows: seq<EmitRow>, encode: Row -> Option<Bytes>, raw: map<Ctid, Bytes>) returns (mirror: map<Ctid, Image>)
    ensures mirror == LoadMirror(rows, Reloader(encode, raw))
  {
    var latest: map<Ctid, EmitRow> := map[];
    for i := 0 to |rows|
      invariant latest == LatestByCtid(rows[..i])
    {
      var r := rows[i];
      assert rows[..i + 1][..i] == rows[..i];
      if r.ctid in latest && !Before(latest[r.ctid], r) {
        continue;
      }
      latest := latest[r.ctid := r];
    }
    assert rows[..|rows|] == rows;
    mirror := map c | c in latest && !latest[c].deleted && latest[c].row.Some? ::
      Image(latest[c].row.value, encode(latest[c].row.value));
    mirror := map c | c in mirror ::
      if mirror[c].attrs.None? && c in raw then mirror[c].(attrs := Some(raw[c])) else mirror[c];
  }

  lemma {:induction false} LatestIsSome(rows: seq<EmitRow>, c: Ctid)
    ensures c in LatestByCtid(rows) <==> exists j :: 0 <= j < |rows| && rows[j].ctid == c
    ensures c in LatestByCtid(rows) ==> LatestByCtid(rows)[c] in rows && LatestByCtid(rows)[c].ctid == c
    decreases |rows|
  {
    if rows != [] {
      var front, r := rows[..|rows| - 1], rows[|rows| - 1];
      LatestIsSome(front, c);
      if r.ctid != c && c in LatestByCtid(front) {
        var j :| 0 <= j < |front| && front[j].ctid == c;
        assert rows[j].ctid == c;
      }
      assert rows == front + [r];
    }
  }

  // ---- The view -------------------------------------------------------------------------

  /** The primary key of a row, as the string compaction groups by. */
  type KeyFn = Option<Row> -> string

  /** The row with the greatest (lsn, seq) per key; the earlier one of equals. */
  function Best(rows: seq<EmitRow>, key: KeyFn): map<string, EmitRow>
    decreases |rows|
  {
    if rows == [] then map[]
    else
      var m := Best(rows[..|rows| - 1], key);
      var r := rows[|rows| - 1];
      var k := key(r.row);
      if k in m && !Before(m[k], r) then m else m[k := r]
  }

  /** What a reader of the log sees. */
  function View(rows: seq<EmitRow>, key: KeyFn): map<string, EmitRow> {
    var m := Best(rows, key);
    map k | k in m && !m[k].deleted :: m[k]
  }

  /** The reader's query, stated without a scan: the newest row of the key, if it is no tombstone. */
  ghost predicate IsNewest(rows: seq<EmitRow>, key: KeyFn, k: string, r: EmitRow) {
    r in rows && key(r.row) == k && forall j :: 0 <= j < |rows| && key(rows[j].row) == k ==> !Before(r, rows[j])
  }

  lemma {:induction false} BestIsNewest(rows: seq<EmitRow>, key: KeyFn, k: string)
    ensures k in Best(rows, key) <==> exists j :: 0 <= j < |rows| && key(rows[j].row) == k
    ensures k in Best(rows, key) ==> IsNewest(rows, key, k, Best(rows, key)[k])
    decreases |rows|
  {
    if rows != [] {
      var front, r := rows[..|rows| - 1], rows[|rows| - 1];
      BestIsNewest(front, key, k);
      if key(r.row) == k {
        assert key(rows[|rows| - 1].row) == k;
      } else if k in Best(front, key) {
        var j :| 0 <= j < |front| && key(front[j].row) == k;
        assert key(rows[j].row) == k;
      }
      assert rows == front + [r];
    }
  }

  /** The view shows a row for a key exactly when the newest row of that key is no tombstone. */
  lemma ViewIsQuery(rows: seq<EmitRow>, key: KeyFn, k: string, r: EmitRow)
    requires StrictlyOrdered(rows)
    ensures k in View(rows, key) && View(rows, key)[k] == r <==> IsNewest(rows, key, k, r) && !r.deleted
  {
    BestIsNewest(rows, key, k);
    if IsNewest(rows, key, k, r) {
      var b := Best(rows, key)[k];
      var i :| 0 <= i < |rows| && rows[i] == r;
      var j :| 0 <= j < |rows| && rows[j] == b;
      assert key(rows[i].row) == k && key(rows[j].row) == k;
      assert !(i < j) && !(j < i);
    }
  }

  /** The newer of two candidates; the first one of equals. */
  function Newer(a: Option<EmitRow>, b: Option<EmitRow>): Option<EmitRow> {
    if a.None? then b
    else if b.None? || !Before(a.value, b.value) then a
    else b
  }

  function BestOf(rows: seq<EmitRow>, key: KeyFn, k: string): Option<EmitRow> {
    var m := Best(rows, key);
    if k in m then Some(m[k]) else None
  }

  lemma {:induction false} BestConcat(a: seq<EmitRow>, b: seq<EmitRow>, key: KeyFn, k: string)
    ensures BestOf(a + b, key, k) == Newer(BestOf(a, key, k), BestOf(b, key, k))
    decreases |b|
  {
    if b == [] {
      assert a + b == a;
    } else {
      var front, r := b[..|b| - 1], b[|b| - 1];
      BestConcat(a, front, key, k);
      assert (a + b)[..|a + b| - 1] == a + front && (a + b)[|a + b| - 1] == r;
    }
  }

  // ---- Compaction -----------------------------------------------------------------------

  /** Row `i` survives: no tombstone, and the best of its key (the first one of equals). */
  ghost predicate Survives(rows: seq<EmitRow>, key: KeyFn, i: nat)
    requires i < |rows|
  {
    && !rows[i].deleted
    && (forall j :: 0 <= j < i && key(rows[j].row) == key(rows[i].row) ==> Before(rows[j], rows[i]))
    && (forall j :: i < j < |rows| && key(rows[j].row) == key(rows[i].row) ==> !Before(rows[i], rows[j]))
  }

  /** The surviving rows among the first `n`, in log order. */
  ghost function Survivors(rows: seq<EmitRow>, key: KeyFn, n: nat): seq<EmitRow>
    requires n <= |rows|
  {
    if n == 0 then []
    else Survivors(rows, key, n - 1) + (if Survives(rows, key, n - 1) then [rows[n - 1]] else [])
  }

  /**
   `compact`: one pass finds the best row index per key, then the surviving rows are taken in index order.
   */
  method Compact(rows: seq<EmitRow>, key: KeyFn) returns (out: seq<EmitRow>)
    ensures out == Survivors(rows, key, |rows|)
  {
    var best: map<string, nat> := map[];
    for i := 0 to |rows|
      invariant forall k :: k in best ==> best[k] < i && key(rows[best[k]].row) == k
      invariant forall j :: 0 <= j < i ==> key(rows[j].row) in best
      invariant forall j :: 0 <= j < i ==>
                  var b := best[key(rows[j].row)];
                  if j < b then Before(rows[j], rows[b]) else j == b || !Before(rows[b], rows[j])
    {
      var k := key(rows[i].row);
      if k !in best || Before(rows[best[k]], rows[i]) {
        best := best[k := i];
      }
    }
    out := [];
    for i := 0 to |rows|
      invariant out == Survivors(rows, key, i)
    {
      if best[key(rows[i].row)] == i && !rows[i].deleted {
        out := out + [rows[i]];
      }
    }
  }

  lemma {:induction false} SurvivorsMember(rows: seq<EmitRow>, key: KeyFn, n: nat, r: EmitRow)
    requires n <= |rows|
    ensures r in Survivors(rows, key, n) <==> exists i :: 0 <= i < n && rows[i] == r && Survives(rows, key, i)
  {
    if n > 0 {
      SurvivorsMember(rows, key, n - 1, r);
    }
  }

  /** The row Best settles on is at an index that no row before ties with and no row after beats. */
  lemma {:induction false} BestIndex(rows: seq<EmitRow>, key: KeyFn, k: string) returns (i: nat)
    requires k in Best(rows, key)
    ensures i < |rows| && rows[i] == Best(rows, key)[k] && key(rows[i].row) == k
    ensures forall j :: 0 <= j < i && key(rows[j].row) == k ==> Before(rows[j], rows[i])
    ensures forall j :: i < j < |rows| && key(rows[j].row) == k ==> !Before(rows[i], rows[j])
    decreases |rows|
  {
    var front, r := rows[..|rows| - 1], rows[|rows| - 1];
    var m := Best(front, key);
    if key(r.row) == k && (k !in m || Before(m[k], r)) {
      i := |rows| - 1;
      if k in m {
        var b := BestIndex(front, key, k);
        forall j | 0 <= j < i && key(rows[j].row) == k ensures Before(rows[j], rows[i]) {
          assert rows[j] == front[j];
          assert j < b ==> Before(front[j], front[b]);
          assert b < j ==> !Before(front[b], front[j]);
        }
      } else {
        BestIsNewest(front, key, k);
        assert forall j :: 0 <= j < i ==> rows[j] == front[j];
      }
    } else {
      i := BestIndex(front, key, k);
      forall j | 0 <= j < i && key(rows[j].row) == k ensures Before(rows[j], rows[i]) {
        assert rows[j] == front[j];
      }
      forall j | i < j < |rows| && key(rows[j].row) == k ensures !Before(rows[i], rows[j]) {
        assert j < |front| ==> rows[j] == front[j];
      }
    }
  }

  ghost function Compacted(rows: seq<EmitRow>, key: KeyFn): seq<EmitRow> {
    Survivors(rows, key, |rows|)
  }

  /** Compaction keeps the best row of every key that is not deleted, and nothing of the others. */
  lemma CompactedBest(rows: seq<EmitRow>, key: KeyFn, k: string)
    ensures var b := BestOf(rows, key, k);
            BestOf(Compacted(rows, key), key, k) == if b.Some? && !b.value.deleted then b else None
  {
    var c := Compacted(rows, key);
    BestIsNewest(c, key, k);
    BestIsNewest(rows, key, k);
    if k in Best(c, key) {
      var r := Best(c, key)[k];
      SurvivorsMember(rows, key, |rows|, r);
      var i :| 0 <= i < |rows| && rows[i] == r && Survives(rows, key, i);
      var b := BestIndex(rows, key, k);
      assert key(rows[i].row) == k && key(rows[b].row) == k;
      assert b == i;
    } else if k in Best(rows, key) && !Best(rows, key)[k].deleted {
      var b := BestIndex(rows, key, k);
      assert Survives(rows, key, b);
      SurvivorsMember(rows, key, |rows|, rows[b]);
    }
  }

  /** A deleted key's tombstone in `rows` outranks the live row that `more` holds for the same key. */
  ghost predicate TombstoneHides(rows: seq<EmitRow>, more: seq<EmitRow>, key: KeyFn, k: string) {
    var a, b := BestOf(rows, key, k), BestOf(more, key, k);
    a.Some? && a.value.deleted && b.Some? && !b.value.deleted && !Before(a.value, b.value)
  }

  /**
   Compaction followed by any further rows reads like the full log followed by them, exactly when no tombstone that
   compaction dropped would have hidden one of the further rows.
   */
  lemma CompactionPreservesView(rows: seq<EmitRow>, more: seq<EmitRow>, key: KeyFn)
    ensures View(Compacted(rows, key) + more, key) == View(rows + more, key)
            <==> forall k :: !TombstoneHides(rows, more, key, k)
  {
    var v, v' := View(rows + more, key), View(Compacted(rows, key) + more, key);
    forall k
      ensures TombstoneHides(rows, more, key, k) ==> k in v' && k !in v
      ensures !TombstoneHides(rows, more, key, k) ==> (k in v <==> k in v') && (k in v ==> v[k] == v'[k])
    {
      BestConcat(rows, more, key, k);
      BestConcat(Compacted(rows, key), more, key, k);
      CompactedBest(rows, key, k);
      ViewAt(rows + more, key, k);
      ViewAt(Compacted(rows, key) + more, key, k);
    }
  }

  lemma ViewAt(rows: seq<EmitRow>, key: KeyFn, k: string)
    ensures var b := BestOf(rows, key, k);
            && (k in View(rows, key) <==> b.Some? && !b.value.deleted)
            && (k in View(rows, key) ==> View(rows, key)[k] == b.value)
  {
  }

  /** Every row of `more` is newer than every row of `rows`: what is appended above a log's watermark. */
  ghost predicate AllAfter(rows: seq<EmitRow>, more: seq<EmitRow>) {
    forall i, j :: 0 <= i < |rows| && 0 <= j < |more| ==> Before(rows[i], more[j])
  }

  lemma AppendsAreNotHidden(rows: seq<EmitRow>, more: seq<EmitRow>, key: KeyFn)
    requires AllAfter(rows, more)
    ensures View(Compacted(rows, key) + more, key) == View(rows + more, key)
  {
    forall k ensures !TombstoneHides(rows, more, key, k) {
      BestIsNewest(rows, key, k);
      BestIsNewest(more, key, k);
    }
    CompactionPreservesView(rows, more, key);
  }

  /** A dropped tombstone and an older live row brought back in: the deleted key reappears. */
  lemma HiddenRowReappears()
    ensures exists rows: seq<EmitRow>, more: seq<EmitRow>, key: KeyFn ::
              View(Compacted(rows, key) + more, key) != View(rows + more, key)
  {
    var key: KeyFn := (row: Option<Row>) => "k";
    var live := EmitRow(1, 1, false, Ctid(0, 1), Some([]));
    var dead := EmitRow(2, 1, true, Ctid(0, 1), Some([]));
    assert [dead][..0] == [] && [live][..0] == [];
    assert Best([dead], key) == map["k" := dead] && Best([live], key) == map["k" := live];
    assert TombstoneHides([dead], [live], key, "k");
    CompactionPreservesView([dead], [live], key);
  }

  // ---- Any timing of appends and compactions --------------------------------------------

  /** The log reads like `all` for every key and holds no row `all` would not show as its key's best. */
  ghost predicate Represents(log: seq<EmitRow>, all: seq<EmitRow>, key: KeyFn) {
    forall k ::
      var a, b := BestOf(all, key, k), BestOf(log, key, k);
      b == a || (b.None? && a.Some? && a.value.deleted)
  }

  lemma RepresentsAppend(log: seq<EmitRow>, all: seq<EmitRow>, more: seq<EmitRow>, key: KeyFn)
    requires Represents(log, all, key) && AllAfter(all, more)
    ensures Represents(log + more, all + more, key)
  {
    forall k ensures var a, b := BestOf(all + more, key, k), BestOf(log + more, key, k);
                     b == a || (b.None? && a.Some? && a.value.deleted)
    {
      BestConcat(all, more, key, k);
      BestConcat(log, more, key, k);
      BestIsNewest(all, key, k);
      BestIsNewest(more, key, k);
    }
  }

  lemma RepresentsCompact(log: seq<EmitRow>, all: seq<EmitRow>, key: KeyFn)
    requires Represents(log, all, key)
    ensures Represents(Compacted(log, key), all, key)
  {
    forall k ensures var a, b := BestOf(all, key, k), BestOf(Compacted(log, key), key, k);
                     b == a || (b.None? && a.Some? && a.value.deleted)
    {
      CompactedBest(log, key, k);
    }
  }

  datatype LogAction = AppendRows(rows: seq<EmitRow>) | CompactNow

  ghost function RunLog(acts: seq<LogAction>, key: KeyFn): seq<EmitRow>
    decreases |acts|
  {
    if acts == [] then []
    else
      var log := RunLog(acts[..|acts| - 1], key);
      match acts[|acts| - 1]
      case AppendRows(rows) => log + rows
      case CompactNow => Compacted(log, key)
  }

  function Appended(acts: seq<LogAction>): seq<EmitRow>
    decreases |acts|
  {
    if acts == [] then []
    else Appended(acts[..|acts| - 1]) + (if acts[|acts| - 1].AppendRows? then acts[|acts| - 1].rows else [])
  }

  lemma OrderedSplit(a: seq<EmitRow>, b: seq<EmitRow>)
    requires StrictlyOrdered(a + b)
    ensures StrictlyOrdered(a) && StrictlyOrdered(b) && AllAfter(a, b)
  {
    forall i, j | 0 <= i < j < |a| ensures Before(a[i], a[j]) {
      assert (a + b)[i] == a[i] && (a + b)[j] == a[j];
    }
    forall i, j | 0 <= i < j < |b| ensures Before(b[i], b[j]) {
      assert (a + b)[|a| + i] == b[i] && (a + b)[|a| + j] == b[j];
    }
    forall i, j | 0 <= i < |a| && 0 <= j < |b| ensures Before(a[i], b[j]) {
      assert (a + b)[i] == a[i] && (a + b)[|a| + j] == b[j];
    }
  }

  /** Whatever the timing of compactions, the log represents everything appended to it. */
  lemma {:induction false} LogRepresentsAppended(acts: seq<LogAction>, key: KeyFn)
    requires StrictlyOrdered(Appended(acts))
    ensures Represents(RunLog(acts, key), Appended(acts), key)
    ensures View(RunLog(acts, key), key) == View(Appended(acts), key)
    decreases |acts|
  {
    if acts != [] {
      var front, a := acts[..|acts| - 1], acts[|acts| - 1];
      match a {
        case AppendRows(rows) =>
          OrderedSplit(Appended(front), rows);
          LogRepresentsAppended(front, key);
          RepresentsAppend(RunLog(front, key), Appended(front), rows, key);
        case CompactNow =>
          assert Appended(acts) == Appended(front);
          LogRepresentsAppended(front, key);
          RepresentsCompact(RunLog(front, key), Appended(front), key);
      }
    }
    RepresentsView(RunLog(acts, key), Appended(acts), key);
  }

  lemma RepresentsView(log: seq<EmitRow>, all: seq<EmitRow>, key: KeyFn)
    requires Represents(log, all, key)
    ensures View(log, key) == View(all, key)
  {
    forall k ensures (k in View(log, key) <==> k in View(all, key)) && (k in View(log, key) ==> View(log, key)[k] == View(all, key)[k]) {
      ViewAt(log, key, k);
      ViewAt(all, key, k);
    }
  }

  /** The merged read: a log representing the first `f` rows, plus the rows from `a <= f` on, reads like all of them. */
  lemma MergedRead(log: seq<EmitRow>, all: seq<EmitRow>, f: nat, a: nat, key: KeyFn)
    requires StrictlyOrdered(all) && a <= f <= |all| && Represents(log, all[..f], key)
    ensures View(log + all[a..], key) == View(all, key)
  {
    var tail, head := all[a..], all[..f];
    forall k ensures (k in View(log + tail, key) <==> k in View(all, key))
                     && (k in View(all, key) ==> View(log + tail, key)[k] == View(all, key)[k])
    {
      BestConcat(log, tail, key, k);
      BestConcat(all[..a], tail, key, k);
      assert all == all[..a] + tail;
      ViewAt(log + tail, key, k);
      ViewAt(all, key, k);
      MergedBest(log, all, f, a, key, k);
    }
  }

  lemma MergedBest(log: seq<EmitRow>, all: seq<EmitRow>, f: nat, a: nat, key: KeyFn, k: string)
    requires StrictlyOrdered(all) && a <= f <= |all| && Represents(log, all[..f], key)
    ensures var x, y := BestOf(all, key, k), Newer(BestOf(log, key, k), BestOf(all[a..], key, k));
            x == y || (y.None? && x.Some? && x.value.deleted)
  {
    var head, mid, late, tail := all[..a], all[a..f], all[f..], all[a..];
    assert all == head + tail && all[..f] == head + mid && tail == mid + late && all == all[..f] + late;
    OrderedSplit(head, tail);
    OrderedSplit(all[..f], late);
    BestConcat(head, tail, key, k);
    BestConcat(head, mid, key, k);
    BestConcat(mid, late, key, k);
    BestConcat(all[..f], late, key, k);
    BestIsNewest(head, key, k);
    BestIsNewest(mid, key, k);
    BestIsNewest(late, key, k);
    BestIsNewest(tail, key, k);
    BestIsNewest(all[..f], key, k);
  }
}
