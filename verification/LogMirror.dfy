/** Replaying a table's change log, from its snapshot on, gives the table at the log's watermark. */
module LogMirror {
  import opened Base
  import opened TxBuf
  import opened Sink
  import opened Engine
  import opened Stream
  import opened StreamFacts
  import opened Heap
  import opened HeapProof
  import opened MirrorProof
  import opened LiveMirror
  import opened Protocol
  import opened ProtocolProof
  import opened ChangeLog
  import opened TableView

  type RowMap = map<Ctid, Row>

  function EntryStep(m: RowMap, e: Entry): RowMap {
    if e.deleted || e.row.None? then m - {e.ctid} else m[e.ctid := e.row.value]
  }

  function FoldEntries(m: RowMap, es: seq<Entry>): RowMap
    decreases |es|
  {
    if es == [] then m else EntryStep(FoldEntries(m, es[..|es| - 1]), es[|es| - 1])
  }

  lemma {:induction false} FoldEntriesConcat(m: RowMap, a: seq<Entry>, b: seq<Entry>)
    ensures FoldEntries(m, a + b) == FoldEntries(FoldEntries(m, a), b)
    decreases |b|
  {
    if b == [] {
      assert a + b == a;
    } else {
      FoldEntriesConcat(m, a, b[..|b| - 1]);
      assert (a + b)[..|a + b| - 1] == a + b[..|b| - 1];
    }
  }

  lemma {:induction false} EntriesFoldOps(m: Mirror, h: seq<PendingOp>)
    requires AllKnown(h)
    ensures FoldEntries(RowsOf(m), HistoryEntries(h)) == RowsOf(FoldMirror(m, true, h))
    decreases |h|
  {
    if h != [] {
      EntriesFoldOps(m, h[..|h| - 1]);
      assert HistoryEntries(h)[..|h| - 1] == HistoryEntries(h[..|h| - 1]);
      assert DeleteKnown(h[|h| - 1].op);
    }
  }

  // ---- Loading is a fold -------------------------------------------------------------

  /** Along a strictly ordered log, latest-per-ctid is plain left-to-right replay. */
  lemma {:induction false} LoadMirrorIsReplay(rows: seq<EmitRow>)
    requires StrictlyOrdered(rows)
    ensures LoadRows(rows) == FoldEntries(map[], Erased(rows))
    decreases |rows|
  {
    hide LatestByCtid;
    if rows != [] {
      var front, r := rows[..|rows| - 1], rows[|rows| - 1];
      LoadMirrorIsReplay(front);
      assert Erased(rows)[..|rows| - 1] == Erased(front);
      LatestReplaces(rows);
    } else {
      assert LoadRows(rows) == map[] by { LatestNothing(); }
    }
  }

  lemma LatestNothing()
    ensures LatestByCtid([]) == map[]
  {
  }

  /** The last row of an ordered log is the newest of its ctid. */
  lemma LatestReplaces(rows: seq<EmitRow>)
    requires StrictlyOrdered(rows) && rows != []
    ensures var front, r := rows[..|rows| - 1], rows[|rows| - 1];
            LatestByCtid(rows) == LatestByCtid(front)[r.ctid := r]
  {
    var front, r := rows[..|rows| - 1], rows[|rows| - 1];
    if r.ctid in LatestByCtid(front) {
      LatestIsSome(front, r.ctid);
      var i :| 0 <= i < |front| && front[i] == LatestByCtid(front)[r.ctid];
      assert Before(rows[i], rows[|rows| - 1]);
    }
  }

  // ---- Snapshots ------------------------------------------------------------------------

  /** `i` separates the records before the cutover from those at or after it. */
  ghost predicate CutAt(w: Wal, cutover: Lsn, i: nat) {
    i <= |w| && forall j :: 0 <= j < |w| ==> (j < i <==> w[j].lsn < cutover)
  }

  /** The snapshot's table lock: nobody who wrote the table before the cut is still in flight there. */
  ghost predicate Quiet(w: Wal, t: nat, i: nat) {
    forall j, x :: 0 <= j < i && j < |w| && Writes(w[j], t, x) ==> Finished(w, i, x)
  }

  /** The snapshot lists exactly the live rows at the cut. */
  ghost predicate SnapshotIs(p: PWal, w: Wal, t: nat, i: nat, snap: seq<(Ctid, Image)>)
    requires i <= |p|
  {
    && (forall c :: LiveAt(p, w, i, Key(t, c)) ==> exists e :: 0 <= e < |snap| && snap[e].0 == c)
    && (forall e :: 0 <= e < |snap| ==>
          LiveAt(p, w, i, Key(t, snap[e].0)) && snap[e].1 == HeapAt(p, i)[Key(t, snap[e].0)].img)
  }

  ghost predicate OriginOk(p: PWal, w: Wal, t: nat, o: Origin) {
    exists i: nat :: i <= |p| && CutAt(w, o.cutover, i) && Quiet(w, t, i) && SnapshotIs(p, w, t, i, o.snap)
  }

  lemma QuietCovers(w: Wal, n: nat, t: nat, cut: Lsn, i: nat)
    requires WellFormed(w, n) && CutAt(w, cut, i) && Quiet(w, t, i)
    ensures Covered(w, t, cut, cut)
  {
    forall k, j, x | 0 <= j < k < |w| && Commits(w[k], x) && w[k].lsn > cut && Writes(w[j], t, x) ensures w[j].lsn >= cut {
      if j < i {
        assert Finished(w, i, x);
        assert Finishes(w[k], x);
      }
    }
  }

  // ---- The history a log records --------------------------------------------------------

  function SnapOps(o: Origin): seq<PendingOp> {
    seq(|o.snap|, i requires 0 <= i < |o.snap| => PendingOp(o.cutover, 0, Insert(o.snap[i].0, o.snap[i].1)))
  }

  function Stamp(lsn: Lsn, ops: seq<PendingOp>): seq<PendingOp> {
    seq(|ops|, i requires 0 <= i < |ops| => PendingOp(lsn, ops[i].table, ops[i].op))
  }

  /** The ops of the commits among the first `n` records with `lo < lsn <= hi`, in commit order. */
  function History(w: Wal, t: nat, n: nat, lo: Lsn, hi: Lsn): seq<PendingOp>
    requires n <= |w|
  {
    if n == 0 then []
    else
      var r := w[n - 1];
      History(w, t, n - 1, lo, hi)
      + (if r.Commit? && lo < r.lsn <= hi then Stamp(r.lsn, Truth(w, 0, n - 1, XidSet(Family(r)), t)) else [])
  }

  /** Everything a log with this origin and watermark records. */
  function FullHistory(w: Wal, t: nat, o: Origin, hi: Lsn): seq<PendingOp> {
    SnapOps(o) + History(w, t, |w|, o.cutover, hi)
  }

  lemma HistoryEntriesConcat(a: seq<PendingOp>, b: seq<PendingOp>)
    ensures HistoryEntries(a + b) == HistoryEntries(a) + HistoryEntries(b)
    ensures AllKnown(a) && AllKnown(b) ==> AllKnown(a + b)
  {
  }

  lemma StampEntries(lsn: Lsn, ops: seq<PendingOp>)
    requires AllKnown(ops)
    ensures HistoryEntries(Stamp(lsn, ops)) == Entries(lsn, ops) && AllKnown(Stamp(lsn, ops))
  {
    forall i | 0 <= i < |ops| ensures DeleteKnown(Stamp(lsn, ops)[i].op) {
      assert DeleteKnown(ops[i].op);
    }
  }

  /** `h` is what the entries `es` say. */
  ghost predicate Tells(h: seq<PendingOp>, es: seq<Entry>) {
    HistoryEntries(h) == es && AllKnown(h)
  }

  lemma TellsMore(h: seq<PendingOp>, es: seq<Entry>, lsn: Lsn, ops: seq<PendingOp>)
    requires Tells(h, es) && AllKnown(ops)
    ensures Tells(h + Stamp(lsn, ops), es + Entries(lsn, ops))
  {
    StampEntries(lsn, ops);
    HistoryEntriesConcat(h, Stamp(lsn, ops));
  }

  lemma {:induction false} HistoryIsExpected(w: Wal, k: nat, t: nat, n: nat, lo: Lsn, hi: Lsn)
    requires WellFormed(w, k) && n <= |w|
    ensures Tells(History(w, t, n, lo, hi), Expected(w, t, n, lo, hi))
  {
    hide Truth;
    if n > 0 {
      HistoryIsExpected(w, k, t, n - 1, lo, hi);
      var r := w[n - 1];
      if r.Commit? && lo < r.lsn <= hi {
        var ops := Truth(w, 0, n - 1, XidSet(Family(r)), t);
        assert AllKnown(ops) by { TruthOk(w, k, 0, n - 1, XidSet(Family(r)), t); }
        TellsMore(History(w, t, n - 1, lo, hi), Expected(w, t, n - 1, lo, hi), r.lsn, ops);
      }
    }
  }

  lemma TellsAll(w: Wal, t: nat, o: Origin, hi: Lsn)
    requires Tells(History(w, t, |w|, o.cutover, hi), Expected(w, t, |w|, o.cutover, hi))
    ensures Tells(FullHistory(w, t, o, hi), SnapEntries(o) + Expected(w, t, |w|, o.cutover, hi))
  {
    assert HistoryEntries(SnapOps(o)) == SnapEntries(o);
    assert AllKnown(SnapOps(o));
    HistoryEntriesConcat(SnapOps(o), History(w, t, |w|, o.cutover, hi));
  }

  lemma LogIsHistory(w: Wal, n: nat, t: nat, log: DeltaLog, o: Origin)
    requires WellFormed(w, n) && log.restartLsn.Some? && ExactlyOnce(w, t, log, Some(o))
    ensures IsLogOf(log.rows, FullHistory(w, t, o, log.commitLsn.value))
  {
    var hi := log.commitLsn.value;
    HistoryIsExpected(w, n, t, |w|, o.cutover, hi);
    TellsAll(w, t, o, hi);
    var h := FullHistory(w, t, o, hi);
    assert |Erased(log.rows)| == |log.rows| && |HistoryEntries(h)| == |h|;
  }

  lemma {:induction false} FoldStamp(m: Mirror, keep: bool, lsn: Lsn, ops: seq<PendingOp>)
    ensures FoldMirror(m, keep, Stamp(lsn, ops)) == FoldMirror(m, keep, ops)
    decreases |ops|
  {
    if ops != [] {
      FoldStamp(m, keep, lsn, ops[..|ops| - 1]);
      assert Stamp(lsn, ops)[..|ops| - 1] == Stamp(lsn, ops[..|ops| - 1]);
    }
  }

  // ---- Replay ---------------------------------------------------------------------------

  /** The number of records at or below an LSN. */
  function IndexOf(w: Wal, l: Lsn): (q: nat)
    ensures q <= |w|
    ensures Increasing(w) ==> forall j :: 0 <= j < |w| ==> (j < q <==> w[j].lsn <= l)
    decreases |w|
  {
    if w == [] then 0
    else if w[|w| - 1].lsn <= l then |w|
    else
      assert Increasing(w) ==> Increasing(w[..|w| - 1]);
      IndexOf(w[..|w| - 1], l)
  }

  /** `exact`: the table itself. Otherwise at least every live row, with stale entries allowed. */
  ghost predicate MirrorAt(p: PWal, w: Wal, i: nat, t: nat, m: Mirror, exact: bool)
    requires i <= |p|
  {
    if exact then MirrorExact(p, w, i, t, m) else MirrorOk(p, w, i, t, m)
  }

  lemma MirrorRecord(p: PWal, w: Wal, n: nat, i: nat, t: nat, m: Mirror, exact: bool)
    requires Setup(p, w, n) && i < |p| && MirrorAt(p, w, i, t, m, exact)
    ensures !w[i].Commit? ==> MirrorAt(p, w, i + 1, t, m, exact)
    ensures w[i].Commit? ==>
              MirrorAt(p, w, i + 1, t, FoldMirror(m, !exact, Truth(w, 0, i, XidSet(Family(w[i])), t)), exact)
  {
    if w[i].Commit? {
      if exact { ExactCommitted(p, w, n, i, t, m); } else { MirrorCommitted(p, w, n, i, t, m, true); }
    } else {
      if exact { ExactKept(p, w, n, i, t, m); } else { MirrorKept(p, w, n, i, t, m); }
    }
  }

  ghost predicate Replays(p: PWal, w: Wal, t: nat, m: Mirror, exact: bool, q: nat, lo: Lsn, hi: Lsn)
    requires q <= |p| == |w|
  {
    MirrorAt(p, w, q, t, FoldMirror(m, !exact, History(w, t, q, lo, hi)), exact)
  }

  lemma ReplaysMore(p: PWal, w: Wal, n: nat, t: nat, m: Mirror, exact: bool, i: nat, lo: Lsn, hi: Lsn)
    requires Setup(p, w, n) && i < |p| && lo < w[i].lsn <= hi && Replays(p, w, t, m, exact, i, lo, hi)
    ensures Replays(p, w, t, m, exact, i + 1, lo, hi)
  {
    var h := History(w, t, i, lo, hi);
    MirrorRecord(p, w, n, i, t, FoldMirror(m, !exact, h), exact);
    if w[i].Commit? {
      var ops := Truth(w, 0, i, XidSet(Family(w[i])), t);
      assert History(w, t, i + 1, lo, hi) == h + Stamp(w[i].lsn, ops);
      FoldMirrorConcat(m, !exact, h, Stamp(w[i].lsn, ops));
      FoldStamp(FoldMirror(m, !exact, h), !exact, w[i].lsn, ops);
    } else {
      assert History(w, t, i + 1, lo, hi) == h;
    }
  }

  lemma ReplaysNothing(p: PWal, w: Wal, t: nat, m: Mirror, exact: bool, a: nat, lo: Lsn, hi: Lsn)
    requires a <= |p| == |w| && MirrorAt(p, w, a, t, m, exact) && forall j :: 0 <= j < a ==> w[j].lsn <= lo
    ensures Replays(p, w, t, m, exact, a, lo, hi)
  {
    hide MirrorAt, History;
    HistoryEmpty(w, t, a, lo, hi);
  }

  /** From the mirror at LSN `lo`, replaying the commits up to `hi` gives the mirror at `hi`. */
  lemma {:induction false} ReplayHistory(p: PWal, w: Wal, n: nat, t: nat, m: Mirror, exact: bool, a: nat, q: nat, lo: Lsn, hi: Lsn)
    requires Setup(p, w, n) && a <= q <= |p| && MirrorAt(p, w, a, t, m, exact)
    requires forall j :: 0 <= j < a ==> w[j].lsn <= lo
    requires forall j :: a <= j < q ==> lo < w[j].lsn <= hi
    ensures Replays(p, w, t, m, exact, q, lo, hi)
    decreases q
  {
    hide Disciplined, TrueRec, HeapAt, MirrorAt, Replays;
    if q == a {
      ReplaysNothing(p, w, t, m, exact, a, lo, hi);
    } else {
      ReplayHistory(p, w, n, t, m, exact, a, q - 1, lo, hi);
      ReplaysMore(p, w, n, t, m, exact, q - 1, lo, hi);
    }
  }

  lemma {:induction false} HistoryEmpty(w: Wal, t: nat, n: nat, lo: Lsn, hi: Lsn)
    requires n <= |w| && forall j :: 0 <= j < n ==> w[j].lsn <= lo
    ensures History(w, t, n, lo, hi) == []
  {
    if n > 0 {
      HistoryEmpty(w, t, n - 1, lo, hi);
    }
  }

  lemma {:induction false} HistoryTrim(w: Wal, t: nat, k: nat, q: nat, lo: Lsn, hi: Lsn)
    requires q <= k <= |w| && forall j :: q <= j < |w| ==> w[j].lsn > hi
    ensures History(w, t, k, lo, hi) == History(w, t, q, lo, hi)
    decreases k
  {
    hide Truth, XidSet, Family;
    if q < k {
      HistoryTrim(w, t, k - 1, q, lo, hi);
    }
  }

  lemma ReplayBetween(p: PWal, w: Wal, n: nat, t: nat, m: Mirror, exact: bool, lo: Lsn, hi: Lsn)
    requires Setup(p, w, n) && lo <= hi && MirrorAt(p, w, IndexOf(w, lo), t, m, exact)
    ensures MirrorAt(p, w, IndexOf(w, hi), t, FoldMirror(m, !exact, History(w, t, |w|, lo, hi)), exact)
  {
    var a, q := IndexOf(w, lo), IndexOf(w, hi);
    assert a <= q by { assert a > 0 ==> w[a - 1].lsn <= lo; }
    ReplayHistory(p, w, n, t, m, exact, a, q, lo, hi);
    HistoryTrim(w, t, |w|, q, lo, hi);
  }

  // ---- Rows alone -----------------------------------------------------------------------

  /** `m` has the row of every live ctid of table `t`; entries for other ctids may be stale. */
  ghost predicate RowsOk(p: PWal, w: Wal, i: nat, t: nat, m: RowMap)
    requires i <= |p|
  {
    forall c :: LiveAt(p, w, i, Key(t, c)) ==> c in m && m[c] == HeapAt(p, i)[Key(t, c)].img.row
  }

  lemma RowsOfMirror(p: PWal, w: Wal, i: nat, t: nat, m: Mirror)
    requires i <= |p| && MirrorOk(p, w, i, t, m)
    ensures RowsOk(p, w, i, t, RowsOf(m))
  {
  }

  /** Some mirror with these rows, right wherever they are. */
  ghost function Imagined(p: PWal, w: Wal, i: nat, t: nat, m: RowMap): Mirror
    requires i <= |p|
  {
    map c | c in m :: if LiveAt(p, w, i, Key(t, c)) then HeapAt(p, i)[Key(t, c)].img else Image(m[c], None)
  }

  /** From the rows at LSN `lo`, replaying the entries of the commits up to `hi` gives the rows at `hi`. */
  lemma ReplayRows(p: PWal, w: Wal, n: nat, t: nat, m: RowMap, lo: Lsn, hi: Lsn)
    requires Setup(p, w, n) && lo <= hi && RowsOk(p, w, IndexOf(w, lo), t, m)
    requires AllKnown(History(w, t, |w|, lo, hi))
    ensures RowsOk(p, w, IndexOf(w, hi), t, FoldEntries(m, HistoryEntries(History(w, t, |w|, lo, hi))))
  {
    hide HeapAt, TrueRec, Disciplined, FoldMirror, FoldEntries, History;
    var im := Imagined(p, w, IndexOf(w, lo), t, m);
    assert RowsOf(im) == m;
    ReplayBetween(p, w, n, t, im, false, lo, hi);
    EntriesFoldOps(im, History(w, t, |w|, lo, hi));
    RowsOfMirror(p, w, IndexOf(w, hi), t, FoldMirror(im, true, History(w, t, |w|, lo, hi)));
  }

  /** The loader gives every live row the attribute bytes it has on its page. */
  ghost predicate Loads(p: PWal, w: Wal, i: nat, t: nat, loader: Loader)
    requires i <= |p|
  {
    forall c :: LiveAt(p, w, i, Key(t, c)) ==>
      var img := HeapAt(p, i)[Key(t, c)].img; loader(c, img.row) == img.attrs
  }

  /** A loaded mirror is right for every live row if and only if the loader gives each its own attribute bytes. */
  lemma LoadedRight(p: PWal, w: Wal, i: nat, t: nat, stored: seq<EmitRow>, loader: Loader)
    requires i <= |p| && RowsOk(p, w, i, t, LoadRows(stored))
    ensures MirrorOk(p, w, i, t, LoadMirror(stored, loader)) <==> Loads(p, w, i, t, loader)
  {
    hide HeapAt, LoadRows;
    var m, rows := LoadMirror(stored, loader), LoadRows(stored);
    forall c | LiveAt(p, w, i, Key(t, c))
      ensures c in m && (m[c] == HeapAt(p, i)[Key(t, c)].img
                         <==> loader(c, HeapAt(p, i)[Key(t, c)].img.row) == HeapAt(p, i)[Key(t, c)].img.attrs)
    {
      assert c in rows && m[c] == Image(rows[c], loader(c, rows[c]));
    }
  }

  // ---- From the snapshot on -------------------------------------------------------------

  lemma {:induction false} SnapFold(o: Origin, keep: bool, k: nat, c: Ctid)
    requires k <= |o.snap|
    ensures var m := FoldMirror(map[], keep, SnapOps(o)[..k]);
            && (c in m <==> exists e :: 0 <= e < k && o.snap[e].0 == c)
            && (c in m ==> exists e :: 0 <= e < k && o.snap[e].0 == c && m[c] == o.snap[e].1)
  {
    if k > 0 {
      SnapFold(o, keep, k - 1, c);
      assert SnapOps(o)[..k][..k - 1] == SnapOps(o)[..k - 1];
    }
  }

  lemma SnapshotMirror(p: PWal, w: Wal, t: nat, i: nat, o: Origin, keep: bool)
    requires i <= |p| && SnapshotIs(p, w, t, i, o.snap)
    ensures MirrorExact(p, w, i, t, FoldMirror(map[], keep, SnapOps(o)))
  {
    assert SnapOps(o)[..|o.snap|] == SnapOps(o);
    var m := FoldMirror(map[], keep, SnapOps(o));
    forall c ensures c in m <==> LiveAt(p, w, i, Key(t, c))
             ensures c in m ==> m[c] == HeapAt(p, i)[Key(t, c)].img
    {
      SnapFold(o, keep, |o.snap|, c);
    }
  }

  lemma QuietCommitEmpty(w: Wal, n: nat, t: nat, i: nat)
    requires WellFormed(w, n) && i < |w| && w[i].Commit? && Quiet(w, t, i)
    ensures Truth(w, 0, i, XidSet(Family(w[i])), t) == []
  {
    forall j, x | 0 <= j < i && x in XidSet(Family(w[i])) ensures !Writes(w[j], t, x) {
      assert Finishes(w[i], x);
      assert !Finished(w, i, x);
    }
    TruthNoWrites(w, 0, i, XidSet(Family(w[i])), t);
  }

  lemma CutIndex(w: Wal, n: nat, cut: Lsn, i: nat)
    requires WellFormed(w, n) && CutAt(w, cut, i)
    ensures i <= IndexOf(w, cut) <= i + 1
  {
    assert i > 0 ==> w[i - 1].lsn <= cut;
    assert i + 1 < |w| ==> w[i].lsn < w[i + 1].lsn;
  }

  /** The snapshot is the table at the cutover itself: a commit exactly there adds nothing. */
  lemma SnapshotAtCutover(p: PWal, w: Wal, n: nat, t: nat, o: Origin, exact: bool)
    requires Setup(p, w, n) && OriginOk(p, w, t, o)
    ensures MirrorAt(p, w, IndexOf(w, o.cutover), t, FoldMirror(map[], !exact, SnapOps(o)), exact)
  {
    var i: nat :| i <= |p| && CutAt(w, o.cutover, i) && Quiet(w, t, i) && SnapshotIs(p, w, t, i, o.snap);
    SnapshotMirror(p, w, t, i, o, !exact);
    ToCutover(p, w, n, i, t, FoldMirror(map[], !exact, SnapOps(o)), exact, o.cutover);
  }

  lemma ToCutover(p: PWal, w: Wal, n: nat, i: nat, t: nat, m: Mirror, exact: bool, cut: Lsn)
    requires Setup(p, w, n) && i <= |p| && CutAt(w, cut, i) && Quiet(w, t, i) && MirrorExact(p, w, i, t, m)
    ensures MirrorAt(p, w, IndexOf(w, cut), t, m, exact)
  {
    hide Disciplined, TrueRec, HeapAt, MirrorOk, Quiet;
    CutIndex(w, n, cut, i);
    if i < IndexOf(w, cut) {
      QuietRecord(p, w, n, i, t, m, exact);
    }
  }

  lemma QuietRecord(p: PWal, w: Wal, n: nat, i: nat, t: nat, m: Mirror, exact: bool)
    requires Setup(p, w, n) && i < |p| && Quiet(w, t, i) && MirrorAt(p, w, i, t, m, exact)
    ensures MirrorAt(p, w, i + 1, t, m, exact)
  {
    MirrorRecord(p, w, n, i, t, m, exact);
    if w[i].Commit? {
      QuietCommitEmpty(w, n, t, i);
    }
  }

  /** The history of a log, replayed, is exactly the table at the log's watermark. */
  lemma HistoryIsTable(p: PWal, w: Wal, n: nat, t: nat, o: Origin, hi: Lsn)
    requires Setup(p, w, n) && OriginOk(p, w, t, o) && o.cutover <= hi
    ensures MirrorExact(p, w, IndexOf(w, hi), t, FoldMirror(map[], false, FullHistory(w, t, o, hi)))
  {
    SnapshotAtCutover(p, w, n, t, o, true);
    ReplayBetween(p, w, n, t, FoldMirror(map[], false, SnapOps(o)), true, o.cutover, hi);
    FoldMirrorConcat(map[], false, SnapOps(o), History(w, t, |w|, o.cutover, hi));
  }

  // ---- What a log's files keep ----------------------------------------------------------

  /**
   The stored files, whatever was compacted when: they read like everything ever appended, and the rows loaded from
   them answer for every live row at the watermark.
   */
  ghost predicate FilesOk(p: PWal, w: Wal, t: nat, log: DeltaLog, stored: seq<EmitRow>, key: KeyFn)
    requires |p| == |w|
  {
    if log.commitLsn.None? then stored == [] && log.rows == []
    else
      && StrictlyOrdered(stored)
      && (forall j :: 0 <= j < |stored| ==> stored[j].lsn <= log.commitLsn.value)
      && (forall j :: 0 <= j < |stored| ==> stored[j] in log.rows)
      && Represents(stored, log.rows, key)
      && RowsOk(p, w, IndexOf(w, log.commitLsn.value), t, LoadRows(stored))
  }

  lemma OrderedAppend(a: seq<EmitRow>, b: seq<EmitRow>, wm: Lsn)
    requires StrictlyOrdered(a) && StrictlyOrdered(b)
    requires forall j :: 0 <= j < |a| ==> a[j].lsn <= wm
    requires forall j :: 0 <= j < |b| ==> wm < b[j].lsn
    ensures StrictlyOrdered(a + b) && AllAfter(a, b)
  {
  }

  /** Loading after an append continues the replay where the earlier files stopped. */
  lemma LoadAppend(a: seq<EmitRow>, b: seq<EmitRow>)
    requires StrictlyOrdered(a + b)
    ensures LoadRows(a + b) == FoldEntries(LoadRows(a), Erased(b))
  {
    OrderedSplit(a, b);
    LoadMirrorIsReplay(a);
    LoadMirrorIsReplay(a + b);
    assert Erased(a + b) == Erased(a) + Erased(b);
    FoldEntriesConcat(map[], Erased(a), Erased(b));
  }

  lemma FilesAppend(p: PWal, w: Wal, n: nat, t: nat, log: DeltaLog, stored: seq<EmitRow>, key: KeyFn, rows: seq<EmitRow>,
                    hi: Lsn, restart: Lsn)
    requires Setup(p, w, n) && FilesOk(p, w, t, log, stored, key) && log.commitLsn.Some? && log.commitLsn.value <= hi
    requires forall j :: 0 <= j < |log.rows| ==> log.rows[j].lsn <= log.commitLsn.value
    requires StrictlyOrdered(rows) && forall j :: 0 <= j < |rows| ==> log.commitLsn.value < rows[j].lsn <= hi
    requires Erased(rows) == Expected(w, t, |w|, log.commitLsn.value, hi)
    ensures FilesOk(p, w, t, Append(log, rows, hi, restart), stored + rows, key)
  {
    var wm := log.commitLsn.value;
    OrderedAppend(stored, rows, wm);
    assert AllAfter(log.rows, rows);
    RepresentsAppend(stored, log.rows, rows, key);
    HistoryIsExpected(w, n, t, |w|, wm, hi);
    ReplayRows(p, w, n, t, LoadRows(stored), wm, hi);
    LoadAppend(stored, rows);
  }

  /** The first files of a log: its snapshot, or the first flush of a table that had nothing to snapshot. */
  lemma FilesBegin(p: PWal, w: Wal, n: nat, t: nat, log: DeltaLog, o: Origin, key: KeyFn)
    requires Setup(p, w, n) && log.restartLsn.Some? && ExactlyOnce(w, t, log, Some(o)) && OriginOk(p, w, t, o)
    requires forall j :: 0 <= j < |log.rows| ==> log.rows[j].lsn <= log.commitLsn.value
    ensures FilesOk(p, w, t, log, log.rows, key)
  {
    hide TrueRec, HeapAt, MirrorOk, MirrorExact, History, Expected, FoldMirror, FoldEntries, LatestByCtid, Best;
    var wm, h := log.commitLsn.value, History(w, t, |w|, o.cutover, log.commitLsn.value);
    SnapshotAtCutover(p, w, n, t, o, false);
    ReplayBetween(p, w, n, t, FoldMirror(map[], true, SnapOps(o)), false, o.cutover, wm);
    FoldMirrorConcat(map[], true, SnapOps(o), h);
    LogIsHistory(w, n, t, log, o);
    EntriesFoldOps(map[], FullHistory(w, t, o, wm));
    assert RowsOf(map[]) == map[];
    LoadMirrorIsReplay(log.rows);
    RowsOfMirror(p, w, IndexOf(w, wm), t, FoldMirror(map[], true, FullHistory(w, t, o, wm)));
  }

  lemma FilesShowTable(p: PWal, w: Wal, n: nat, t: nat, log: DeltaLog, o: Origin, stored: seq<EmitRow>, key: KeyFn)
    requires Setup(p, w, n) && log.restartLsn.Some? && ExactlyOnce(w, t, log, Some(o)) && OriginOk(p, w, t, o)
    requires FilesOk(p, w, t, log, stored, key) && KeyHeld(FullHistory(w, t, o, log.commitLsn.value), key)
    ensures var m := FoldMirror(map[], false, FullHistory(w, t, o, log.commitLsn.value));
            Shows(stored, m, key) && MirrorExact(p, w, IndexOf(w, log.commitLsn.value), t, m)
  {
    var h := FullHistory(w, t, o, log.commitLsn.value);
    LogIsHistory(w, n, t, log, o);
    ViewShowsMirror(log.rows, h, key);
    RepresentsView(stored, log.rows, key);
    HistoryIsTable(p, w, n, t, o, log.commitLsn.value);
  }
}
