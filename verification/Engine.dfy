/**
 The transcoding engine (src/engine.rs): decode against pre-images, release at COMMIT into per-table
 pending batches and mirrors, flush table by table. `Sink` is the durable side (src/sink.rs `append`).
 */
module Sink {
  import opened Base
  import opened TxBuf

  /** One change-log entry. A `None` row is the all-NULL tombstone of an unknown row. */
  datatype EmitRow = EmitRow(lsn: Lsn, seqno: nat, deleted: bool, ctid: Ctid, row: Option<Row>)

  /** A table's Delta log with the two watermarks its last commit carried. */
  datatype DeltaLog = DeltaLog(rows: seq<EmitRow>, commitLsn: Option<Lsn>, restartLsn: Option<Lsn>)

  /** One atomic Delta commit: the rows and both watermarks become durable together. */
  function Append(log: DeltaLog, rows: seq<EmitRow>, commitLsn: Lsn, restartLsn: Lsn): DeltaLog {
    DeltaLog(log.rows + rows, Some(commitLsn), Some(restartLsn))
  }

  /** The order every reader uses: `(lsn, seq)`. */
  predicate Before(a: EmitRow, b: EmitRow) {
    a.lsn < b.lsn || (a.lsn == b.lsn && a.seqno < b.seqno)
  }

  ghost predicate StrictlyOrdered(s: seq<EmitRow>) {
    forall i, j :: 0 <= i < j < |s| ==> Before(s[i], s[j])
  }
}

module Engine {
  import opened Base
  import opened TxBuf
  import opened Sink

  type Mirror = map<Ctid, Image>

  function RowsOf(m: Mirror): map<Ctid, Row> {
    map c | c in m :: m[c].row
  }

  datatype Pending = Pending(rows: seq<EmitRow>, maxCommit: Lsn, seqno: nat)

  datatype Table = Table(dedupeBelow: Lsn, mirror: Mirror, pending: Pending)

  // ---- Decoding -------------------------------------------------------------------------

  /**
   A heap record's change, as logged: an update carries only the bytes not shared with the old tuple. `rowOf` decodes
   the rebuilt bytes under the record's own header, taking unchanged out-of-line values from the old row.
   */
  datatype Change =
    | NewTuple(ctid: Ctid, img: Image)
    | NewVersion(oldCtid: Ctid, ctid: Ctid, prefix: nat, suffix: nat, middle: Bytes, rowOf: (Bytes, Option<Row>) -> Option<Row>)
    | Removal(ctid: Ctid)

  function RowOf(pre: Option<Image>): Option<Row> {
    if pre.Some? then Some(pre.value.row) else None
  }

  function AttrsOf(pre: Option<Image>): Option<Bytes> {
    if pre.Some? then pre.value.attrs else None
  }

  /** Rebuild the attribute bytes of an updated tuple from those of its pre-image. */
  function Rebuild(pre: Option<Bytes>, prefix: nat, suffix: nat, middle: Bytes): Option<Bytes> {
    if prefix == 0 && suffix == 0 then Some(middle)
    else if pre.None? || prefix + suffix > |pre.value| then None
    else Some(pre.value[..prefix] + middle + pre.value[|pre.value| - suffix..])
  }

  /** `None`: the record does not decode and is skipped. */
  function Decode(c: Change, pre: Option<Image>): Option<Op> {
    match c
    case NewTuple(ctid, img) => Some(Insert(ctid, img))
    case NewVersion(o, n, p, s, m, rowOf) =>
      var attrs := Rebuild(AttrsOf(pre), p, s, m);
      if attrs.None? then None
      else
        var row := rowOf(attrs.value, RowOf(pre));
        if row.None? then None else Some(Update(o, n, Image(row.value, attrs)))
    case Removal(ctid) => Some(Delete(ctid, RowOf(pre)))
  }

  /** An open transaction's own version wins over the last committed one. */
  ghost predicate IsPreimage(open: OpenMap, mirror: Mirror, k: Key, r: Option<Image>) {
    exists l :: IsLookup(open, k, l)
                && r == if l.Some? then l else if k.ctid in mirror then Some(mirror[k.ctid]) else None
  }

  predicate HasTarget(c: Change) {
    c.NewVersion? || c.Removal?
  }

  function Target(c: Change): Ctid
    requires HasTarget(c)
  {
    if c.Removal? then c.ctid else c.oldCtid
  }

  // ---- Commit ---------------------------------------------------------------------------

  function Emit(p: Pending, lsn: Lsn, deleted: bool, ctid: Ctid, row: Option<Row>): Pending {
    Pending(p.rows + [EmitRow(lsn, p.seqno + 1, deleted, ctid, row)], Max(p.maxCommit, lsn), p.seqno + 1)
  }

  function TombstoneRow(m: Mirror, ctid: Ctid, oldRow: Option<Row>): Option<Row> {
    if oldRow.Some? then oldRow else if ctid in m then Some(m[ctid].row) else None
  }

  function MirrorAfter(m: Mirror, op: Op): Mirror {
    match op
    case Insert(c, img) => m[c := img]
    case Update(o, c, img) => (m - {o})[c := img]
    case Delete(c, _) => m - {c}
  }

  function ApplyOp(t: Table, lsn: Lsn, op: Op): Table {
    var pending :=
      match op
      case Insert(c, img) => Emit(t.pending, lsn, false, c, Some(img.row))
      case Update(_, c, img) => Emit(t.pending, lsn, false, c, Some(img.row))
      case Delete(c, row) => Emit(t.pending, lsn, true, c, TombstoneRow(t.mirror, c, row));
    Table(t.dedupeBelow, MirrorAfter(t.mirror, op), pending)
  }

  predicate TablesInRange(ops: seq<PendingOp>, n: nat) {
    forall i :: 0 <= i < |ops| ==> ops[i].table < n
  }

  /** Release a commit's ops; a commit at or below a table's watermark is already in that table's log. */
  function Release(ts: seq<Table>, lsn: Lsn, ops: seq<PendingOp>): (r: seq<Table>)
    requires TablesInRange(ops, |ts|)
    ensures |r| == |ts|
    ensures forall t :: 0 <= t < |ts| ==> r[t].dedupeBelow == ts[t].dedupeBelow
    decreases |ops|
  {
    if ops == [] then ts
    else
      var prev := Release(ts, lsn, ops[..|ops| - 1]);
      var o := ops[|ops| - 1];
      if lsn <= prev[o.table].dedupeBelow then prev
      else prev[o.table := ApplyOp(prev[o.table], lsn, o.op)]
  }

  // ---- Flush ----------------------------------------------------------------------------

  function FlushedTable(t: Table): Table {
    if t.pending.rows == [] then t else t.(pending := t.pending.(rows := []))
  }

  function FlushedLog(t: Table, log: DeltaLog, restart: Lsn): DeltaLog {
    if t.pending.rows == [] then log else Append(log, t.pending.rows, t.pending.maxCommit, restart)
  }

  predicate NothingPending(ts: seq<Table>) {
    forall i :: 0 <= i < |ts| ==> ts[i].pending.rows == []
  }

  /** The earliest in-flight change, or the last commit when nothing is in flight. */
  ghost predicate IsRestart(open: OpenMap, lastCommit: Lsn, r: Lsn) {
    exists o: Option<Lsn> :: IsOldest(open, o) && r == if o.Some? then o.value else lastCommit
  }

  lemma {:induction false} CollectInRange(open: OpenMap, xids: seq<Xid>, n: nat)
    requires forall x :: x in open ==> TablesInRange(open[x].ops, n)
    ensures TablesInRange(Collect(open, xids), n)
    decreases |xids|
  {
    if xids != [] {
      CollectInRange(open, xids[..|xids| - 1], n);
    }
  }

  lemma SortInRange(ops: seq<PendingOp>, n: nat)
    requires TablesInRange(ops, n)
    ensures TablesInRange(StableSort(ops), n)
  {
    StableSortIsStableSort(ops, 0);
    var s := StableSort(ops);
    forall i | 0 <= i < |s| ensures s[i].table < n {
      assert s[i] in multiset(s);
      assert s[i] in multiset(ops);
      assert s[i] in ops;
    }
  }

  /** One released op, step by step as the commit loop performs it. */
  method ApplyTo(table: Table, lsn: Lsn, op: Op) returns (t: Table)
    ensures t == ApplyOp(table, lsn, op)
  {
    t := table;
    match op {
      case Insert(c, img) =>
        t := t.(pending := Emit(t.pending, lsn, false, c, Some(img.row)));
        t := t.(mirror := t.mirror[c := img]);
      case Update(oc, c, img) =>
        t := t.(mirror := t.mirror - {oc});
        t := t.(pending := Emit(t.pending, lsn, false, c, Some(img.row)));
        t := t.(mirror := t.mirror[c := img]);
      case Delete(c, oldRow) =>
        var row := TombstoneRow(t.mirror, c, oldRow);
        t := t.(mirror := t.mirror - {c});
        t := t.(pending := Emit(t.pending, lsn, true, c, row));
    }
  }

  class Core {
    var tables: seq<Table>
    var logs: seq<DeltaLog>
    var lastCommit: Lsn
    const txbuf: TxBuffer

    constructor (tables: seq<Table>, logs: seq<DeltaLog>, resumeFrom: Lsn)
      requires |tables| == |logs|
      ensures this.tables == tables && this.logs == logs && lastCommit == resumeFrom
      ensures fresh(txbuf) && txbuf.open == map[] && Valid()
    {
      this.tables := tables;
      this.logs := logs;
      this.lastCommit := resumeFrom;
      this.txbuf := new TxBuffer();
    }

    ghost predicate Valid()
      reads this, txbuf
    {
      && |tables| == |logs|
      && forall x :: x in txbuf.open ==> TablesInRange(txbuf.open[x].ops, |tables|)
    }

    method Preimage(table: nat, ctid: Ctid) returns (r: Option<Image>)
      requires table < |tables|
      ensures IsPreimage(txbuf.open, tables[table].mirror, Key(table, ctid), r)
    {
      var l := txbuf.Lookup(table, ctid);
      if l.Some? {
        r := l;
      } else if ctid in tables[table].mirror {
        r := Some(tables[table].mirror[ctid]);
      } else {
        r := None;
      }
      assert IsLookup(txbuf.open, Key(table, ctid), l);
    }

    /** One heap change: decode it against the pre-image the engine finds, and buffer the op. */
    method HandleChange(lsn: Lsn, xid: Xid, table: nat, c: Change) returns (ghost pre: Option<Image>)
      requires Valid() && table < |tables|
      modifies txbuf
      ensures Valid()
      ensures HasTarget(c) ==> IsPreimage(old(txbuf.open), tables[table].mirror, Key(table, Target(c)), pre)
      ensures txbuf.open == match Decode(c, pre)
                            case None => old(txbuf.open)
                            case Some(op) => AddOp(old(txbuf.open), xid, lsn, table, op)
    {
      var found := None;
      if HasTarget(c) {
        found := Preimage(table, Target(c));
      }
      pre := found;
      match Decode(c, found) {
        case None =>
        case Some(op) => txbuf.Add(xid, lsn, table, op);
      }
    }

    method HandleCommit(lsn: Lsn, xid: Xid, subxids: seq<Xid>)
      requires Valid()
      modifies this`tables, this`lastCommit, txbuf
      ensures Valid()
      ensures lastCommit == lsn
      ensures txbuf.open == Forget(old(txbuf.open), [xid] + subxids)
      ensures var ops := StableSort(Collect(old(txbuf.open), [xid] + subxids));
              TablesInRange(ops, |old(tables)|) && tables == Release(old(tables), lsn, ops)
    {
      lastCommit := lsn;
      CollectInRange(txbuf.open, [xid] + subxids, |tables|);
      SortInRange(Collect(txbuf.open, [xid] + subxids), |tables|);
      var ops := txbuf.Commit(xid, subxids);
      assert ops[..0] == [];
      for i := 0 to |ops|
        invariant TablesInRange(ops, |old(tables)|) && |tables| == |old(tables)|
        invariant TablesInRange(ops[..i], |old(tables)|) && tables == Release(old(tables), lsn, ops[..i])
        invariant txbuf.open == Forget(old(txbuf.open), [xid] + subxids) && lastCommit == lsn
      {
        assert ops[..i + 1][..i] == ops[..i] && ops[..i + 1][i] == ops[i];
        var o := ops[i];
        if lsn > tables[o.table].dedupeBelow {
          var t := ApplyTo(tables[o.table], lsn, o.op);
          tables := tables[o.table := t];
        }
      }
      assert ops[..|ops|] == ops;
    }

    method HandleAbort(xid: Xid, subxids: seq<Xid>)
      requires Valid()
      modifies txbuf
      ensures Valid() && txbuf.open == Forget(old(txbuf.open), [xid] + subxids)
    {
      var _ := txbuf.Abort(xid, subxids);
    }

    method RestartLsn() returns (r: Lsn)
      ensures IsRestart(txbuf.open, lastCommit, r)
    {
      var o := txbuf.OldestFirstLsn();
      r := if o.Some? then o.value else lastCommit;
    }

    /** One flush round: every table with pending rows gets one append, all stamped with the same restart LSN. */
    method FlushAll(persisted: Lsn) returns (persisted': Lsn)
      requires Valid()
      modifies this`tables, this`logs
      ensures Valid() && |tables| == |old(tables)|
      ensures NothingPending(old(tables)) ==> tables == old(tables) && logs == old(logs) && persisted' == persisted
      ensures !NothingPending(old(tables)) ==>
                && IsRestart(txbuf.open, lastCommit, persisted')
                && forall i :: 0 <= i < |tables| ==>
                     && tables[i] == FlushedTable(old(tables)[i])
                     && logs[i] == FlushedLog(old(tables)[i], old(logs)[i], persisted')
    {
      var i, empty := 0, true;
      while i < |tables|
        invariant 0 <= i <= |tables|
        invariant empty <==> forall j :: 0 <= j < i ==> tables[j].pending.rows == []
      {
        if tables[i].pending.rows != [] { empty := false; }
        i := i + 1;
      }
      if empty {
        return persisted;
      }
      var restart := RestartLsn();
      for k := 0 to |tables|
        invariant |tables| == |old(tables)| == |logs|
        invariant forall j :: 0 <= j < k ==>
                    && tables[j] == FlushedTable(old(tables)[j])
                    && logs[j] == FlushedLog(old(tables)[j], old(logs)[j], restart)
        invariant forall j :: k <= j < |tables| ==> tables[j] == old(tables)[j] && logs[j] == old(logs)[j]
      {
        var t := tables[k];
        if t.pending.rows == [] { continue; }
        logs := logs[k := Append(logs[k], t.pending.rows, t.pending.maxCommit, restart)];
        tables := tables[k := t.(pending := t.pending.(rows := []))];
      }
      persisted' := restart;
    }
  }
}
