/**
 The physical side: heap slots, the row-lock discipline Postgres enforces, and the WAL the engine decodes.
 A slot is written by an insert or by the new half of an update; an update or delete marks the slot it targets.
 */
module Heap {
  import opened Base
  import opened TxBuf
  import opened Engine
  import opened Stream

  /** A heap record's body: an insert's tuples, or one change that needs a pre-image. */
  datatype Body = Tuples(tuples: seq<(Ctid, Image)>) | One(change: Change)

  datatype PRec =
    | PChanges(lsn: Lsn, xid: Xid, table: nat, body: Body)
    | PCommit(lsn: Lsn, xid: Xid, subs: seq<Xid>)
    | PAbort(lsn: Lsn, xid: Xid, subs: seq<Xid>)

  type PWal = seq<PRec>

  /** The version a line pointer holds, who wrote it and who has marked it deleted. */
  datatype Slot = Slot(img: Image, writer: Xid, deleters: set<Xid>)

  type Slots = map<Key, Slot>

  function TupleMap(table: nat, tuples: seq<(Ctid, Image)>): map<Key, Image>
    decreases |tuples|
  {
    if tuples == [] then map[]
    else TupleMap(table, tuples[..|tuples| - 1])[Key(table, tuples[|tuples| - 1].0) := tuples[|tuples| - 1].1]
  }

  /** The key an update or delete targets. */
  predicate Targets(r: PRec, k: Key) {
    r.PChanges? && r.body.One? && HasTarget(r.body.change) && k == Key(r.table, Target(r.body.change))
  }

  function ImageAt(h: Slots, k: Key): Option<Image> {
    if k in h then Some(h[k].img) else None
  }

  /** The pre-image of a record in heap `h`. */
  function TruePre(h: Slots, r: PRec): Option<Image>
    requires r.PChanges?
  {
    if r.body.One? && HasTarget(r.body.change) then ImageAt(h, Key(r.table, Target(r.body.change))) else None
  }

  function InsertOps(tuples: seq<(Ctid, Image)>): seq<Op> {
    seq(|tuples|, i requires 0 <= i < |tuples| => Insert(tuples[i].0, tuples[i].1))
  }

  /** What decoding a body against pre-image `pre` buffers; an undecodable change buffers nothing. */
  function DecodeBody(b: Body, pre: Option<Image>): seq<Op> {
    match b
    case Tuples(ts) => InsertOps(ts)
    case One(c) => (match Decode(c, pre) case None => [] case Some(op) => [op])
  }

  /** The versions a record writes, given the heap before it. */
  function Written(h: Slots, r: PRec): map<Key, Image> {
    if !r.PChanges? then map[]
    else match r.body
         case Tuples(ts) => TupleMap(r.table, ts)
         case One(c) =>
           match Decode(c, TruePre(h, r))
           case None => map[]
           case Some(op) =>
             match op
             case Insert(n, img) => map[Key(r.table, n) := img]
             case Update(_, n, img) => map[Key(r.table, n) := img]
             case Delete(_, _) => map[]
  }

  function HeapAfter(h: Slots, r: PRec): Slots {
    var ws := Written(h, r);
    map k | k in h.Keys + ws.Keys ::
      if k in ws then Slot(ws[k], r.xid, {})
      else if Targets(r, k) then h[k].(deleters := h[k].deleters + {r.xid})
      else h[k]
  }

  /** The heap after the first `i` records. */
  function HeapAt(p: PWal, i: nat): Slots
    requires i <= |p|
  {
    if i == 0 then map[] else HeapAfter(HeapAt(p, i - 1), p[i - 1])
  }

  function TrueRec(p: PWal, i: nat): Rec
    requires i < |p|
  {
    match p[i]
    case PChanges(lsn, xid, table, body) => Changes(lsn, xid, table, DecodeBody(body, TruePre(HeapAt(p, i), p[i])))
    case PCommit(lsn, xid, subs) => Commit(lsn, xid, subs)
    case PAbort(lsn, xid, subs) => Abort(lsn, xid, subs)
  }

  /** The WAL with every record decoded against the version it physically targets. */
  function TrueWal(p: PWal): (w: Wal)
    ensures |w| == |p| && forall i :: 0 <= i < |p| ==> w[i] == TrueRec(p, i)
  {
    seq(|p|, i requires 0 <= i < |p| => TrueRec(p, i))
  }

  // ---- Transaction status and the lock discipline ---------------------------------------

  ghost predicate Committed(w: Wal, pos: nat, x: Xid) {
    exists i :: 0 <= i < pos && i < |w| && Commits(w[i], x)
  }

  ghost predicate Aborted(w: Wal, pos: nat, x: Xid) {
    exists i :: 0 <= i < pos && i < |w| && w[i].Abort? && x in Family(w[i])
  }

  /** If `x` commits, the same record commits `y`: `y` is `x` itself or belongs to the same transaction tree. */
  ghost predicate Together(w: Wal, x: Xid, y: Xid) {
    forall k :: 0 <= k < |w| && Commits(w[k], x) ==> Commits(w[k], y)
  }

  /** A slot may be (re)used when empty, when its writer aborted, or when a deleter committed. */
  ghost predicate Free(w: Wal, i: nat, h: Slots, k: Key) {
    k in h ==> Aborted(w, i, h[k].writer) || exists q :: q in h[k].deleters && Committed(w, i, q)
  }

  /**
   `x` may update or delete the version in slot `k`: its writer committed, or is still open in `x`'s own tree; and
   whoever marked it before has rolled back.
   */
  ghost predicate Lockable(w: Wal, i: nat, h: Slots, x: Xid, k: Key) {
    && k in h
    && (Committed(w, i, h[k].writer) || (Together(w, x, h[k].writer) && !Finished(w, i, h[k].writer)))
    && forall q :: q in h[k].deleters ==> Aborted(w, i, q)
  }

  ghost predicate DisciplinedAt(p: PWal, w: Wal, i: nat)
    requires i < |p|
  {
    var h := HeapAt(p, i);
    p[i].PChanges? ==>
      && (forall k :: k in Written(h, p[i]) ==> Free(w, i, h, k))
      && (forall k :: Targets(p[i], k) ==> Lockable(w, i, h, p[i].xid, k))
      && (p[i].body.One? ==> HasTarget(p[i].body.change) && Decode(p[i].body.change, TruePre(h, p[i])).Some?)
  }

  ghost predicate Disciplined(p: PWal) {
    forall i :: 0 <= i < |p| ==> DisciplinedAt(p, TrueWal(p), i)
  }
}
