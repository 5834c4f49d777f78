/**
 Per-transaction change buffering (src/txbuf.rs).

 Changes are buffered under their own (sub)transaction id and handed back, in WAL order,
 only when a COMMIT record names that id. Each open transaction keeps an overlay of the row
 versions it wrote, keyed by (table, ctid).
 */
module TxBuf {
  import opened Base

  type Lsn = nat
  type Xid = nat

  /** Physical tuple address. */
  datatype Ctid = Ctid(blk: nat, off: nat)

  /** A row version (`RowVersion`): the decoded row and, where known, its exact on-page attribute bytes. */
  datatype Image = Image(row: Row, attrs: Option<Bytes>)

  datatype Op =
    | Insert(ctid: Ctid, img: Image)
    | Update(oldCtid: Ctid, ctid: Ctid, img: Image)
    | Delete(ctid: Ctid, oldRow: Option<Row>)

  datatype PendingOp = PendingOp(lsn: Lsn, table: nat, op: Op)

  datatype Key = Key(table: nat, ctid: Ctid)

  datatype OpenTx = OpenTx(firstLsn: Lsn, ops: seq<PendingOp>, overlay: map<Key, Image>)

  type OpenMap = map<Xid, OpenTx>

  /** What one buffered op does to its transaction's overlay. */
  function OverlayAfter(overlay: map<Key, Image>, table: nat, op: Op): map<Key, Image> {
    match op
    case Insert(c, img) => overlay[Key(table, c) := img]
    case Update(o, c, img) => (overlay - {Key(table, o)})[Key(table, c) := img]
    case Delete(c, _) => overlay - {Key(table, c)}
  }

  function AddOp(open: OpenMap, xid: Xid, lsn: Lsn, table: nat, op: Op): OpenMap {
    var tx := if xid in open then open[xid] else OpenTx(lsn, [], map[]);
    open[xid := OpenTx(tx.firstLsn, tx.ops + [PendingOp(lsn, table, op)], OverlayAfter(tx.overlay, table, op))]
  }

  /** All ops one WAL record contributes (a multi-insert contributes several at one LSN). */
  function AddOps(open: OpenMap, xid: Xid, lsn: Lsn, table: nat, ops: seq<Op>): OpenMap
    decreases |ops|
  {
    if ops == [] then open
    else AddOp(AddOps(open, xid, lsn, table, ops[..|ops| - 1]), xid, lsn, table, ops[|ops| - 1])
  }

  /** The buffered ops of the listed transactions, one list after the other; an id already taken adds nothing. */
  function Collect(open: OpenMap, xids: seq<Xid>): seq<PendingOp>
    decreases |xids|
  {
    if xids == [] then []
    else
      var rest := xids[..|xids| - 1];
      var x := xids[|xids| - 1];
      Collect(open, rest) + (if x in open && x !in rest then open[x].ops else [])
  }

  function Forget(open: OpenMap, xids: seq<Xid>): OpenMap {
    open - (set x | x in xids)
  }

  // ---- Stable sort by LSN ---------------------------------------------------------------

  /** Insert behind every element with an LSN at or below the new one's. */
  function InsertOp(s: seq<PendingOp>, o: PendingOp): seq<PendingOp>
    decreases |s|
  {
    if s == [] || s[|s| - 1].lsn <= o.lsn then s + [o]
    else InsertOp(s[..|s| - 1], o) + [s[|s| - 1]]
  }

  function SortInto(a: seq<PendingOp>, b: seq<PendingOp>): seq<PendingOp>
    decreases |b|
  {
    if b == [] then a else InsertOp(SortInto(a, b[..|b| - 1]), b[|b| - 1])
  }

  /** `sort_by_key(|o| o.lsn)`. */
  function StableSort(s: seq<PendingOp>): seq<PendingOp> {
    SortInto([], s)
  }

  ghost predicate SortedByLsn(s: seq<PendingOp>) {
    forall i, j :: 0 <= i < j < |s| ==> s[i].lsn <= s[j].lsn
  }

  /** The subsequence of ops at one LSN, in order. */
  function AtLsn(s: seq<PendingOp>, lsn: Lsn): seq<PendingOp>
    decreases |s|
  {
    if s == [] then []
    else AtLsn(s[..|s| - 1], lsn) + (if s[|s| - 1].lsn == lsn then [s[|s| - 1]] else [])
  }

  lemma {:induction false} InsertOpPermutes(s: seq<PendingOp>, o: PendingOp)
    ensures multiset(InsertOp(s, o)) == multiset(s) + multiset{o}
    decreases |s|
  {
    if s != [] && s[|s| - 1].lsn > o.lsn {
      InsertOpPermutes(s[..|s| - 1], o);
      assert s == s[..|s| - 1] + [s[|s| - 1]];
    }
  }

  /** Every op in the result is the new one or was there. */
  lemma {:induction false} InsertOpMembers(s: seq<PendingOp>, o: PendingOp, i: nat)
    requires i < |InsertOp(s, o)|
    ensures InsertOp(s, o)[i] == o || InsertOp(s, o)[i] in s
    decreases |s|
  {
    if s != [] && s[|s| - 1].lsn > o.lsn && i < |InsertOp(s[..|s| - 1], o)| {
      InsertOpMembers(s[..|s| - 1], o, i);
    }
  }

  lemma {:induction false} InsertOpSorts(s: seq<PendingOp>, o: PendingOp)
    requires SortedByLsn(s)
    ensures SortedByLsn(InsertOp(s, o))
    decreases |s|
  {
    if s != [] && s[|s| - 1].lsn > o.lsn {
      var front, last := s[..|s| - 1], s[|s| - 1];
      InsertOpSorts(front, o);
      var r := InsertOp(front, o);
      forall i | 0 <= i < |r| ensures r[i].lsn <= last.lsn {
        InsertOpMembers(front, o, i);
      }
    }
  }

  lemma {:induction false} InsertOpStable(s: seq<PendingOp>, o: PendingOp, lsn: Lsn)
    ensures SortedByLsn(s) ==>
              AtLsn(InsertOp(s, o), lsn) == AtLsn(s, lsn) + (if o.lsn == lsn then [o] else [])
    decreases |s|
  {
    if SortedByLsn(s) {
      if s == [] || s[|s| - 1].lsn <= o.lsn {
        assert (s + [o])[..|s|] == s;
      } else {
        var front, last := s[..|s| - 1], s[|s| - 1];
        InsertOpStable(front, o, lsn);
        var r := InsertOp(front, o);
        assert (r + [last])[..|r|] == r;
        if o.lsn == lsn {
          assert last.lsn != lsn;
        }
      }
    }
  }

  /** `StableSort` meets the contract of a stable sort: sorted, a permutation, ties in their given order. */
  lemma {:induction false} StableSortIsStableSort(s: seq<PendingOp>, lsn: Lsn)
    ensures SortedByLsn(StableSort(s))
    ensures multiset(StableSort(s)) == multiset(s)
    ensures AtLsn(StableSort(s), lsn) == AtLsn(s, lsn)
    decreases |s|
  {
    if s != [] {
      var front, last := s[..|s| - 1], s[|s| - 1];
      StableSortIsStableSort(front, lsn);
      InsertOpSorts(StableSort(front), last);
      InsertOpPermutes(StableSort(front), last);
      InsertOpStable(StableSort(front), last, lsn);
      assert s == front + [last];
    }
  }

  // ---- Lookups --------------------------------------------------------------------------

  /** A lookup scans the open transactions in map order, so any overlay holding the key may answer. */
  ghost predicate IsLookup(open: OpenMap, k: Key, r: Option<Image>) {
    match r
    case None => forall x :: x in open ==> k !in open[x].overlay
    case Some(img) => exists x :: x in open && k in open[x].overlay && open[x].overlay[k] == img
  }

  ghost predicate IsOldest(open: OpenMap, r: Option<Lsn>) {
    match r
    case None => open == map[]
    case Some(l) =>
      && (exists x :: x in open && open[x].firstLsn == l)
      && (forall x :: x in open ==> l <= open[x].firstLsn)
  }

  class TxBuffer {
    var open: OpenMap

    constructor ()
      ensures open == map[]
    {
      open := map[];
    }

    method Add(xid: Xid, lsn: Lsn, table: nat, op: Op)
      modifies this
      ensures open == AddOp(old(open), xid, lsn, table, op)
    {
      var tx := if xid in open then open[xid] else OpenTx(lsn, [], map[]);
      var overlay := tx.overlay;
      match op {
        case Insert(c, img) =>
          overlay := overlay[Key(table, c) := img];
        case Update(o, c, img) =>
          overlay := overlay - {Key(table, o)};
          overlay := overlay[Key(table, c) := img];
        case Delete(c, _) =>
          overlay := overlay - {Key(table, c)};
      }
      open := open[xid := OpenTx(tx.firstLsn, tx.ops + [PendingOp(lsn, table, op)], overlay)];
    }

    /** Any overlay holding the key may answer; `None` means no open transaction holds it. */
    method Lookup(table: nat, ctid: Ctid) returns (r: Option<Image>)
      ensures IsLookup(open, Key(table, ctid), r)
    {
      var todo := open.Keys;
      while todo != {}
        invariant todo <= open.Keys
        invariant forall x :: x in open && x !in todo ==> Key(table, ctid) !in open[x].overlay
        decreases todo
      {
        var x :| x in todo;
        if Key(table, ctid) in open[x].overlay {
          return Some(open[x].overlay[Key(table, ctid)]);
        }
        todo := todo - {x};
      }
      return None;
    }

    /** The ops of the transaction and of its committed subtransactions leave the buffer, in WAL order. */
    method Commit(xid: Xid, subxids: seq<Xid>) returns (ops: seq<PendingOp>)
      modifies this
      ensures ops == StableSort(Collect(old(open), [xid] + subxids))
      ensures open == Forget(old(open), [xid] + subxids)
    {
      hide Collect, SortInto, Forget;
      ops := if xid in open then open[xid].ops else [];
      open := open - {xid};
      ghost var xids := [xid] + subxids;
      CollectFirst(old(open), xid, subxids);
      for i := 0 to |subxids|
        invariant ops == Collect(old(open), xids[..i + 1])
        invariant open == Forget(old(open), xids[..i + 1])
      {
        var sub := subxids[i];
        CollectStep(old(open), xids, i + 1);
        if sub in open {
          ops := ops + open[sub].ops;
          open := open - {sub};
        }
      }
      assert xids[..|subxids| + 1] == xids;
      ops := StableSort(ops);
    }

    method Abort(xid: Xid, subxids: seq<Xid>) returns (dropped: nat)
      modifies this
      ensures dropped == |Collect(old(open), [xid] + subxids)|
      ensures open == Forget(old(open), [xid] + subxids)
    {
      hide Collect, Forget;
      dropped := if xid in open then |open[xid].ops| else 0;
      open := open - {xid};
      ghost var xids := [xid] + subxids;
      CollectFirst(old(open), xid, subxids);
      for i := 0 to |subxids|
        invariant dropped == |Collect(old(open), xids[..i + 1])|
        invariant open == Forget(old(open), xids[..i + 1])
      {
        var sub := subxids[i];
        CollectStep(old(open), xids, i + 1);
        if sub in open {
          dropped := dropped + |open[sub].ops|;
          open := open - {sub};
        }
      }
      assert xids[..|subxids| + 1] == xids;
    }

    method OldestFirstLsn() returns (r: Option<Lsn>)
      ensures IsOldest(open, r)
    {
      r := None;
      var todo := open.Keys;
      while todo != {}
        invariant todo <= open.Keys
        invariant r.None? ==> todo == open.Keys
        invariant r.Some? ==> exists x :: x in open && open[x].firstLsn == r.value
        invariant r.Some? ==> forall x :: x in open && x !in todo ==> r.value <= open[x].firstLsn
        decreases todo
      {
        var x :| x in todo;
        if r.None? || open[x].firstLsn < r.value {
          r := Some(open[x].firstLsn);
        }
        todo := todo - {x};
      }
    }
  }

  lemma CollectFirst(open: OpenMap, xid: Xid, subxids: seq<Xid>)
    ensures var xids := [xid] + subxids;
            && Collect(open, xids[..1]) == (if xid in open then open[xid].ops else [])
            && Forget(open, xids[..1]) == open - {xid}
  {
    var xids := [xid] + subxids;
    CollectStep(open, xids, 0);
    assert xids[..0] == [];
  }

  /** Taking one more transaction: its ops join the collection exactly when it is still in the buffer. */
  lemma CollectStep(open: OpenMap, xids: seq<Xid>, k: nat)
    requires k < |xids|
    ensures var left := Forget(open, xids[..k]);
            && Collect(open, xids[..k + 1])
               == Collect(open, xids[..k]) + (if xids[k] in left then open[xids[k]].ops else [])
            && Forget(open, xids[..k + 1]) == left - {xids[k]}
            && (xids[k] in left ==> left[xids[k]] == open[xids[k]])
  {
    hide Collect, Forget;
    ForgetOne(open, xids[..k], xids[k]);
    var upto := xids[..k + 1];
    assert upto == xids[..k] + [xids[k]];
    CollectOne(open, xids[..k], xids[k]);
  }

  lemma ForgetOne(open: OpenMap, xids: seq<Xid>, x: Xid)
    ensures Forget(open, xids + [x]) == Forget(open, xids) - {x}
    ensures x in Forget(open, xids) <==> x in open && x !in xids
    ensures x in Forget(open, xids) ==> Forget(open, xids)[x] == open[x]
  {
    assert forall y :: y in xids + [x] <==> y in xids || y == x;
  }

  lemma CollectOne(open: OpenMap, xids: seq<Xid>, x: Xid)
    ensures Collect(open, xids + [x]) == Collect(open, xids) + (if x in open && x !in xids then open[x].ops else [])
  {
    assert (xids + [x])[..|xids|] == xids;
  }
}
