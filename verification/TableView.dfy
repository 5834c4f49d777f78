/**
 The change log against plain replay of the committed ops (src/engine.rs `handle_commit`, src/sink.rs): the
 latest-per-key view shows exactly the rows of the mirror, exactly when the key identifies what each op replaces.
 */
module TableView {
  import opened Base
  import opened TxBuf
  import opened Sink
  import opened Engine
  import opened Stream
  import opened StreamFacts
  import opened MirrorProof
  import opened ChangeLog

  /** The view of `rows` is exactly the rows of `m`, each under its own ctid. */
  ghost predicate Shows(rows: seq<EmitRow>, m: Mirror, key: KeyFn) {
    var v := View(rows, key);
    && (forall c :: c in m ==> var k := key(Some(m[c].row)); k in v && v[k].ctid == c && v[k].row == Some(m[c].row))
    && (forall k :: k in v ==> v[k].ctid in m && v[k].row == Some(m[v[k].ctid].row))
  }

  /** The ctids whose rows an op replaces or removes. */
  function Touched(op: Op): set<Ctid> {
    match op
    case Insert(c, _) => {c}
    case Update(o, c, _) => {o, c}
    case Delete(c, _) => {c}
  }

  /** The row a committed op logs. */
  function Logged(m: Mirror, op: Op): Option<Row> {
    match op
    case Insert(_, img) => Some(img.row)
    case Update(_, _, img) => Some(img.row)
    case Delete(c, row) => TombstoneRow(m, c, row)
  }

  /** The live rows carrying the logged row's key are exactly those the op replaces. */
  ghost predicate KeyHolds(m: Mirror, op: Op, key: KeyFn) {
    forall c :: c in m ==> (c in Touched(op) <==> key(Some(m[c].row)) == key(Logged(m, op)))
  }

  ghost predicate IsRowOf(r: EmitRow, m: Mirror, op: Op) {
    r.deleted == op.Delete? && r.ctid == op.ctid && r.row == Logged(m, op)
  }

  lemma ViewAppend(rows: seq<EmitRow>, r: EmitRow, key: KeyFn)
    requires AllAfter(rows, [r])
    ensures View(rows + [r], key) == if r.deleted then View(rows, key) - {key(r.row)} else View(rows, key)[key(r.row) := r]
  {
    var k := key(r.row);
    assert (rows + [r])[..|rows|] == rows && (rows + [r])[|rows|] == r;
    BestIsNewest(rows, key, k);
    if k in Best(rows, key) {
      var i :| 0 <= i < |rows| && rows[i] == Best(rows, key)[k];
      assert Before(rows[i], [r][0]);
    }
    assert Best(rows + [r], key) == Best(rows, key)[k := r];
  }

  lemma {:induction false} ViewKeyed(rows: seq<EmitRow>, key: KeyFn)
    ensures forall k :: k in View(rows, key) ==> key(View(rows, key)[k].row) == k
  {
    forall k | k in View(rows, key) ensures key(View(rows, key)[k].row) == k {
      BestIsNewest(rows, key, k);
    }
  }

  /** One committed op keeps the view equal to the mirror if and only if the key identifies what it replaces. */
  lemma OpKeepsView(rows: seq<EmitRow>, r: EmitRow, m: Mirror, op: Op, key: KeyFn)
    requires Shows(rows, m, key) && AllAfter(rows, [r]) && IsRowOf(r, m, op)
    ensures Shows(rows + [r], MirrorAfter(m, op), key) <==> KeyHolds(m, op, key)
  {
    ViewAppend(rows, r, key);
    ViewKeyed(rows, key);
    var v, v', m', k := View(rows, key), View(rows + [r], key), MirrorAfter(m, op), key(r.row);
    if KeyHolds(m, op, key) {
      assert Shows(rows + [r], m', key);
    } else {
      var c :| c in m && !(c in Touched(op) <==> key(Some(m[c].row)) == k);
      var kc := key(Some(m[c].row));
      assert kc in v && v[kc].ctid == c;
      if kc == k {
        assert c in m' && m'[c] == m[c];
      } else {
        assert kc in v' && v'[kc].ctid == c;
        assert c in m' ==> c == op.ctid;
      }
    }
  }

  // ---- Whole histories ------------------------------------------------------------------

  ghost predicate KeyHoldsAt(h: seq<PendingOp>, key: KeyFn, i: nat)
    requires i < |h|
  {
    KeyHolds(FoldMirror(map[], false, h[..i]), h[i].op, key)
  }

  ghost predicate KeyHeld(h: seq<PendingOp>, key: KeyFn) {
    forall i :: 0 <= i < |h| ==> KeyHoldsAt(h, key, i)
  }

  function HistoryEntries(h: seq<PendingOp>): seq<Entry> {
    seq(|h|, i requires 0 <= i < |h| => EntryOf(h[i].lsn, h[i].op))
  }

  /** `rows` is the log of the ops `h`, in order. */
  ghost predicate IsLogOf(rows: seq<EmitRow>, h: seq<PendingOp>) {
    |rows| == |h| && StrictlyOrdered(rows) && Erased(rows) == HistoryEntries(h) && AllKnown(h)
  }

  ghost predicate ShowsAt(rows: seq<EmitRow>, h: seq<PendingOp>, key: KeyFn, i: nat)
    requires i <= |rows| == |h|
  {
    Shows(rows[..i], FoldMirror(map[], false, h[..i]), key)
  }

  lemma RowAt(rows: seq<EmitRow>, h: seq<PendingOp>, i: nat, m: Mirror)
    requires IsLogOf(rows, h) && i < |h|
    ensures AllAfter(rows[..i], [rows[i]]) && IsRowOf(rows[i], m, h[i].op)
  {
    assert Erased(rows)[i] == HistoryEntries(h)[i];
    assert DeleteKnown(h[i].op);
  }

  lemma ViewStep(rows: seq<EmitRow>, h: seq<PendingOp>, key: KeyFn, i: nat)
    requires IsLogOf(rows, h) && i < |h| && ShowsAt(rows, h, key, i)
    ensures ShowsAt(rows, h, key, i + 1) <==> KeyHoldsAt(h, key, i)
  {
    var m := FoldMirror(map[], false, h[..i]);
    RowAt(rows, h, i, m);
    assert rows[..i] + [rows[i]] == rows[..i + 1];
    assert h[..i + 1][..i] == h[..i];
    assert FoldMirror(map[], false, h[..i + 1]) == MirrorAfter(m, h[i].op);
    OpKeepsView(rows[..i], rows[i], m, h[i].op, key);
  }

  /**
   The log of a history shows exactly the mirror of that history after every one of its ops, if and only if the key
   held at every op.
   */
  lemma ViewIsMirror(rows: seq<EmitRow>, h: seq<PendingOp>, key: KeyFn)
    requires IsLogOf(rows, h)
    ensures (forall i :: 0 <= i <= |h| ==> ShowsAt(rows, h, key, i)) <==> KeyHeld(h, key)
  {
    if KeyHeld(h, key) {
      forall i | 0 <= i <= |h| ensures ShowsAt(rows, h, key, i) {
        ShowsWhileHeld(rows, h, key, i);
      }
    } else if forall i :: 0 <= i <= |h| ==> ShowsAt(rows, h, key, i) {
      var i :| 0 <= i < |h| && !KeyHoldsAt(h, key, i);
      ViewStep(rows, h, key, i);
    }
  }

  lemma {:induction false} ShowsWhileHeld(rows: seq<EmitRow>, h: seq<PendingOp>, key: KeyFn, i: nat)
    requires IsLogOf(rows, h) && KeyHeld(h, key) && i <= |h|
    ensures ShowsAt(rows, h, key, i)
  {
    if i > 0 {
      ShowsWhileHeld(rows, h, key, i - 1);
      ViewStep(rows, h, key, i - 1);
    }
  }

  lemma ViewShowsMirror(rows: seq<EmitRow>, h: seq<PendingOp>, key: KeyFn)
    requires IsLogOf(rows, h) && KeyHeld(h, key)
    ensures Shows(rows, FoldMirror(map[], false, h), key)
  {
    ShowsWhileHeld(rows, h, key, |h|);
    assert rows[..|h|] == rows && h[..|h|] == h;
  }

  /** An update that changes the key leaves the old key's row in the view: two rows for one live tuple. */
  lemma RenamedKeyLingers()
    ensures exists rows: seq<EmitRow>, h: seq<PendingOp>, key: KeyFn ::
              IsLogOf(rows, h) && !Shows(rows, FoldMirror(map[], false, h), key)
  {
    var key: KeyFn := (row: Option<Row>) => if row == Some([]) then "a" else "b";
    var one, two := Ctid(0, 1), Ctid(0, 2);
    var h := [PendingOp(1, 0, Insert(one, Image([], None))), PendingOp(2, 0, Update(one, two, Image([None], None)))];
    var rows := [EmitRow(1, 1, false, one, Some([])), EmitRow(2, 2, false, two, Some([None]))];
    assert IsLogOf(rows, h);
    var first := h[..1];
    assert first[..0] == [] && first[0] == h[0];
    var m := FoldMirror(map[], false, first);
    assert m == MirrorStep(FoldMirror(map[], false, first[..0]), first[0].op, false);
    assert !KeyHolds(m, h[1].op, key) by { assert one in m && one in Touched(h[1].op); }
    assert KeyHoldsAt(h[..1], key, 0);
    assert IsLogOf(rows[..1], h[..1]) by {
      assert Erased(rows[..1]) == Erased(rows)[..1] && HistoryEntries(h[..1]) == HistoryEntries(h)[..1];
    }
    ViewShowsMirror(rows[..1], h[..1], key);
    assert ShowsAt(rows, h, key, 1);
    ViewStep(rows, h, key, 1);
    assert rows[..2] == rows && h[..2] == h;
  }

  // ---- The mirror loaded from a compacted log -------------------------------------------

  lemma {:induction false} SurvivorsOrdered(rows: seq<EmitRow>, key: KeyFn, n: nat)
    requires n <= |rows| && StrictlyOrdered(rows)
    ensures StrictlyOrdered(Survivors(rows, key, n))
    ensures forall j :: 0 <= j < |Survivors(rows, key, n)| ==> Survivors(rows, key, n)[j] in rows[..n]
  {
    if n > 0 {
      SurvivorsOrdered(rows, key, n - 1);
    }
  }

  /** A row is in the compacted log exactly when the view shows it. */
  lemma CompactedIsView(rows: seq<EmitRow>, key: KeyFn, r: EmitRow)
    requires StrictlyOrdered(rows)
    ensures r in Compacted(rows, key) <==> key(r.row) in View(rows, key) && View(rows, key)[key(r.row)] == r
  {
    var k := key(r.row);
    SurvivorsMember(rows, key, |rows|, r);
    ViewIsQuery(rows, key, k, r);
    if r in Compacted(rows, key) {
      var i :| 0 <= i < |rows| && rows[i] == r && Survives(rows, key, i);
      forall j | 0 <= j < |rows| && key(rows[j].row) == k ensures !Before(r, rows[j]) {
        assert j < i ==> Before(rows[j], rows[i]);
      }
      assert IsNewest(rows, key, k, r);
    } else if IsNewest(rows, key, k, r) && !r.deleted {
      var i :| 0 <= i < |rows| && rows[i] == r;
      assert Survives(rows, key, i);
    }
  }

  /** The rows loaded from a compacted log are exactly those of the live mirror: entries of replaced ctids are gone. */
  lemma CompactionRefreshesMirror(rows: seq<EmitRow>, m: Mirror, key: KeyFn)
    requires StrictlyOrdered(rows) && Shows(rows, m, key)
    ensures LoadRows(Compacted(rows, key)) == RowsOf(m)
  {
    var c := Compacted(rows, key);
    var lm := LoadRows(c);
    forall x ensures (x in lm <==> x in m) && (x in m ==> lm[x] == m[x].row) {
      LatestIsSome(c, x);
      if x in m {
        var r := View(rows, key)[key(Some(m[x].row))];
        CompactedIsView(rows, key, r);
        var j :| 0 <= j < |c| && c[j] == r;
        assert c[j].ctid == x;
      }
      if x in LatestByCtid(c) {
        CompactedIsView(rows, key, LatestByCtid(c)[x]);
      }
    }
  }
}
