/**
 TOAST chunks (src/wal/heap.rs `ToastCache`) beside the delivery protocol: a value's chunks are logged before the tuple
 that points at it, and wait in a cache of their own, which the restart LSN does not look at (src/engine.rs
 `restart_lsn`).
 */
module ToastCache {
  import opened TxBuf
  import opened Stream
  import opened Protocol

  datatype Chunk = Chunk(value: nat, seqno: nat)

  /** The records that insert chunks, by index. Such a record buffers no op; its table is the one owning the value. */
  type Chunks = map<nat, Chunk>

  /** A value's chunks: who wrote them, and the record that holds each. */
  datatype Held = Held(owner: Xid, parts: map<nat, nat>)

  type Cache = map<nat, Held>

  function Added(c: Cache, x: Xid, chunk: Chunk, i: nat): Cache {
    var h := if chunk.value in c then c[chunk.value] else Held(x, map[]);
    c[chunk.value := h.(parts := h.parts[chunk.seqno := i])]
  }

  function Dropped(c: Cache, xids: seq<Xid>): Cache {
    map v | v in c && c[v].owner !in xids :: c[v]
  }

  class Store {
    var vals: Cache

    constructor ()
      ensures vals == map[]
    {
      vals := map[];
    }

    method AddChunk(x: Xid, chunk: Chunk, i: nat)
      modifies this
      ensures vals == Added(old(vals), x, chunk, i)
    {
      if chunk.value !in vals {
        vals := vals[chunk.value := Held(x, map[])];
      }
      var h := vals[chunk.value];
      vals := vals[chunk.value := h.(parts := h.parts[chunk.seqno := i])];
    }

    method GcXid(x: Xid)
      modifies this
      ensures vals == Dropped(old(vals), [x])
    {
      vals := map v | v in vals && vals[v].owner != x :: vals[v];
    }

    /** What a commit or abort does: its own chunks and its subtransactions' go. */
    method Finish(x: Xid, subs: seq<Xid>)
      modifies this
      ensures vals == Dropped(old(vals), [x] + subs)
    {
      GcXid(x);
      for i := 0 to |subs|
        invariant vals == Dropped(old(vals), [x] + subs[..i])
      {
        GcXid(subs[i]);
        assert subs[..i + 1] == subs[..i] + [subs[i]];
      }
      assert subs[..|subs|] == subs;
    }
  }

  // ---- The cache along a run ------------------------------------------------------------

  function AfterRecord(w: Wal, chunks: Chunks, pos: nat, c: Cache): Cache
    requires pos < |w|
  {
    if !w[pos].Changes? then Dropped(c, Family(w[pos]))
    else if pos in chunks then Added(c, w[pos].xid, chunks[pos], pos)
    else c
  }

  /** The cache is volatile: it starts empty with every run. */
  function AfterStep(w: Wal, chunks: Chunks, s: Sys, a: Step, c: Cache): Cache {
    match a
    case Read(_) => if s.run.Up? && s.run.pos < |w| then AfterRecord(w, chunks, s.run.pos, c) else c
    case Start(_, _, _, _) => map[]
    case Crash => map[]
    case _ => c
  }

  /** Open transactions do not share a value, and a value's chunks are numbered. */
  ghost predicate ChunksOk(w: Wal, chunks: Chunks) {
    && (forall i :: i in chunks ==> i < |w| && w[i].Changes? && w[i].ops == [])
    && (forall i, j :: i in chunks && j in chunks && i < j && chunks[i].value == chunks[j].value ==>
          if w[i].xid == w[j].xid then chunks[i].seqno != chunks[j].seqno else Finished(w, j, w[i].xid))
  }

  predicate HeldAs(c: Cache, chunk: Chunk, i: nat) {
    chunk.value in c && chunk.seqno in c[chunk.value].parts && c[chunk.value].parts[chunk.seqno] == i
  }

  /** Read in this run, by a transaction that is still open. */
  ghost predicate Waiting(w: Wal, chunks: Chunks, start: nat, pos: nat, i: nat) {
    i in chunks && start <= i < pos && i < |w| && !Finished(w, pos, w[i].xid)
  }

  /** Every cached part is the chunk it is filed as, by the owner of its value; no value is without a part. */
  ghost predicate Filed(w: Wal, chunks: Chunks, c: Cache) {
    && (forall v, q :: v in c && q in c[v].parts ==>
          var i := c[v].parts[q]; i in chunks && i < |w| && chunks[i] == Chunk(v, q) && w[i].xid == c[v].owner)
    && (forall v :: v in c ==> exists q :: q in c[v].parts)
  }

  /** The cache holds exactly the waiting chunks. */
  ghost predicate CacheIs(w: Wal, chunks: Chunks, start: nat, pos: nat, c: Cache) {
    Filed(w, chunks, c) && forall i :: i in chunks ==> (HeldAs(c, chunks[i], i) <==> Waiting(w, chunks, start, pos, i))
  }

  lemma OwnerIsOpen(w: Wal, chunks: Chunks, start: nat, pos: nat, c: Cache, v: nat) returns (i: nat)
    requires CacheIs(w, chunks, start, pos, c) && v in c
    ensures Waiting(w, chunks, start, pos, i) && w[i].xid == c[v].owner && chunks[i].value == v
  {
    var q :| q in c[v].parts;
    i := c[v].parts[q];
    assert HeldAs(c, chunks[i], i);
  }

  lemma OpenAfter(w: Wal, n: nat, pos: nat, x: Xid)
    requires WellFormed(w, n) && pos < |w|
    ensures w[pos].Changes? ==> (Finished(w, pos + 1, x) <==> Finished(w, pos, x)) && !Finished(w, pos, w[pos].xid)
    ensures !w[pos].Changes? ==> (Finished(w, pos + 1, x) <==> Finished(w, pos, x) || x in Family(w[pos]))
  {
    if Finished(w, pos, x) {
      var i :| 0 <= i < pos && i < |w| && Finishes(w[i], x);
      assert Finished(w, pos + 1, x);
    }
    if !w[pos].Changes? && x in Family(w[pos]) {
      assert Finishes(w[pos], x);
    }
  }

  lemma HeldAfterAdd(c: Cache, x: Xid, chunk: Chunk, pos: nat, other: Chunk, i: nat)
    ensures HeldAs(Added(c, x, chunk, pos), other, i) <==> if other == chunk then i == pos else HeldAs(c, other, i)
  {
  }

  lemma HeldAfterDrop(c: Cache, xids: seq<Xid>, chunk: Chunk, i: nat)
    ensures HeldAs(Dropped(c, xids), chunk, i) <==> HeldAs(c, chunk, i) && c[chunk.value].owner !in xids
  {
  }

  lemma FiledMore(w: Wal, chunks: Chunks, pos: nat, c: Cache)
    requires Filed(w, chunks, c) && pos < |w| && pos in chunks
    requires chunks[pos].value in c ==> c[chunks[pos].value].owner == w[pos].xid
    ensures Filed(w, chunks, Added(c, w[pos].xid, chunks[pos], pos))
  {
    var chunk := chunks[pos];
    var c' := Added(c, w[pos].xid, chunk, pos);
    forall v, q | v in c' && q in c'[v].parts
      ensures var i := c'[v].parts[q]; i in chunks && i < |w| && chunks[i] == Chunk(v, q) && w[i].xid == c'[v].owner
    {
      if v != chunk.value || q != chunk.seqno {
        assert v in c && q in c[v].parts;
      }
    }
    forall v | v in c' ensures exists q :: q in c'[v].parts {
      if v == chunk.value {
        assert chunk.seqno in c'[v].parts;
      } else {
        var q :| q in c[v].parts;
        assert q in c'[v].parts;
      }
    }
  }

  lemma FiledLess(w: Wal, chunks: Chunks, c: Cache, xids: seq<Xid>)
    requires Filed(w, chunks, c)
    ensures Filed(w, chunks, Dropped(c, xids))
  {
    var c' := Dropped(c, xids);
    forall v | v in c' ensures exists q :: q in c'[v].parts {
      var q :| q in c[v].parts;
      assert q in c'[v].parts;
    }
  }

  lemma HeldIff(w: Wal, chunks: Chunks, start: nat, pos: nat, c: Cache, i: nat)
    requires CacheIs(w, chunks, start, pos, c) && i in chunks
    ensures Filed(w, chunks, c) && (HeldAs(c, chunks[i], i) <==> Waiting(w, chunks, start, pos, i))
    ensures HeldAs(c, chunks[i], i) ==> i < |w| && c[chunks[i].value].owner == w[i].xid
  {
  }

  lemma ChunkCached(w: Wal, n: nat, chunks: Chunks, start: nat, pos: nat, c: Cache)
    requires WellFormed(w, n) && ChunksOk(w, chunks) && CacheIs(w, chunks, start, pos, c) && start <= pos < |w|
    requires pos in chunks && w[pos].Changes?
    ensures CacheIs(w, chunks, start, pos + 1, Added(c, w[pos].xid, chunks[pos], pos))
  {
    hide Filed, HeldAs, Added, Finished, WellFormed;
    var chunk, x := chunks[pos], w[pos].xid;
    var c' := Added(c, x, chunk, pos);
    if chunk.value in c {
      var i := OwnerIsOpen(w, chunks, start, pos, c, chunk.value);
      assert w[i].xid == x;
    }
    HeldIff(w, chunks, start, pos, c, pos);
    FiledMore(w, chunks, pos, c);
    forall i | i in chunks ensures HeldAs(c', chunks[i], i) <==> Waiting(w, chunks, start, pos + 1, i) {
      OpenAfter(w, n, pos, w[i].xid);
      HeldAfterAdd(c, x, chunk, pos, chunks[i], i);
      HeldIff(w, chunks, start, pos, c, i);
      if chunks[i] == chunk && i < pos {
        assert w[i].xid != x && Finished(w, pos, w[i].xid);
      }
    }
  }

  lemma FinishCached(w: Wal, n: nat, chunks: Chunks, start: nat, pos: nat, c: Cache)
    requires WellFormed(w, n) && ChunksOk(w, chunks) && CacheIs(w, chunks, start, pos, c) && start <= pos < |w| && !w[pos].Changes?
    ensures CacheIs(w, chunks, start, pos + 1, Dropped(c, Family(w[pos])))
  {
    hide Filed, HeldAs, Dropped, Finished, WellFormed;
    var c' := Dropped(c, Family(w[pos]));
    FiledLess(w, chunks, c, Family(w[pos]));
    forall i | i in chunks ensures HeldAs(c', chunks[i], i) <==> Waiting(w, chunks, start, pos + 1, i) {
      OpenAfter(w, n, pos, w[i].xid);
      HeldAfterDrop(c, Family(w[pos]), chunks[i], i);
      HeldIff(w, chunks, start, pos, c, i);
    }
  }

  lemma RecordCached(w: Wal, n: nat, chunks: Chunks, start: nat, pos: nat, c: Cache)
    requires WellFormed(w, n) && ChunksOk(w, chunks) && CacheIs(w, chunks, start, pos, c) && start <= pos < |w|
    ensures CacheIs(w, chunks, start, pos + 1, AfterRecord(w, chunks, pos, c))
  {
    hide CacheIs;
    if !w[pos].Changes? {
      FinishCached(w, n, chunks, start, pos, c);
    } else if pos in chunks {
      ChunkCached(w, n, chunks, start, pos, c);
    } else {
      OtherCached(w, n, chunks, start, pos, c);
    }
  }

  lemma OtherCached(w: Wal, n: nat, chunks: Chunks, start: nat, pos: nat, c: Cache)
    requires WellFormed(w, n) && CacheIs(w, chunks, start, pos, c) && ChunksOk(w, chunks)
    requires start <= pos < |w| && w[pos].Changes? && pos !in chunks
    ensures CacheIs(w, chunks, start, pos + 1, c)
  {
    forall i | i in chunks ensures HeldAs(c, chunks[i], i) <==> Waiting(w, chunks, start, pos + 1, i) {
      OpenAfter(w, n, pos, w[i].xid);
    }
  }
}
