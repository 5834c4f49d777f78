/** Zero filler at the end of a WAL page, and how its chunking decides whether the reader stays in step. */
module Filler {
  import opened Base
  import opened LittleEndian
  import opened WalReader
  import opened Framing

  /** A reader between records. */
  function Idle(pos: nat, pending: Bytes): Reader {
    Reader(pos, pending, 0, true, [], 0, 0)
  }

  lemma StepIntoDrain(r: Reader)
    requires Sane(r) && StepOf(r).Goes? && StepOf(r).out == []
    ensures Sane(StepOf(r).next) && Drain(r) == Drain(StepOf(r).next)
  {
    StepShrinks(r);
    var d := Drain(StepOf(r).next);
    assert d.Done? ==> [] + d.out == d.out;
  }

  /** At least four bytes of filler are seen as such, and skipped to the end of the page or of what is at hand. */
  lemma FillerStep(pos: nat, z: nat, more: Bytes)
    requires 4 <= z <= PageRest(pos) && !Boundary(pos) && (z == PageRest(pos) || more == [])
    ensures Drain(Idle(pos, Zeros(z) + more)) == Drain(Idle(pos + z, more))
  {
    var r := Idle(pos, Zeros(z) + more);
    GetZeros(4);
    assert r.pending[0..4] == Zeros(4);
    assert r.pending[z..] == more;
    hide Get, PageRest, Boundary;
    assert StepOf(r) == Goes(Idle(pos + z, more), []);
    StepIntoDrain(r);
  }

  lemma GetFour(b: Bytes)
    requires |b| == 4
    ensures Get(b) == b[0] as nat + 256 * b[1] as nat + 65536 * b[2] as nat + 16777216 * b[3] as nat
  {
    assert b[1..][1..] == b[2..] && b[2..][1..] == b[3..] && b[3..][1..] == [];
    assert Get(b[3..]) == b[3] as nat;
    assert Get(b[2..]) == b[2] as nat + 256 * Get(b[3..]);
    assert Get(b[1..]) == b[1] as nat + 256 * Get(b[2..]);
  }

  lemma MagicBytes(x: Wire, q: nat)
    requires KnownMagic(x.magic)
    ensures var h := PageHeader(x, q, 0); h[0] as nat == x.magic % 256 && h[1] as nat == x.magic / 256
  {
    var m := Put(x.magic, 2);
    assert m == [(x.magic % 256) as byte] + Put(x.magic / 256, 1);
    assert Put(x.magic / 256, 1) == [((x.magic / 256) % 256) as byte] + Put(x.magic / 65536, 0);
    assert m[0] as nat == x.magic % 256 && m[1] as nat == x.magic / 256;
  }

  /** One to three zero bytes run into the next page's magic, and together pass for a record length. */
  lemma MisreadLength(x: Wire, q: nat, z: nat)
    requires KnownMagic(x.magic) && 1 <= z <= 3
    ensures var b := Zeros(z) + PageHeader(x, q, 0); |b| >= 4 && Get(b[0..4]) > 5000
  {
    hide PageHeader, Get;
    var h := PageHeader(x, q, 0);
    var b := (Zeros(z) + h)[0..4];
    MagicBytes(x, q);
    GetFour(b);
    assert b[z] == h[0];
    assert z <= 2 ==> b[z + 1] == h[1];
  }

  // ---- At the next page's header --------------------------------------------------------

  /** The reader with `j` bytes of the header at `q` taken in, between records or joining one of `need` bytes. */
  function AtHeader(x: Wire, q: nat, j: nat, rec: Bytes, lsn: nat, need: nat): Reader
    requires j <= HeaderLen(q)
  {
    if j < HeaderLen(q) then Reader(q, PageHeader(x, q, 0)[..j], 0, true, rec, lsn, need)
    else Reader(q + j, [], 0, true, rec, lsn, need)
  }

  lemma DrainHeader(x: Wire, q: nat, j: nat, rec: Bytes, lsn: nat, need: nat)
    requires KnownMagic(x.magic) && Boundary(q) && j <= HeaderLen(q) && (need == 0 || |rec| < need)
    ensures Drain(Reader(q, PageHeader(x, q, 0)[..j], 0, true, rec, lsn, need)) == Done(AtHeader(x, q, j, rec, lsn, need), [])
  {
    var h := PageHeader(x, q, 0);
    var r := Reader(q, h[..j], 0, true, rec, lsn, need);
    HeaderFields(x, q, 0);
    HeaderKeepsAlignment(q);
    hide Get, PageHeader, Padding, Boundary, PageRest, Discard, Join, BeginRecord;
    if j == |h| {
      assert h[..j] == h && h[|h|..] == [];
      var next := Reader(q + |h|, [], 0, true, rec, lsn, need);
      assert StepOf(r) == Goes(next, []);
      StepIntoDrain(r);
      assert StepOf(next) == Stuck;
    }
  }

  lemma {:induction false} HeaderFeeds(x: Wire, q: nat, j: nat, rec: Bytes, lsn: nat, need: nat, chunks: seq<Bytes>)
    requires KnownMagic(x.magic) && Boundary(q) && j <= HeaderLen(q) && (need == 0 || |rec| < need)
    requires PageHeader(x, q, 0)[..j] + Concat(chunks) == PageHeader(x, q, 0)
    ensures FeedAll(AtHeader(x, q, j, rec, lsn, need), chunks) == Done(AtHeader(x, q, HeaderLen(q), rec, lsn, need), [])
    decreases |chunks|
  {
    hide Drain, Boundary, PageHeader, HeaderLen;
    var h, r := PageHeader(x, q, 0), AtHeader(x, q, j, rec, lsn, need);
    if chunks == [] {
      assert h[..j] == h;
    } else {
      var k := j + |chunks[0]|;
      assert h == h[..j] + chunks[0] + Concat(chunks[1..]);
      assert h[..j] + chunks[0] == h[..k];
      var next := AtHeader(x, q, k, rec, lsn, need);
      if j < |h| {
        DrainHeader(x, q, k, rec, lsn, need);
      } else {
        assert chunks[0] == [];
        DrainNothing(r);
      }
      assert Takes(r, chunks[0], next);
      HeaderFeeds(x, q, k, rec, lsn, need, chunks[1..]);
      FeedCons(r, chunks[0], chunks[1..], next);
      assert chunks == [chunks[0]] + chunks[1..];
    }
  }

  lemma DrainNothing(r: Reader)
    requires Sane(r) && r.pending == []
    ensures Drain(r) == Done(r, [])
  {
  }

  // ---- Losing the stream ----------------------------------------------------------------

  /** Fewer than four bytes of filler and the header behind them pass for the length of a long record. */
  lemma Misread(x: Wire, p: nat, u: nat, n: nat) returns (need: nat)
    requires KnownMagic(x.magic) && 1 <= u <= 3 && !Boundary(p) && PageRest(p) == u && 4 <= n <= u + HeaderLen(p + u)
    ensures need > 5000
    ensures var b := Zeros(u) + PageHeader(x, p + u, 0);
            Drain(Idle(p, b[..n])) == Drain(Reader(p + u, PageHeader(x, p + u, 0)[..n - u], 0, true, Zeros(u), p, need))
  {
    hide Get, PageHeader, Boundary, PageRest, HeaderLen, Drain, KnownMagic;
    MisreadLength(x, p + u, u);
    var h := PageHeader(x, p + u, 0);
    var b := (Zeros(u) + h)[..n];
    assert b[0..4] == (Zeros(u) + h)[0..4];
    need := Get(b[0..4]);
    Begins(p, b);
    assert b[..u] == Zeros(u) && b[u..] == h[..n - u];
    Joins(p, b, u, need);
  }

  lemma Begins(p: nat, b: Bytes)
    requires !Boundary(p) && |b| >= 4 && Get(b[0..4]) >= RECORD_HEADER
    ensures Drain(Idle(p, b)) == Drain(Reader(p, b, 0, true, [], p, Get(b[0..4])))
  {
    hide Get, Padding, Boundary, PageRest, StripHeader, Discard, Join;
    var r := Idle(p, b);
    assert StepOf(r) == Goes(Reader(p, b, 0, true, [], p, Get(b[0..4])), []);
    StepIntoDrain(r);
  }

  lemma Joins(p: nat, b: Bytes, u: nat, need: nat)
    requires !Boundary(p) && PageRest(p) == u <= |b| && need > u && b != []
    ensures Drain(Reader(p, b, 0, true, [], p, need)) == Drain(Reader(p + u, b[u..], 0, true, b[..u], p, need))
  {
    hide Get, Padding, Boundary, PageRest, StripHeader, Discard, BeginRecord;
    var r := Reader(p, b, 0, true, [], p, need);
    assert [] + b[..u] == b[..u];
    assert StepOf(r) == Goes(Reader(p + u, b[u..], 0, true, b[..u], p, need), []);
    StepIntoDrain(r);
  }

  lemma {:induction false} StrandFeeds(x: Wire, p: nat, n: nat, chunks: seq<Bytes>)
    requires KnownMagic(x.magic) && !Boundary(p) && 1 <= PageRest(p) <= 3 && n < 4
    requires var b := Zeros(PageRest(p)) + PageHeader(x, p + PageRest(p), 0); b[..n] + Concat(chunks) == b
    ensures var b := Zeros(PageRest(p)) + PageHeader(x, p + PageRest(p), 0);
            var d := FeedAll(Idle(p, b[..n]), chunks); d.Done? && d.out == [] && d.reader.need > 0
    decreases |chunks|
  {
    hide Drain, Boundary, PageRest, PageHeader, HeaderLen, FeedAll;
    var u := PageRest(p);
    var h := PageHeader(x, p + u, 0);
    var b := Zeros(u) + h;
    HeaderSizes(p + u);
    if chunks != [] {
      var r, m := Idle(p, b[..n]), n + |chunks[0]|;
      assert b == b[..n] + chunks[0] + Concat(chunks[1..]);
      assert b[..n] + chunks[0] == b[..m];
      assert chunks == [chunks[0]] + chunks[1..];
      if m < 4 {
        TooFew(p, b[..m]);
        assert Takes(r, chunks[0], Idle(p, b[..m]));
        StrandFeeds(x, p, m, chunks[1..]);
        FeedCons(r, chunks[0], chunks[1..], Idle(p, b[..m]));
      } else {
        StrandLost(x, p, m, Concat(chunks[1..]), chunks[1..]);
        var next := Drain(Idle(p, b[..m])).reader;
        assert Takes(r, chunks[0], next);
        FeedCons(r, chunks[0], chunks[1..], next);
      }
    }
  }

  lemma StrandLost(x: Wire, p: nat, m: nat, future: Bytes, chunks: seq<Bytes>)
    requires KnownMagic(x.magic) && !Boundary(p) && 1 <= PageRest(p) <= 3 && 4 <= m <= PageRest(p) + HeaderLen(p + PageRest(p))
    requires var b := Zeros(PageRest(p)) + PageHeader(x, p + PageRest(p), 0); b[..m] + future == b && future == Concat(chunks)
    ensures var b := Zeros(PageRest(p)) + PageHeader(x, p + PageRest(p), 0);
            var d := Drain(Idle(p, b[..m]));
            && d.Done? && d.out == [] && Sane(d.reader) && FeedAll(d.reader, chunks).Done?
            && FeedAll(d.reader, chunks).out == [] && FeedAll(d.reader, chunks).reader.need > 0
  {
    hide Drain, Boundary, PageRest, PageHeader, HeaderLen, FeedAll, Concat;
    var u := PageRest(p);
    var h := PageHeader(x, p + u, 0);
    var b := Zeros(u) + h;
    PageStep(p, u);
    var need := Misread(x, p, u, m);
    DrainHeader(x, p + u, m - u, Zeros(u), p, need);
    assert h[..m - u] + future == h by { assert b[..m][u..] == h[..m - u] && b[u..] == h; }
    HeaderFeeds(x, p + u, m - u, Zeros(u), p, need, chunks);
  }

  lemma TooFew(p: nat, b: Bytes)
    requires !Boundary(p) && |b| < 4
    ensures Drain(Idle(p, b)) == Done(Idle(p, b), [])
  {
  }

  // ---- Any chunking ---------------------------------------------------------------------

  /** Feeding one chunk takes the reader from `r` to `next`. */
  ghost predicate Takes(r: Reader, chunk: Bytes, next: Reader) {
    Sane(r) && Sane(next) && Drain(r.(pending := r.pending + chunk)) == Done(next, [])
  }

  lemma FeedCons(r: Reader, a: Bytes, rest: seq<Bytes>, mid: Reader)
    requires Takes(r, a, mid) && FeedAll(mid, rest).Done?
    ensures FeedAll(r, [a] + rest) == FeedAll(mid, rest)
  {
    hide Drain;
    var cs := [a] + rest;
    assert cs[0] == a && cs[1..] == rest;
    var d := FeedAll(mid, rest);
    assert [] + d.out == d.out;
  }

  ghost predicate ComesThrough(x: Wire, p: nat, h: nat, chunks: seq<Bytes>)
    requires h <= PageRest(p)
  {
    var d, q := FeedAll(Idle(p, Zeros(h)), chunks), p + PageRest(p);
    && d.Done? && d.out == []
    && (d.reader.need == 0 <==> !Strands(PageRest(p), h, chunks))
    && (d.reader.need == 0 ==> d.reader == Idle(q + HeaderLen(q), []))
  }

  lemma {:induction false} FillFeeds(x: Wire, p: nat, h: nat, chunks: seq<Bytes>)
    requires KnownMagic(x.magic) && !Boundary(p) && h < 4 <= PageRest(p)
    requires Concat(chunks) == Zeros(PageRest(p) - h) + PageHeader(x, p + PageRest(p), 0)
    ensures ComesThrough(x, p, h, chunks)
    decreases |chunks|
  {
    hide Drain, Boundary, PageRest, PageHeader, HeaderLen, FeedAll, Strands, ComesThrough;
    var n := h + |chunks[0]|;
    if n < 4 {
      FillWaits(x, p, h, chunks);
    } else if n >= PageRest(p) {
      FillEnds(x, p, h, chunks);
    } else {
      FillSkips(x, p, h, chunks);
    }
  }

  lemma StrandsUnfolds(u: nat, h: nat, chunks: seq<Bytes>)
    requires chunks != [] && h < 4 <= u
    ensures var n := h + |chunks[0]|;
            Strands(u, h, chunks) == if n >= u then false else if n < 4 then Strands(u, n, chunks[1..])
                                     else u - n <= 3 || Strands(u - n, 0, chunks[1..])
  {
  }

  /** What is left after a chunk that holds only filler. */
  lemma OnlyFiller(a: Bytes, b: Bytes, z: nat, h: Bytes)
    requires a + b == Zeros(z) + h && |a| <= z
    ensures a == Zeros(|a|) && b == Zeros(z - |a|) + h
  {
    assert Zeros(z) == Zeros(|a|) + Zeros(z - |a|);
    assert a == (a + b)[..|a|] == Zeros(|a|);
    assert b == (a + b)[|a|..];
  }

  lemma {:induction false} FillWaits(x: Wire, p: nat, h: nat, chunks: seq<Bytes>)
    requires KnownMagic(x.magic) && !Boundary(p) && h < 4 <= PageRest(p)
    requires Concat(chunks) == Zeros(PageRest(p) - h) + PageHeader(x, p + PageRest(p), 0) && h + |chunks[0]| < 4
    ensures ComesThrough(x, p, h, chunks)
    decreases |chunks|, 0
  {
    hide Drain, Boundary, PageRest, PageHeader, HeaderLen, FeedAll, Strands;
    var rest, n := PageRest(p), h + |chunks[0]|;
    OnlyFiller(chunks[0], Concat(chunks[1..]), rest - h, PageHeader(x, p + rest, 0));
    assert Zeros(h) + Zeros(|chunks[0]|) == Zeros(n);
    TooFew(p, Zeros(n));
    var r, next := Idle(p, Zeros(h)), Idle(p, Zeros(n));
    assert r.(pending := r.pending + chunks[0]) == next;
    FillFeeds(x, p, n, chunks[1..]);
    FeedCons(r, chunks[0], chunks[1..], next);
    assert chunks == [chunks[0]] + chunks[1..];
    StrandsUnfolds(rest, h, chunks);
  }

  lemma {:induction false} FillSkips(x: Wire, p: nat, h: nat, chunks: seq<Bytes>)
    requires KnownMagic(x.magic) && !Boundary(p) && h < 4 <= PageRest(p)
    requires Concat(chunks) == Zeros(PageRest(p) - h) + PageHeader(x, p + PageRest(p), 0) && 4 <= h + |chunks[0]| < PageRest(p)
    ensures ComesThrough(x, p, h, chunks)
    decreases |chunks|, 0
  {
    hide Drain, Boundary, PageRest, PageHeader, HeaderLen, FeedAll, Strands;
    var rest, n := PageRest(p), h + |chunks[0]|;
    var head := PageHeader(x, p + rest, 0);
    OnlyFiller(chunks[0], Concat(chunks[1..]), rest - h, head);
    assert Zeros(h) + Zeros(|chunks[0]|) == Zeros(n) == Zeros(n) + [];
    FillerStep(p, n, []);
    PageStep(p, n);
    var r, next := Idle(p, Zeros(h)), Idle(p + n, []);
    DrainNothing(next);
    assert r.(pending := r.pending + chunks[0]) == Idle(p, Zeros(n) + []);
    assert Takes(r, chunks[0], next);
    assert chunks == [chunks[0]] + chunks[1..];
    StrandsUnfolds(rest, h, chunks);
    assert p + n + PageRest(p + n) == p + rest;
    if rest - n <= 3 {
      var b := Zeros(rest - n) + head;
      assert b[..0] == [] && b[..0] + Concat(chunks[1..]) == b;
      StrandFeeds(x, p + n, 0, chunks[1..]);
    } else {
      assert Zeros(0) == [];
      FillFeeds(x, p + n, 0, chunks[1..]);
    }
    FeedCons(r, chunks[0], chunks[1..], next);
  }

  lemma FillEnds(x: Wire, p: nat, h: nat, chunks: seq<Bytes>)
    requires KnownMagic(x.magic) && !Boundary(p) && h < 4 <= PageRest(p)
    requires Concat(chunks) == Zeros(PageRest(p) - h) + PageHeader(x, p + PageRest(p), 0) && h + |chunks[0]| >= PageRest(p)
    ensures ComesThrough(x, p, h, chunks)
  {
    hide Drain, Boundary, PageRest, PageHeader, HeaderLen, FeedAll, Strands;
    var rest, q := PageRest(p), p + PageRest(p);
    var head, j := PageHeader(x, q, 0), h + |chunks[0]| - PageRest(p);
    HeaderChunk(chunks[0], Concat(chunks[1..]), rest - h, head);
    assert Zeros(h) + (Zeros(rest - h) + head[..j]) == Zeros(rest) + head[..j];
    PageStep(p, rest);
    FillerStep(p, rest, head[..j]);
    DrainHeader(x, q, j, [], 0, 0);
    var r, next := Idle(p, Zeros(h)), AtHeader(x, q, j, [], 0, 0);
    assert r.(pending := r.pending + chunks[0]) == Idle(p, Zeros(rest) + head[..j]);
    assert Takes(r, chunks[0], next);
    HeaderFeeds(x, q, j, [], 0, 0, chunks[1..]);
    FeedCons(r, chunks[0], chunks[1..], next);
    assert chunks == [chunks[0]] + chunks[1..];
    StrandsUnfolds(rest, h, chunks);
  }

  lemma HeaderChunk(a: Bytes, b: Bytes, z: nat, h: Bytes)
    requires a + b == Zeros(z) + h && |a| >= z
    ensures |a| - z <= |h| && a == Zeros(z) + h[..|a| - z] && h[..|a| - z] + b == h
  {
    var j := |a| - z;
    assert a == (Zeros(z) + h)[..|a|] == Zeros(z) + h[..j];
    assert b == (Zeros(z) + h)[|a|..] == h[j..];
  }

  /**
   Zero filler up to the end of a page is skipped by the bytes at hand, so its chunking matters. However the filler and
   the next page's header are chunked: the reader comes out behind the header, between records, if and only if no
   chunk ends one to three bytes before the page with four or more unread filler bytes at hand. Otherwise it takes the
   header for a record and loses the stream.
   */
  lemma FillerChunking(x: Wire, pos: nat, chunks: seq<Bytes>)
    requires KnownMagic(x.magic) && !Boundary(pos) && pos % 8 == 0
    requires Concat(chunks) == Zeros(PageRest(pos)) + PageHeader(x, pos + PageRest(pos), 0)
    ensures var d, q := FeedAll(Idle(pos, []), chunks), pos + PageRest(pos);
            && d.Done? && d.out == []
            && (d.reader.need == 0 <==> !Strands(PageRest(pos), 0, chunks))
            && (d.reader.need == 0 ==> d.reader == Idle(q + HeaderLen(q), []))
  {
    hide Drain, Boundary, PageRest, PageHeader, HeaderLen, FeedAll, Strands;
    AlignedRest(pos);
    FillFeeds(x, pos, 0, chunks);
    assert Zeros(0) == [];
  }
}
