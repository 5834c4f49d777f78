/**
 The framing of WAL records into pages, from the writer's side (tests/common/mod.rs `frame_wal`), and its round trip
 through the reader from every page boundary, for every chunking that strands no filler.
 */
module Framing {
  import opened Base
  import opened LittleEndian
  import opened WalReader

  /**
   What a server writes: its records and its release's page magic. An empty entry stands for zero filler: the rest of
   the page, or a whole page where it starts at a boundary.
   */
  datatype Wire = Wire(recs: seq<Bytes>, magic: nat)

  predicate WellFormedRecord(r: Bytes) {
    RECORD_HEADER <= |r| < 0x1_0000_0000 && Get(r[0..4]) == |r|
  }

  ghost predicate WellFormedWire(x: Wire) {
    KnownMagic(x.magic) && forall i :: 0 <= i < |x.recs| ==> x.recs[i] == [] || WellFormedRecord(x.recs[i])
  }

  /** There is more of the entry to write. */
  predicate Unfinished(r: Bytes, written: nat) {
    written < |r| || (r == [] && written == 0)
  }

  function PageHeader(x: Wire, pos: nat, rem: nat): (b: Bytes)
    ensures |b| == HeaderLen(pos)
  {
    var info := if pos % SEGMENT == 0 then 2 else 0;
    Put(x.magic, 2) + Put(info, 2) + Put(1, 4) + Put(pos, 8) + Put(rem, 4) + Zeros(HeaderLen(pos) - 20)
  }

  /** Bytes still to come of a record that spans the page boundary; 0 when it only begins there. */
  function Remaining(r: Bytes, written: nat): nat
    requires written <= |r|
  {
    if written > 0 then |r| - written else 0
  }

  function Take(r: Bytes, written: nat, pos: nat): (n: nat)
    requires written < |r|
    ensures 0 < n <= |r| - written && n <= PageRest(pos)
  {
    Min(PageRest(pos), |r| - written)
  }

  /** The stream from `pos` on, when `written` bytes of record `i` are already out. */
  function Frame(x: Wire, i: nat, written: nat, pos: nat): Bytes
    requires i <= |x.recs| && (i == |x.recs| || written <= |x.recs[i]|)
    decreases |x.recs| - i, if i == |x.recs| then 0 else |x.recs[i]| - written, if Boundary(pos) then 1 else 0
  {
    if i == |x.recs| then []
    else
      var r := x.recs[i];
      if r == [] && !Boundary(pos) then Zeros(PageRest(pos)) + Frame(x, i + 1, 0, pos + PageRest(pos))
      else if r != [] && written == |r| then Zeros(Padding(pos)) + Frame(x, i + 1, 0, pos + Padding(pos))
      else if Boundary(pos) then PageHeader(x, pos, Remaining(r, written)) + Frame(x, i, written, pos + HeaderLen(pos))
      else
        var n := Take(r, written, pos);
        r[written..written + n] + Frame(x, i, written + n, pos + n)
  }

  /**
   The records completed from `pos` on, each with the LSN its first byte was written at. `lsn` is that of record `i`
   if it has begun; `None` also when it began before the point of view, so that it does not count.
   */
  function Complete(x: Wire, i: nat, written: nat, pos: nat, lsn: Option<nat>): seq<Record>
    requires i <= |x.recs| && (i == |x.recs| || written <= |x.recs[i]|)
    decreases |x.recs| - i, if i == |x.recs| then 0 else |x.recs[i]| - written, if Boundary(pos) then 1 else 0
  {
    if i == |x.recs| then []
    else
      var r := x.recs[i];
      if r == [] && !Boundary(pos) then Complete(x, i + 1, 0, pos + PageRest(pos), None)
      else if r != [] && written == |r|
      then (if lsn.Some? then [(lsn.value, r)] else []) + Complete(x, i + 1, 0, pos + Padding(pos), None)
      else if Boundary(pos) then Complete(x, i, written, pos + HeaderLen(pos), lsn)
      else
        var n := Take(r, written, pos);
        Complete(x, i, written + n, pos + n, if written == 0 then Some(pos) else lsn)
  }

  /** Where each stretch of filler from `pos` on begins; it ends with its page. */
  function Fillers(x: Wire, i: nat, written: nat, pos: nat): seq<nat>
    requires i <= |x.recs| && (i == |x.recs| || written <= |x.recs[i]|)
    decreases |x.recs| - i, if i == |x.recs| then 0 else |x.recs[i]| - written, if Boundary(pos) then 1 else 0
  {
    if i == |x.recs| then []
    else
      var r := x.recs[i];
      if r == [] && !Boundary(pos) then [pos] + Fillers(x, i + 1, 0, pos + PageRest(pos))
      else if r != [] && written == |r| then Fillers(x, i + 1, 0, pos + Padding(pos))
      else if Boundary(pos) then Fillers(x, i, written, pos + HeaderLen(pos))
      else
        var n := Take(r, written, pos);
        Fillers(x, i, written + n, pos + n)
  }

  // ---- Filler and its chunking ----------------------------------------------------------

  /**
   `u` filler bytes to the end of the page, of which `h` have arrived unread; `h` is negative while bytes before the
   filler are still to come. The reader waits for four of them, and then skips what is at hand. The filler strands when
   some chunk's end makes it skip up to one to three bytes before the page.
   */
  predicate Strands(u: nat, h: int, chunks: seq<Bytes>)
    decreases |chunks|, if h >= 4 then 1 else 0
  {
    if h >= u then false
    else if h < 4 then chunks != [] && Strands(u, h + |chunks[0]|, chunks[1..])
    else u - h <= 3 || Strands(u - h, 0, chunks)
  }

  /** One of the stretches of filler that begin at `fillers` strands, when the bytes up to `end` have arrived. */
  predicate AnyStrands(fillers: seq<nat>, end: nat, chunks: seq<Bytes>)
    decreases |fillers|
  {
    fillers != []
    && (Strands(PageRest(fillers[0]), end - fillers[0], chunks) || AnyStrands(fillers[1..], end, chunks))
  }

  /** The chunk that arrives next may as well have arrived. */
  lemma {:induction false} Arrives(fillers: seq<nat>, end: nat, chunks: seq<Bytes>)
    requires chunks != [] && Waiting(fillers, end)
    ensures AnyStrands(fillers, end, chunks) <==> AnyStrands(fillers, end + |chunks[0]|, chunks[1..])
    decreases |fillers|
  {
    if fillers != [] {
      assert Waits(fillers[0], end);
      Arrives(fillers[1..], end, chunks);
    }
  }

  /** Not enough of this filler has arrived to be skipped. */
  ghost predicate Waits(filler: nat, end: nat) {
    end < filler + 4 && end < filler + PageRest(filler)
  }

  ghost predicate Waiting(fillers: seq<nat>, end: nat) {
    forall k :: 0 <= k < |fillers| ==> Waits(fillers[k], end)
  }

  // ---- Partial progress through the stream ----------------------------------------------

  lemma PageStep(pos: nat, n: nat)
    requires 0 < n <= PageRest(pos)
    ensures Boundary(pos + n) <==> n == PageRest(pos)
    ensures n < PageRest(pos) ==> PageRest(pos + n) == PageRest(pos) - n
  {
    var m := pos % PAGE;
    assert pos == PAGE * (pos / PAGE) + m;
    if n < PageRest(pos) {
      assert (pos + n) / PAGE == pos / PAGE && (pos + n) % PAGE == m + n;
    } else {
      assert pos + n == PAGE * (pos / PAGE + 1);
    }
  }

  lemma TakeUnfolds(x: Wire, i: nat, written: nat, pos: nat, lsn: Option<nat>)
    requires i < |x.recs| && written < |x.recs[i]| && !Boundary(pos)
    ensures var n := Take(x.recs[i], written, pos);
            && Frame(x, i, written, pos) == x.recs[i][written..written + n] + Frame(x, i, written + n, pos + n)
            && Complete(x, i, written, pos, lsn)
            == Complete(x, i, written + n, pos + n, if written == 0 then Some(pos) else lsn)
            && Fillers(x, i, written, pos) == Fillers(x, i, written + n, pos + n)
  {
    hide Frame, Complete, Fillers, Boundary, Take;
    TakeFrames(x, i, written, pos);
    TakeCompletes(x, i, written, pos, lsn);
    TakeFills(x, i, written, pos);
  }

  lemma TakeFills(x: Wire, i: nat, written: nat, pos: nat)
    requires i < |x.recs| && written < |x.recs[i]| && !Boundary(pos)
    ensures var n := Take(x.recs[i], written, pos); Fillers(x, i, written, pos) == Fillers(x, i, written + n, pos + n)
  {
    hide Padding, HeaderLen, PageHeader, Boundary, PageRest, Take, Zeros, Frame, Complete;
  }

  lemma TakeFrames(x: Wire, i: nat, written: nat, pos: nat)
    requires i < |x.recs| && written < |x.recs[i]| && !Boundary(pos)
    ensures var n := Take(x.recs[i], written, pos);
            Frame(x, i, written, pos) == x.recs[i][written..written + n] + Frame(x, i, written + n, pos + n)
  {
    hide Padding, HeaderLen, PageHeader, Boundary, PageRest, Take, Zeros, Complete, Remaining;
  }

  lemma TakeCompletes(x: Wire, i: nat, written: nat, pos: nat, lsn: Option<nat>)
    requires i < |x.recs| && written < |x.recs[i]| && !Boundary(pos)
    ensures var n := Take(x.recs[i], written, pos);
            Complete(x, i, written, pos, lsn) == Complete(x, i, written + n, pos + n, if written == 0 then Some(pos) else lsn)
  {
    hide Padding, HeaderLen, PageHeader, Boundary, PageRest, Take, Zeros, Frame;
  }

  /** Any part of a record's bytes on one page can be taken on its own. */
  lemma TakePart(x: Wire, i: nat, written: nat, pos: nat, lsn: Option<nat>, n: nat)
    requires i < |x.recs| && written < |x.recs[i]| && !Boundary(pos) && 0 < n <= Take(x.recs[i], written, pos)
    ensures Frame(x, i, written, pos) == x.recs[i][written..written + n] + Frame(x, i, written + n, pos + n)
    ensures Complete(x, i, written, pos, lsn)
         == Complete(x, i, written + n, pos + n, if written == 0 then Some(pos) else lsn)
    ensures Fillers(x, i, written, pos) == Fillers(x, i, written + n, pos + n)
  {
    hide Frame, Complete, Fillers;
    var r := x.recs[i];
    var full := Take(r, written, pos);
    TakeUnfolds(x, i, written, pos, lsn);
    if n < full {
      PageStep(pos, n);
      TakeUnfolds(x, i, written + n, pos + n, if written == 0 then Some(pos) else lsn);
      assert Take(r, written + n, pos + n) == full - n;
      assert r[written..written + full] == r[written..written + n] + r[written + n..written + full];
    }
  }

  lemma FillUnfolds(x: Wire, i: nat, pos: nat, lsn: Option<nat>)
    requires i < |x.recs| && x.recs[i] == [] && !Boundary(pos)
    ensures var q := pos + PageRest(pos);
            && Frame(x, i, 0, pos) == Zeros(PageRest(pos)) + Frame(x, i + 1, 0, q)
            && Complete(x, i, 0, pos, lsn) == Complete(x, i + 1, 0, q, None)
            && Fillers(x, i, 0, pos) == [pos] + Fillers(x, i + 1, 0, q)
  {
    hide Padding, HeaderLen, PageHeader, PageRest;
  }

  /** Any part of the filler on a page can be taken on its own. */
  lemma FillPart(x: Wire, i: nat, pos: nat, n: nat)
    requires i < |x.recs| && x.recs[i] == [] && !Boundary(pos) && 0 < n < PageRest(pos)
    ensures !Boundary(pos + n) && Frame(x, i, 0, pos) == Zeros(n) + Frame(x, i, 0, pos + n)
    ensures Complete(x, i, 0, pos, None) == Complete(x, i, 0, pos + n, None)
    ensures Fillers(x, i, 0, pos) == [pos] + Fillers(x, i + 1, 0, pos + PageRest(pos))
    ensures Fillers(x, i, 0, pos + n) == [pos + n] + Fillers(x, i + 1, 0, pos + PageRest(pos))
  {
    hide Frame, Complete, Fillers;
    PageStep(pos, n);
    FillUnfolds(x, i, pos, None);
    FillUnfolds(x, i, pos + n, None);
    assert Zeros(PageRest(pos)) == Zeros(n) + Zeros(PageRest(pos) - n);
  }

  lemma HeaderUnfolds(x: Wire, i: nat, written: nat, pos: nat, lsn: Option<nat>)
    requires i < |x.recs| && Unfinished(x.recs[i], written) && Boundary(pos)
    ensures var h := PageHeader(x, pos, Remaining(x.recs[i], written));
            && Frame(x, i, written, pos) == h + Frame(x, i, written, pos + |h|)
            && Complete(x, i, written, pos, lsn) == Complete(x, i, written, pos + |h|, lsn)
            && Fillers(x, i, written, pos) == Fillers(x, i, written, pos + |h|)
  {
    hide Padding, Take, PageRest, Boundary, Zeros;
  }

  lemma DoneUnfolds(x: Wire, i: nat, pos: nat, lsn: Option<nat>)
    requires i < |x.recs| && x.recs[i] != []
    ensures var r, q := x.recs[i], pos + Padding(pos);
            && Frame(x, i, |r|, pos) == Zeros(Padding(pos)) + Frame(x, i + 1, 0, q)
            && Complete(x, i, |r|, pos, lsn) == (if lsn.Some? then [(lsn.value, r)] else []) + Complete(x, i + 1, 0, q, None)
            && Fillers(x, i, |r|, pos) == Fillers(x, i + 1, 0, q)
  {
    hide Take, PageRest, Boundary, HeaderLen, PageHeader;
  }

  lemma HeaderFields(x: Wire, pos: nat, rem: nat)
    requires KnownMagic(x.magic) && rem < 0x1_0000_0000
    ensures var h := PageHeader(x, pos, rem); Get(h[0..2]) == x.magic && Get(h[16..20]) == rem
  {
    var h := PageHeader(x, pos, rem);
    Widths();
    GetPut(x.magic, 2);
    GetPut(rem, 4);
    assert h[0..2] == Put(x.magic, 2) && h[16..20] == Put(rem, 4);
  }

  lemma PaddingStep(pos: nat, n: nat)
    requires n <= Padding(pos)
    ensures Padding(pos + n) == Padding(pos) - n
  {
    var q, m := pos / 8, pos % 8;
    assert pos == 8 * q + m;
    if m == 0 {
    } else if m + n < 8 {
      assert pos + n == 8 * q + (m + n);
      assert (pos + n) % 8 == m + n;
    } else {
      assert pos + n == 8 * (q + 1);
    }
  }

  lemma PaddingOnPage(pos: nat)
    ensures Padding(pos) > 0 ==> !Boundary(pos) && Padding(pos) <= PageRest(pos)
  {
    var p, m := pos / PAGE, pos % PAGE;
    assert pos == 8 * (1024 * p) + m;
    assert pos % 8 == m % 8;
    assert m == 8 * (m / 8) + m % 8 && m / 8 <= 1023;
  }

  lemma OffsetOnPage(p: nat, h: nat)
    requires h < PAGE && h % 8 == 0
    ensures (PAGE * p + h) % PAGE == h && (PAGE * p + h) % 8 == 0
  {
    assert PAGE * p + h == 8 * (1024 * p + h / 8);
  }

  lemma HeaderKeepsAlignment(pos: nat)
    requires Boundary(pos)
    ensures Padding(pos + HeaderLen(pos)) == 0 && !Boundary(pos + HeaderLen(pos)) && pos % 8 == 0
  {
    hide HeaderLen;
    HeaderSizes(pos);
    var p := pos / PAGE;
    assert pos == PAGE * p;
    OffsetOnPage(p, 0);
    OffsetOnPage(p, HeaderLen(pos));
  }

  lemma HeaderSizes(pos: nat)
    ensures HeaderLen(pos) == 24 || HeaderLen(pos) == 40
  {
  }

  // ---- Where the reader stands in the stream --------------------------------------------

  /**
   `Joining`: at the start position, mid-record perhaps. `Ready`: about to begin record `i`. `Inside`: joining record
   `i`. `Skipping`: discarding the rest of record `i`. `Aligning`: `Padding(pos)` bytes before record `i`. `Filling`:
   within the filler that is entry `i`.
   */
  datatype Place =
    | Joining(i: nat, written: nat)
    | Ready(i: nat)
    | Inside(i: nat, written: nat, lsn: nat)
    | Skipping(i: nat, written: nat)
    | Aligning(i: nat)
    | Filling(i: nat)

  function Written(c: Place): nat {
    match c
    case Joining(_, w) => w
    case Inside(_, w, _) => w
    case Skipping(_, w) => w
    case _ => 0
  }

  ghost predicate At(x: Wire, c: Place, r: Reader) {
    && c.i <= |x.recs|
    && match c
       case Joining(i, w) =>
         !r.started && r.need == 0 && r.skipLeft == 0 && Boundary(r.pos) && (i < |x.recs| ==> Unfinished(x.recs[i], w))
       case Ready(i) => r.started && r.need == 0 && r.skipLeft == 0 && r.pos % 8 == 0
       case Inside(i, w, lsn) =>
         && r.started && r.skipLeft == 0 && i < |x.recs| && w < |x.recs[i]|
         && r.need == |x.recs[i]| && r.rec == x.recs[i][..w] && r.recLsn == lsn
         && (w == 0 ==> lsn == r.pos && !Boundary(r.pos))
       case Skipping(i, w) =>
         r.started && r.need == 0 && i < |x.recs| && 0 < w < |x.recs[i]| && r.skipLeft == |x.recs[i]| - w
       case Aligning(i) => r.started && r.need == 0 && r.skipLeft == Padding(r.pos) > 0
       case Filling(i) =>
         && r.started && r.need == 0 && r.skipLeft == 0 && !Boundary(r.pos)
         && i < |x.recs| && x.recs[i] == []
  }

  ghost function Rest(x: Wire, c: Place, r: Reader): Bytes
    requires At(x, c, r)
  {
    if c.Aligning? then Zeros(r.skipLeft) + Frame(x, c.i, 0, r.pos + r.skipLeft) else Frame(x, c.i, Written(c), r.pos)
  }

  ghost function Owed(x: Wire, c: Place, r: Reader): seq<Record>
    requires At(x, c, r)
  {
    match c
    case Aligning(i) => Complete(x, i, 0, r.pos + r.skipLeft, None)
    case Inside(i, w, lsn) => Complete(x, i, w, r.pos, Some(lsn))
    case _ => Complete(x, c.i, Written(c), r.pos, None)
  }

  /** The filler still ahead. */
  ghost function Ahead(x: Wire, c: Place, r: Reader): seq<nat>
    requires At(x, c, r)
  {
    if c.Aligning? then Fillers(x, c.i, 0, r.pos + r.skipLeft) else Fillers(x, c.i, Written(c), r.pos)
  }

  /** Between records with one to three filler bytes left on the page: these and the header behind will pass for a length. */
  ghost predicate Stranded(c: Place, r: Reader) {
    c.Filling? && PageRest(r.pos) < 4
  }

  /** The reader has stranded, or will with these chunks to come. */
  ghost predicate Loses(x: Wire, c: Place, r: Reader, chunks: seq<Bytes>)
    requires At(x, c, r)
  {
    Stranded(c, r) || AnyStrands(Ahead(x, c, r), r.pos + |r.pending|, chunks)
  }

  /** The pending bytes are the stream from here on, up to what is still to arrive. */
  ghost predicate Tracks(x: Wire, c: Place, r: Reader, future: Bytes) {
    WellFormedWire(x) && At(x, c, r) && r.pending + future == Rest(x, c, r)
  }

  /** After the last byte of record `i`: padding, or straight to the next record. */
  function AfterRecord(i: nat, pos: nat): Place {
    if Padding(pos) > 0 then Aligning(i + 1) else Ready(i + 1)
  }

  /** An iteration to `next` leaves the filler ahead as it was, or skips a stretch, or as much of it as has arrived. */
  ghost predicate Passes(f: seq<nat>, f': seq<nat>, c': Place, next: Reader) {
    || (f' == f && !c'.Filling?)
    || (f != [] && f' == f[1..] && !c'.Filling? && next.pos + |next.pending| >= f[0] + PageRest(f[0]))
    || (&& f != [] && f' == [next.pos] + f[1..] && c'.Filling? && next.pending == []
        && f[0] + 4 <= next.pos < f[0] + PageRest(f[0]) == next.pos + PageRest(next.pos))
  }

  lemma PassesKeeps(f: seq<nat>, f': seq<nat>, c': Place, next: Reader, chunks: seq<Bytes>)
    requires Passes(f, f', c', next)
    ensures var end := next.pos + |next.pending|;
            AnyStrands(f, end, chunks) <==> Stranded(c', next) || AnyStrands(f', end, chunks)
  {
    hide PageRest;
    if c'.Filling? {
      assert f'[0] == next.pos && f'[1..] == f[1..];
    }
  }

  /** One iteration stays on the stream and emits what it owes. */
  ghost predicate Progress(x: Wire, c: Place, r: Reader, future: Bytes)
    requires At(x, c, r) && Sane(r)
  {
    match StepOf(r)
    case Stuck => future == [] ==> Owed(x, c, r) == []
    case Corrupt => false
    case Goes(next, out) =>
      exists c' :: Tracks(x, c', next, future) && Owed(x, c, r) == out + Owed(x, c', next)
                   && Passes(Ahead(x, c, r), Ahead(x, c', next), c', next)
  }

  lemma DropPrefix(a: Bytes, b: Bytes, p: Bytes, f: Bytes)
    requires p + f == a + b && |a| <= |p|
    ensures p[..|a|] == a && p[|a|..] + f == b
  {
    assert (p + f)[..|a|] == (a + b)[..|a|];
    assert (p + f)[|a|..] == (a + b)[|a|..];
    assert (a + b)[|a|..] == b && (p + f)[|a|..] == p[|a|..] + f;
  }

  /** Too few bytes for what comes next means that more are still to arrive. */
  lemma NotTheEnd(a: Bytes, b: Bytes, p: Bytes, f: Bytes)
    requires p + f == a + b && |p| < |a|
    ensures f != []
  {
  }

  lemma NotDone(x: Wire, c: Place, r: Reader, future: Bytes)
    requires Tracks(x, c, r, future) && r.pending != [] && !c.Aligning?
    ensures c.i < |x.recs|
  {
  }

  /** A page boundary in the stream: the header, and then the stream it interrupts. */
  lemma HeaderAhead(x: Wire, i: nat, w: nat, pos: nat, lsn: Option<nat>, pending: Bytes, future: Bytes)
    requires WellFormedWire(x) && i < |x.recs| && Unfinished(x.recs[i], w) && Boundary(pos) && pending + future == Frame(x, i, w, pos)
    ensures var q := pos + HeaderLen(pos);
            && (|pending| < HeaderLen(pos) ==> future != [])
            && (|pending| >= HeaderLen(pos) ==>
                  && Get(pending[0..2]) == x.magic && Get(pending[16..20]) == Remaining(x.recs[i], w)
                  && pending[HeaderLen(pos)..] + future == Frame(x, i, w, q))
            && Complete(x, i, w, pos, lsn) == Complete(x, i, w, q, lsn) && Fillers(x, i, w, pos) == Fillers(x, i, w, q)
  {
    hide Frame, Complete, Fillers, Boundary, PageHeader, Get;
    assert x.recs[i] == [] || WellFormedRecord(x.recs[i]);
    HeaderFields(x, pos, Remaining(x.recs[i], w));
    HeaderUnfolds(x, i, w, pos, lsn);
    var h := PageHeader(x, pos, Remaining(x.recs[i], w));
    if |pending| < |h| {
      NotTheEnd(h, Frame(x, i, w, pos + |h|), pending, future);
    } else {
      DropPrefix(h, Frame(x, i, w, pos + |h|), pending, future);
      assert pending[0..2] == h[0..2] && pending[16..20] == h[16..20];
    }
  }

  /** A page header is stripped whatever is going on; only the first one decides what to skip. */
  lemma HeaderStep(x: Wire, c: Place, r: Reader, future: Bytes)
    requires Tracks(x, c, r, future) && Sane(r) && r.pending != [] && Boundary(r.pos)
    ensures Progress(x, c, r, future)
  {
    hide Frame, Complete, Fillers, Padding, Boundary, PageRest, HeaderLen, Get, Drain, Discard, Join, BeginRecord;
    PaddingOnPage(r.pos);
    NotDone(x, c, r, future);
    HeaderAhead(x, c.i, Written(c), r.pos, if c.Inside? then Some(c.lsn) else None, r.pending, future);
    HeaderKeepsAlignment(r.pos);
    if |r.pending| >= HeaderLen(r.pos) {
      if c.Joining? {
        JoinedAt(x, c, r, future);
      } else {
        assert Tracks(x, c, StepOf(r).next, future);
      }
    }
  }

  /** The first header tells how much of a record begun earlier is to be discarded. */
  lemma JoinedAt(x: Wire, c: Place, r: Reader, future: Bytes)
    requires Tracks(x, c, r, future) && c.Joining? && c.i < |x.recs| && Boundary(r.pos) && Sane(r)
    requires |r.pending| >= HeaderLen(r.pos) && r.pending != []
    ensures Progress(x, c, r, future)
  {
    hide Frame, Complete, Fillers, Padding, Boundary, PageRest, Get, Drain, Discard, Join, BeginRecord;
    HeaderAhead(x, c.i, c.written, r.pos, None, r.pending, future);
    HeaderKeepsAlignment(r.pos);
    var c' := if c.written == 0 then Ready(c.i) else Skipping(c.i, c.written);
    assert Tracks(x, c', StepOf(r).next, future);
  }

  lemma RecordDone(x: Wire, i: nat, r: Reader, future: Bytes, lsn: Option<nat>)
    requires WellFormedWire(x) && i < |x.recs| && x.recs[i] != [] && r.started && r.need == 0 && r.skipLeft == Padding(r.pos)
    requires r.pending + future == Frame(x, i, |x.recs[i]|, r.pos)
    ensures Tracks(x, AfterRecord(i, r.pos), r, future)
    ensures Complete(x, i, |x.recs[i]|, r.pos, lsn)
         == (if lsn.Some? then [(lsn.value, x.recs[i])] else []) + Owed(x, AfterRecord(i, r.pos), r)
    ensures Fillers(x, i, |x.recs[i]|, r.pos) == Ahead(x, AfterRecord(i, r.pos), r)
  {
    hide Frame, Complete, Fillers, PageRest, Get;
    DoneUnfolds(x, i, r.pos, lsn);
    if Padding(r.pos) == 0 {
      assert Zeros(0) + Frame(x, i + 1, 0, r.pos + 0) == Frame(x, i + 1, 0, r.pos);
      assert (r.pos + Padding(r.pos)) % 8 == 0;
    }
  }

  lemma AlignStep(x: Wire, c: Place, r: Reader, future: Bytes)
    requires Tracks(x, c, r, future) && c.Aligning? && Sane(r) && r.pending != []
    ensures Progress(x, c, r, future)
  {
    hide Frame, Complete, Fillers, Get, Padding, Boundary, WellFormedWire, Unfinished, StepOf, Rest, Owed, Ahead;
    AlignGoes(r);
    Aligned(x, c, r, future);
    var take := Min(r.skipLeft, |r.pending|);
    var next, c' := Advance(r, take).(skipLeft := r.skipLeft - take), if take == r.skipLeft then Ready(c.i) else c;
    assert StepOf(r) == Goes(next, []);
    assert Owed(x, c, r) == [] + Owed(x, c', next);
  }

  /** Some or all of the padding is skipped. */
  lemma Aligned(x: Wire, c: Place, r: Reader, future: Bytes)
    requires Tracks(x, c, r, future) && c.Aligning? && r.pending != []
    ensures var take := Min(r.skipLeft, |r.pending|);
            var next, c' := Advance(r, take).(skipLeft := r.skipLeft - take), if take == r.skipLeft then Ready(c.i) else c;
            && Tracks(x, c', next, future) && Owed(x, c, r) == Owed(x, c', next)
            && Ahead(x, c, r) == Ahead(x, c', next) && !c'.Filling?
  {
    hide Frame, Complete, Fillers, Get, Boundary, WellFormedWire, Unfinished;
    var take := Min(r.skipLeft, |r.pending|);
    SplitPadding(r.skipLeft, take, Frame(x, c.i, 0, r.pos + r.skipLeft), r.pending, future);
    PaddingStep(r.pos, take);
    if take == r.skipLeft {
      assert Zeros(0) + Frame(x, c.i, 0, r.pos + r.skipLeft) == Frame(x, c.i, 0, r.pos + r.skipLeft);
      PaddingAligns(r.pos);
    }
  }

  lemma AlignGoes(r: Reader)
    requires Sane(r) && r.need == 0 && r.pending != [] && r.skipLeft == Padding(r.pos) > 0
    ensures var take := Min(r.skipLeft, |r.pending|);
            && StepOf(r) == Goes(Advance(r, take).(skipLeft := Padding(r.pos + take)), [])
            && Padding(r.pos + take) == r.skipLeft - take
  {
    hide Get, Drain, Padding, Boundary, PageRest, StripHeader, Join, BeginRecord;
    PaddingOnPage(r.pos);
    PaddingStep(r.pos, Min(r.skipLeft, |r.pending|));
  }

  lemma PaddingAligns(pos: nat)
    ensures (pos + Padding(pos)) % 8 == 0
  {
  }

  lemma SplitPadding(skip: nat, take: nat, more: Bytes, pending: Bytes, future: Bytes)
    requires take <= skip && take <= |pending| && pending + future == Zeros(skip) + more
    ensures pending[take..] + future == Zeros(skip - take) + more
  {
    assert Zeros(skip) == Zeros(take) + Zeros(skip - take);
    assert Zeros(skip) + more == Zeros(take) + (Zeros(skip - take) + more);
    DropPrefix(Zeros(take), Zeros(skip - take) + more, pending, future);
  }

  lemma SkipStep(x: Wire, c: Place, r: Reader, future: Bytes)
    requires Tracks(x, c, r, future) && c.Skipping? && Sane(r) && r.pending != [] && !Boundary(r.pos)
    ensures Progress(x, c, r, future)
  {
    hide Frame, Complete, Fillers, Get, Drain, Padding, Boundary, PageRest, StripHeader, Join, BeginRecord, WellFormedWire;
    var rec, w := x.recs[c.i], c.written;
    var take := Min(Take(rec, w, r.pos), |r.pending|);
    TakePart(x, c.i, w, r.pos, None, take);
    DropPrefix(rec[w..w + take], Frame(x, c.i, w + take, r.pos + take), r.pending, future);
    var next := StepOf(r).next;
    if w + take == |rec| {
      RecordDone(x, c.i, next, future, None);
    } else {
      assert Tracks(x, Skipping(c.i, w + take), next, future);
    }
  }

  lemma JoinStep(x: Wire, c: Place, r: Reader, future: Bytes)
    requires Tracks(x, c, r, future) && c.Inside? && Sane(r) && r.pending != [] && !Boundary(r.pos)
    ensures Progress(x, c, r, future)
  {
    hide Frame, Complete, Fillers, Get, Drain, Padding, Boundary, PageRest, StripHeader, Discard, BeginRecord, WellFormedWire;
    var rec, w := x.recs[c.i], c.written;
    var take := Min(Take(rec, w, r.pos), |r.pending|);
    TakePart(x, c.i, w, r.pos, Some(c.lsn), take);
    DropPrefix(rec[w..w + take], Frame(x, c.i, w + take, r.pos + take), r.pending, future);
    assert rec[..w] + rec[w..w + take] == rec[..w + take];
    var next := StepOf(r).next;
    if w + take == |rec| {
      assert rec[..|rec|] == rec;
      RecordDone(x, c.i, next, future, Some(c.lsn));
    } else {
      assert Tracks(x, Inside(c.i, w + take, c.lsn), next, future);
    }
  }

  /** What the reader finds when it is ready: the length field of the next record, or too few bytes yet. */
  lemma RecordAhead(x: Wire, c: Place, r: Reader, future: Bytes)
    requires Tracks(x, c, r, future) && c.Ready? && r.pending != [] && !Boundary(r.pos)
    requires c.i < |x.recs| && x.recs[c.i] != []
    ensures |r.pending| < 4 ==> future != []
    ensures |r.pending| >= 4 ==> Get(r.pending[0..4]) == |x.recs[c.i]| >= RECORD_HEADER
  {
    var rec := x.recs[c.i];
    assert WellFormedRecord(rec);
    AlignedRest(r.pos);
    hide Frame, Complete, Fillers, Get, Boundary, PageRest, Padding;
    var n := Take(rec, 0, r.pos);
    assert n >= 8;
    TakeUnfolds(x, c.i, 0, r.pos, None);
    assert forall k :: 0 <= k < n && k < |r.pending| ==> r.pending[k] == (r.pending + future)[k] == rec[k];
    if |r.pending| >= 4 {
      assert r.pending[0..4] == rec[0..4];
    }
  }

  lemma BeginStep(x: Wire, c: Place, r: Reader, future: Bytes)
    requires Tracks(x, c, r, future) && c.Ready? && Sane(r) && r.pending != [] && !Boundary(r.pos)
    requires c.i < |x.recs| && x.recs[c.i] != []
    ensures Progress(x, c, r, future)
  {
    RecordAhead(x, c, r, future);
    hide Frame, Complete, Fillers, Get, Drain, Padding, Boundary, PageRest, StripHeader, Discard, Join;
    if |r.pending| >= 4 {
      assert x.recs[c.i][..0] == [];
      BeginOwed(x, c.i, r.pos);
      assert Tracks(x, Inside(c.i, 0, r.pos), StepOf(r).next, future);
    }
  }

  lemma ZerosRead(b: Bytes, rest: nat, more: Bytes, future: Bytes)
    requires b + future == Zeros(rest) + more && rest >= 4
    ensures |b| < 4 ==> future != []
    ensures |b| >= 4 ==> Get(b[0..4]) == 0
  {
    if |b| >= 4 {
      assert forall k :: 0 <= k < 4 ==> b[k] == (b + future)[k] == 0;
      assert b[0..4] == Zeros(4);
      GetZeros(4);
    }
  }

  lemma {:induction false} GetZeros(n: nat)
    ensures Get(Zeros(n)) == 0
  {
    if n > 0 {
      GetZeros(n - 1);
      assert Zeros(n)[1..] == Zeros(n - 1);
    }
  }

  /** Filler is recognised by its first four bytes and skipped as far as it has arrived. */
  lemma FillStep(x: Wire, c: Place, r: Reader, future: Bytes)
    requires Tracks(x, c, r, future) && (c.Ready? || c.Filling?) && Sane(r) && r.pending != [] && !Boundary(r.pos)
    requires c.i < |x.recs| && x.recs[c.i] == [] && !Stranded(c, r)
    ensures Progress(x, c, r, future)
  {
    hide Frame, Complete, Fillers, Get, Drain, Padding, Boundary, PageRest, StripHeader, Discard, Join, WellFormedWire;
    if c.Ready? {
      AlignedRest(r.pos);
    }
    FillUnfolds(x, c.i, r.pos, None);
    var rest := PageRest(r.pos);
    ZerosRead(r.pending, rest, Frame(x, c.i + 1, 0, r.pos + rest), future);
    if |r.pending| >= 4 {
      var take := Min(rest, |r.pending|);
      var next := Advance(r, take);
      assert StepOf(r) == Goes(next, []);
      var f, more := Ahead(x, c, r), Fillers(x, c.i + 1, 0, r.pos + rest);
      assert f == [r.pos] + more && f[1..] == more;
      PageStep(r.pos, take);
      if take == rest {
        BoundaryAligned(r.pos + rest);
        DropPrefix(Zeros(rest), Frame(x, c.i + 1, 0, r.pos + rest), r.pending, future);
        assert Tracks(x, Ready(c.i + 1), next, future);
        assert Passes(f, more, Ready(c.i + 1), next);
      } else {
        FillPart(x, c.i, r.pos, take);
        DropPrefix(Zeros(take), Frame(x, c.i, 0, r.pos + take), r.pending, future);
        assert Tracks(x, Filling(c.i), next, future);
        assert Passes(f, [next.pos] + more, Filling(c.i), next);
      }
    }
  }

  lemma BoundaryAligned(pos: nat)
    requires Boundary(pos)
    ensures pos % 8 == 0
  {
    assert pos == 8 * (1024 * (pos / PAGE));
  }

  lemma BeginOwed(x: Wire, i: nat, pos: nat)
    requires i < |x.recs| && 0 < |x.recs[i]| && !Boundary(pos)
    ensures Complete(x, i, 0, pos, None) == Complete(x, i, 0, pos, Some(pos))
  {
  }

  lemma AlignedRest(pos: nat)
    requires pos % 8 == 0 && !Boundary(pos)
    ensures PageRest(pos) >= 8
  {
    assert pos == PAGE * (pos / PAGE) + pos % PAGE;
    assert (pos % PAGE) % 8 == 0 by { assert pos % PAGE == 8 * (pos / 8 - 1024 * (pos / PAGE)); }
  }

  lemma StepTracks(x: Wire, c: Place, r: Reader, future: Bytes)
    requires Tracks(x, c, r, future) && Sane(r) && (r.pending != [] ==> !Stranded(c, r))
    ensures Progress(x, c, r, future)
  {
    if r.pending == [] {
      if future == [] {
        NothingLeft(x, c, r);
      }
    } else if Boundary(r.pos) {
      HeaderStep(x, c, r, future);
    } else {
      match c
      case Joining(_, _) =>
      case Ready(_) =>
        NotDone(x, c, r, future);
        if x.recs[c.i] == [] {
          FillStep(x, c, r, future);
        } else {
          BeginStep(x, c, r, future);
        }
      case Filling(_) => FillStep(x, c, r, future);
      case Inside(_, _, _) => JoinStep(x, c, r, future);
      case Skipping(_, _) => SkipStep(x, c, r, future);
      case Aligning(_) => AlignStep(x, c, r, future);
    }
  }

  lemma NothingLeft(x: Wire, c: Place, r: Reader)
    requires WellFormedWire(x) && At(x, c, r) && Rest(x, c, r) == []
    ensures Owed(x, c, r) == []
  {
  }

  /** Draining keeps the reader on the stream, and whether it loses it. */
  lemma {:induction false} DrainTracks(x: Wire, c: Place, r: Reader, future: Bytes, chunks: seq<Bytes>) returns (c': Place)
    requires Tracks(x, c, r, future) && Sane(r) && (r.pending != [] ==> !Stranded(c, r))
    ensures Drain(r).Done? && Halted(Drain(r).reader)
    ensures Drain(r).reader.pos + |Drain(r).reader.pending| == r.pos + |r.pending|
    ensures Tracks(x, c', Drain(r).reader, future)
    ensures Owed(x, c, r) == Drain(r).out + Owed(x, c', Drain(r).reader)
    ensures Loses(x, c, r, chunks) <==> Loses(x, c', Drain(r).reader, chunks)
    ensures future == [] ==> Owed(x, c', Drain(r).reader) == []
    decreases Fuel(r)
  {
    hide Frame, Complete, Fillers, Get, At, Rest, Owed, Ahead, StepOf, Stranded, AnyStrands, Passes;
    StepTracks(x, c, r, future);
    if StepOf(r).Stuck? {
      c' := c;
    } else {
      var next, out := StepOf(r).next, StepOf(r).out;
      StepShrinks(r);
      var c1 :| Tracks(x, c1, next, future) && Owed(x, c, r) == out + Owed(x, c1, next)
                && Passes(Ahead(x, c, r), Ahead(x, c1, next), c1, next);
      assert r.pending != [] by { GoesOn(r); }
      StepKeeps(x, c, r, c1, chunks);
      c' := DrainTracks(x, c1, next, future, chunks);
    }
  }

  /** Nothing more to be done with the bytes at hand. */
  predicate Halted(r: Reader) {
    Sane(r) && StepOf(r).Stuck?
  }

  lemma GoesOn(r: Reader)
    requires Sane(r) && StepOf(r).Goes?
    ensures r.pending != []
  {
  }

  lemma StepKeeps(x: Wire, c: Place, r: Reader, c': Place, chunks: seq<Bytes>)
    requires At(x, c, r) && Sane(r) && StepOf(r).Goes? && At(x, c', StepOf(r).next) && !Stranded(c, r)
    requires Passes(Ahead(x, c, r), Ahead(x, c', StepOf(r).next), c', StepOf(r).next)
    ensures Loses(x, c, r, chunks) <==> Loses(x, c', StepOf(r).next, chunks)
    ensures StepOf(r).next.pending != [] ==> !Stranded(c', StepOf(r).next)
  {
    hide Fillers, AnyStrands, At, StepOf;
    StepShrinks(r);
    PassesKeeps(Ahead(x, c, r), Ahead(x, c', StepOf(r).next), c', StepOf(r).next, chunks);
  }

  // ---- Chunks ---------------------------------------------------------------------------

  function Concat(chunks: seq<Bytes>): Bytes {
    if chunks == [] then [] else chunks[0] + Concat(chunks[1..])
  }

  /** Feed the chunks one after the other; the records of all calls, or `Failed`. */
  function FeedAll(r: Reader, chunks: seq<Bytes>): Drained
    requires Sane(r)
    decreases |chunks|
  {
    if chunks == [] then Done(r, [])
    else
      match Drain(r.(pending := r.pending + chunks[0]))
      case Failed => Failed
      case Done(next, out) =>
        if !Sane(next) then Failed
        else
          match FeedAll(next, chunks[1..])
          case Failed => Failed
          case Done(last, more) => Done(last, out + more)
  }

  lemma {:induction false} FeedTracks(x: Wire, c: Place, r: Reader, chunks: seq<Bytes>)
    requires Tracks(x, c, r, Concat(chunks)) && Halted(r) && !Loses(x, c, r, chunks)
    requires chunks == [] ==> Owed(x, c, r) == []
    ensures FeedAll(r, chunks).Done? && FeedAll(r, chunks).out == Owed(x, c, r)
    decreases |chunks|
  {
    hide Frame, Complete, Fillers, Get, At, Rest, Owed, Drain, Tracks, AnyStrands, Ahead, Stranded, StepOf;
    if chunks != [] {
      var fed, future := r.(pending := r.pending + chunks[0]), Concat(chunks[1..]);
      FedTracks(x, c, r, chunks[0], future);
      FedKeeps(x, c, r, chunks);
      var c' := DrainTracks(x, c, fed, future, chunks[1..]);
      NothingTo(x, c', Drain(fed).reader, chunks[1..]);
      FeedTracks(x, c', Drain(fed).reader, chunks[1..]);
    }
  }

  /** A chunk that arrives does not change what happens to the filler. */
  lemma FedKeeps(x: Wire, c: Place, r: Reader, chunks: seq<Bytes>)
    requires Tracks(x, c, r, Concat(chunks)) && Halted(r) && chunks != [] && !Stranded(c, r)
    ensures var fed := r.(pending := r.pending + chunks[0]);
            && At(x, c, fed) && !Stranded(c, fed)
            && (Loses(x, c, r, chunks) <==> Loses(x, c, fed, chunks[1..]))
  {
    hide Frame, Complete, Fillers, Get, StepOf, AnyStrands, WellFormedWire;
    HaltedWaits(x, c, r, Concat(chunks));
    Arrives(Ahead(x, c, r), r.pos + |r.pending|, chunks);
  }

  /** A reader that cannot go on has too little of every stretch of filler. */
  lemma HaltedWaits(x: Wire, c: Place, r: Reader, future: Bytes)
    requires Tracks(x, c, r, future) && Halted(r) && !Stranded(c, r)
    ensures Waiting(Ahead(x, c, r), r.pos + |r.pending|)
  {
    hide Frame, Complete, Fillers, Get, Padding, PageRest, Boundary, HeaderLen, StepOf, Waiting;
    if r.pending == [] {
      FillersFrom(x, c.i, Written(c), if c.Aligning? then r.pos + r.skipLeft else r.pos);
      WaitingFrom(Ahead(x, c, r), r.pos, r.pos);
    } else if Boundary(r.pos) {
      HaltedAtHeader(x, c, r, future);
    } else {
      HaltedBetween(r);
      NotDone(x, c, r, future);
      assert x.recs[c.i] == [] || WellFormedRecord(x.recs[c.i]);
      if x.recs[c.i] == [] {
        if c.Ready? {
          AlignedRest(r.pos);
        }
        HaltedInFiller(x, c.i, r.pos, r.pos + |r.pending|);
      } else {
        HaltedAtRecord(x, c.i, r.pos, r.pos + |r.pending|);
      }
    }
  }

  lemma HaltedBetween(r: Reader)
    requires Halted(r) && r.pending != [] && !Boundary(r.pos)
    ensures r.skipLeft == 0 && r.need == 0 && |r.pending| < 4
  {
    hide Get, Padding, PageRest;
  }

  lemma WaitingFrom(fillers: seq<nat>, at: nat, end: nat)
    requires end <= at && forall k :: 0 <= k < |fillers| ==> fillers[k] >= at
    ensures Waiting(fillers, end)
  {
    hide PageRest;
  }

  lemma HaltedAtHeader(x: Wire, c: Place, r: Reader, future: Bytes)
    requires Tracks(x, c, r, future) && Halted(r) && r.pending != [] && Boundary(r.pos)
    ensures Waiting(Ahead(x, c, r), r.pos + |r.pending|)
  {
    hide Frame, Complete, Fillers, Padding, Boundary, PageRest, HeaderLen, Get, Drain, Discard, Join, BeginRecord, Waiting;
    PaddingOnPage(r.pos);
    NotDone(x, c, r, future);
    HeaderAhead(x, c.i, Written(c), r.pos, None, r.pending, future);
    assert |r.pending| < HeaderLen(r.pos);
    FillersFrom(x, c.i, Written(c), r.pos + HeaderLen(r.pos));
    WaitingFrom(Ahead(x, c, r), r.pos + HeaderLen(r.pos), r.pos + |r.pending|);
  }

  lemma HaltedInFiller(x: Wire, i: nat, pos: nat, end: nat)
    requires i < |x.recs| && x.recs[i] == [] && !Boundary(pos) && end < pos + 4 <= pos + PageRest(pos)
    ensures Waiting(Fillers(x, i, 0, pos), end)
  {
    hide Frame, Complete, Fillers, PageRest, Boundary;
    var q := pos + PageRest(pos);
    FillUnfolds(x, i, pos, None);
    FillersFrom(x, i + 1, 0, q);
    WaitingFrom(Fillers(x, i + 1, 0, q), q, end);
  }

  lemma HaltedAtRecord(x: Wire, i: nat, pos: nat, end: nat)
    requires i < |x.recs| && |x.recs[i]| >= 8 && !Boundary(pos) && pos % 8 == 0 && end < pos + 4
    ensures Waiting(Fillers(x, i, 0, pos), end)
  {
    AlignedRest(pos);
    hide Frame, Complete, Fillers, PageRest, Boundary, Waiting;
    var n := Take(x.recs[i], 0, pos);
    TakeUnfolds(x, i, 0, pos, None);
    FillersFrom(x, i, n, pos + n);
    WaitingFrom(Fillers(x, i, 0, pos), pos + n, end);
  }

  lemma {:induction false} FillersFrom(x: Wire, i: nat, written: nat, pos: nat)
    requires i <= |x.recs| && (i == |x.recs| || written <= |x.recs[i]|)
    ensures forall k :: 0 <= k < |Fillers(x, i, written, pos)| ==> Fillers(x, i, written, pos)[k] >= pos
    decreases |x.recs| - i, if i == |x.recs| then 0 else |x.recs[i]| - written, if Boundary(pos) then 1 else 0
  {
    hide Frame, Complete, PageHeader;
    if i < |x.recs| {
      var r := x.recs[i];
      if r == [] && !Boundary(pos) {
        FillersFrom(x, i + 1, 0, pos + PageRest(pos));
      } else if r != [] && written == |r| {
        FillersFrom(x, i + 1, 0, pos + Padding(pos));
      } else if Boundary(pos) {
        FillersFrom(x, i, written, pos + HeaderLen(pos));
      } else {
        FillersFrom(x, i, written + Take(r, written, pos), pos + Take(r, written, pos));
      }
    }
  }

  lemma FedTracks(x: Wire, c: Place, r: Reader, chunk: Bytes, future: Bytes)
    requires Tracks(x, c, r, chunk + future)
    ensures var fed := r.(pending := r.pending + chunk); Tracks(x, c, fed, future) && Owed(x, c, fed) == Owed(x, c, r)
  {
    hide Frame, Complete, Fillers, Get, WellFormedWire;
    assert r.pending + chunk + future == r.pending + (chunk + future);
  }

  lemma NothingTo(x: Wire, c: Place, r: Reader, chunks: seq<Bytes>)
    requires Tracks(x, c, r, Concat(chunks))
    ensures chunks == [] ==> Concat(chunks) == []
  {
  }

  // ---- Page boundaries ------------------------------------------------------------------

  /** The records that start at or after `b`. */
  function StartingAt(recs: seq<Record>, b: nat): seq<Record>
    decreases |recs|
  {
    if recs == [] then []
    else if recs[0].0 >= b then [recs[0]] + StartingAt(recs[1..], b)
    else StartingAt(recs[1..], b)
  }

  lemma {:induction false} CompleteAfter(x: Wire, i: nat, written: nat, pos: nat, lsn: Option<nat>, b: nat)
    requires i <= |x.recs| && (i == |x.recs| || written <= |x.recs[i]|) && b <= pos
    requires lsn.Some? ==> lsn.value < b
    requires i < |x.recs| && written == 0 ==> lsn.None?
    ensures StartingAt(Complete(x, i, written, pos, lsn), b) == Complete(x, i, written, pos, None)
    ensures lsn.None? ==> StartingAt(Complete(x, i, written, pos, lsn), b) == Complete(x, i, written, pos, lsn)
    decreases |x.recs| - i, if i == |x.recs| then 0 else |x.recs[i]| - written, if Boundary(pos) then 1 else 0
  {
    hide Frame, Fillers, PageRest, Get, PageHeader;
    if i < |x.recs| {
      var r := x.recs[i];
      if r == [] && !Boundary(pos) {
        CompleteAfter(x, i + 1, 0, pos + PageRest(pos), None, b);
      } else if r != [] && written == |r| {
        var more := Complete(x, i + 1, 0, pos + Padding(pos), None);
        CompleteAfter(x, i + 1, 0, pos + Padding(pos), None, b);
        assert Complete(x, i, written, pos, None) == [] + more == more;
        if lsn.Some? {
          assert ([(lsn.value, r)] + more)[1..] == more;
        }
      } else if Boundary(pos) {
        CompleteAfter(x, i, written, pos + HeaderLen(pos), lsn, b);
      } else if written == 0 {
        CompleteBegun(x, i, Take(r, 0, pos), pos + Take(r, 0, pos), pos, b);
      } else {
        var n := Take(r, written, pos);
        CompleteAfter(x, i, written + n, pos + n, lsn, b);
      }
    }
  }

  /** The same once record `i` has begun at or after `b`. */
  lemma {:induction false} CompleteBegun(x: Wire, i: nat, written: nat, pos: nat, lsn: nat, b: nat)
    requires i < |x.recs| && 0 < written <= |x.recs[i]| && b <= lsn && b <= pos
    ensures StartingAt(Complete(x, i, written, pos, Some(lsn)), b) == Complete(x, i, written, pos, Some(lsn))
    decreases |x.recs| - i, |x.recs[i]| - written, if Boundary(pos) then 1 else 0
  {
    var r := x.recs[i];
    if written == |r| {
      var more := Complete(x, i + 1, 0, pos + Padding(pos), None);
      CompleteAfter(x, i + 1, 0, pos + Padding(pos), None, b);
      assert ([(lsn, r)] + more)[1..] == more;
    } else if Boundary(pos) {
      CompleteBegun(x, i, written, pos + HeaderLen(pos), lsn, b);
    } else {
      CompleteBegun(x, i, written + Take(r, written, pos), pos + Take(r, written, pos), lsn, b);
    }
  }

  /** The stretches of filler that begin at or after `b`. */
  function From(fillers: seq<nat>, b: nat): seq<nat>
    decreases |fillers|
  {
    if fillers != [] && fillers[0] < b then From(fillers[1..], b) else fillers
  }

  /** Filler on earlier pages cannot strand a reader that starts at `b`. */
  lemma {:induction false} FromStrands(fillers: seq<nat>, b: nat, chunks: seq<Bytes>)
    requires Boundary(b)
    ensures AnyStrands(From(fillers, b), b, chunks) <==> AnyStrands(fillers, b, chunks)
    decreases |fillers|
  {
    if fillers != [] && fillers[0] < b {
      NextBoundary(fillers[0], b);
      FromStrands(fillers[1..], b, chunks);
    }
  }

  /** From `b` on, the stream is the framing of what is left, and the records still counted are those from there. */
  ghost predicate LeftAt(x: Wire, i: nat, written: nat, pos: nat, lsn: Option<nat>, b: nat, i': nat, w': nat)
    requires i <= |x.recs| && (i == |x.recs| || written <= |x.recs[i]|)
    requires i' <= |x.recs| && (i' == |x.recs| || w' <= |x.recs[i']|)
  {
    && pos <= b <= pos + |Frame(x, i, written, pos)|
    && Frame(x, i, written, pos)[b - pos..] == Frame(x, i', w', b)
    && StartingAt(Complete(x, i, written, pos, lsn), b) == Complete(x, i', w', b, None)
    && From(Fillers(x, i, written, pos), b) == Fillers(x, i', w', b)
  }

  lemma LeftAfterDone(x: Wire, i: nat, pos: nat, lsn: Option<nat>, b: nat, i': nat, w': nat)
    requires i < |x.recs| && x.recs[i] != [] && i' <= |x.recs| && (i' == |x.recs| || w' <= |x.recs[i']|) && (lsn.Some? ==> lsn.value < b)
    requires LeftAt(x, i + 1, 0, pos + Padding(pos), None, b, i', w')
    ensures LeftAt(x, i, |x.recs[i]|, pos, lsn, b, i', w')
  {
    hide Frame, Complete, Fillers, Padding;
    DoneUnfolds(x, i, pos, lsn);
    var more := Complete(x, i + 1, 0, pos + Padding(pos), None);
    if lsn.Some? {
      assert ([(lsn.value, x.recs[i])] + more)[1..] == more;
    } else {
      assert [] + more == more;
    }
  }

  lemma LeftAfterFill(x: Wire, i: nat, pos: nat, lsn: Option<nat>, b: nat, i': nat, w': nat)
    requires i < |x.recs| && x.recs[i] == [] && !Boundary(pos) && i' <= |x.recs| && (i' == |x.recs| || w' <= |x.recs[i']|) && pos < b
    requires LeftAt(x, i + 1, 0, pos + PageRest(pos), None, b, i', w')
    ensures LeftAt(x, i, 0, pos, lsn, b, i', w')
  {
    hide Frame, Complete, Fillers, PageRest, Boundary;
    FillUnfolds(x, i, pos, lsn);
  }

  lemma LeftAfterHeader(x: Wire, i: nat, written: nat, pos: nat, lsn: Option<nat>, b: nat, i': nat, w': nat)
    requires i < |x.recs| && Unfinished(x.recs[i], written) && Boundary(pos) && i' <= |x.recs| && (i' == |x.recs| || w' <= |x.recs[i']|)
    requires LeftAt(x, i, written, pos + HeaderLen(pos), lsn, b, i', w')
    ensures LeftAt(x, i, written, pos, lsn, b, i', w')
  {
    hide Frame, Complete, Fillers, HeaderLen, Boundary, PageHeader;
    HeaderUnfolds(x, i, written, pos, lsn);
  }

  lemma LeftAfterTake(x: Wire, i: nat, written: nat, pos: nat, lsn: Option<nat>, b: nat, i': nat, w': nat)
    requires i < |x.recs| && written < |x.recs[i]| && !Boundary(pos) && i' <= |x.recs| && (i' == |x.recs| || w' <= |x.recs[i']|)
    requires var n := Take(x.recs[i], written, pos);
             LeftAt(x, i, written + n, pos + n, if written == 0 then Some(pos) else lsn, b, i', w')
    ensures LeftAt(x, i, written, pos, lsn, b, i', w')
  {
    hide Frame, Complete, Fillers, Take, Boundary;
    TakeUnfolds(x, i, written, pos, lsn);
  }

  /** Every page boundary within the stream leaves the framing of a record mid-way, or of the next one. */
  lemma {:induction false} SuffixAt(x: Wire, i: nat, written: nat, pos: nat, lsn: Option<nat>, b: nat) returns (i': nat, w': nat)
    requires WellFormedWire(x) && i <= |x.recs| && (i == |x.recs| || written <= |x.recs[i]|)
    requires pos <= b <= pos + |Frame(x, i, written, pos)| && Boundary(b)
    requires lsn.Some? ==> lsn.value < b
    requires i < |x.recs| && written == 0 ==> lsn.None?
    ensures i' <= |x.recs| && (i' < |x.recs| ==> Unfinished(x.recs[i'], w'))
    ensures LeftAt(x, i, written, pos, lsn, b, i', w')
    decreases |x.recs| - i, if i == |x.recs| then 0 else |x.recs[i]| - written, if Boundary(pos) then 1 else 0
  {
    hide Frame, Complete, Fillers, Padding, Boundary, PageRest, HeaderLen, Get, LeftAt;
    i', w' := i, written;
    if i == |x.recs| {
      LeftNothing(x, i, written, pos, lsn, b);
      return;
    }
    var r := x.recs[i];
    assert r == [] || WellFormedRecord(r);
    if pos == b && Unfinished(r, written) {
      CompleteAfter(x, i, written, pos, lsn, b);
      LeftHere(x, i, written, pos, lsn);
    } else if r == [] && !Boundary(pos) {
      NextBoundary(pos, b);
      FillUnfolds(x, i, pos, lsn);
      i', w' := SuffixAt(x, i + 1, 0, pos + PageRest(pos), None, b);
      LeftAfterFill(x, i, pos, lsn, b, i', w');
    } else if r != [] && written == |r| {
      BoundaryAfterPadding(pos, b);
      DoneUnfolds(x, i, pos, lsn);
      i', w' := SuffixAt(x, i + 1, 0, pos + Padding(pos), None, b);
      LeftAfterDone(x, i, pos, lsn, b, i', w');
    } else if Boundary(pos) {
      NextBoundary(pos, b);
      HeaderFits(pos);
      HeaderUnfolds(x, i, written, pos, lsn);
      i', w' := SuffixAt(x, i, written, pos + HeaderLen(pos), lsn, b);
      LeftAfterHeader(x, i, written, pos, lsn, b, i', w');
    } else {
      var n := Take(r, written, pos);
      NextBoundary(pos, b);
      TakeUnfolds(x, i, written, pos, lsn);
      i', w' := SuffixAt(x, i, written + n, pos + n, if written == 0 then Some(pos) else lsn, b);
      LeftAfterTake(x, i, written, pos, lsn, b, i', w');
    }
  }

  lemma LeftNothing(x: Wire, i: nat, written: nat, pos: nat, lsn: Option<nat>, b: nat)
    requires i == |x.recs| && pos <= b <= pos + |Frame(x, i, written, pos)|
    ensures LeftAt(x, i, written, pos, lsn, b, i, written)
  {
  }

  lemma LeftHere(x: Wire, i: nat, written: nat, pos: nat, lsn: Option<nat>)
    requires i < |x.recs| && written <= |x.recs[i]|
    requires StartingAt(Complete(x, i, written, pos, lsn), pos) == Complete(x, i, written, pos, None)
    ensures LeftAt(x, i, written, pos, lsn, pos, i, written)
  {
    hide Frame, Complete, Fillers;
    FillersFrom(x, i, written, pos);
  }

  lemma HeaderFits(pos: nat)
    requires Boundary(pos)
    ensures HeaderLen(pos) <= PageRest(pos) && !Boundary(pos + HeaderLen(pos))
  {
    HeaderKeepsAlignment(pos);
  }

  lemma NextBoundary(pos: nat, b: nat)
    requires pos < b && Boundary(b)
    ensures pos + PageRest(pos) <= b
  {
    assert pos == PAGE * (pos / PAGE) + pos % PAGE && b == PAGE * (b / PAGE);
    assert pos / PAGE < b / PAGE;
  }

  lemma BoundaryAfterPadding(pos: nat, b: nat)
    requires pos <= b && Boundary(b)
    ensures pos + Padding(pos) <= b
  {
    PaddingOnPage(pos);
    if pos < b {
      NextBoundary(pos, b);
    }
  }

  lemma LeftIs(x: Wire, start: nat, b: nat, i: nat, w: nat)
    requires i <= |x.recs| && (i == |x.recs| || w <= |x.recs[i]|) && LeftAt(x, 0, 0, start, None, b, i, w)
    ensures start <= b <= start + |Frame(x, 0, 0, start)|
    ensures Frame(x, 0, 0, start)[b - start..] == Frame(x, i, w, b)
    ensures StartingAt(Complete(x, 0, 0, start, None), b) == Complete(x, i, w, b, None)
    ensures From(Fillers(x, 0, 0, start), b) == Fillers(x, i, w, b)
  {
    hide Frame, Complete, Fillers;
  }

  /**
   The framing round trip: the stream of any well-formed records, read from any page boundary `b` in any chunking that
   strands none of its filler, yields exactly the records that start at or after `b`, byte for byte and at their true
   LSNs.
   */
  lemma FramingRoundTrip(x: Wire, start: nat, b: nat, chunks: seq<Bytes>)
    requires WellFormedWire(x) && Boundary(start) && Boundary(b)
    requires start <= b <= start + |Frame(x, 0, 0, start)|
    requires Concat(chunks) == Frame(x, 0, 0, start)[b - start..]
    requires !AnyStrands(Fillers(x, 0, 0, start), b, chunks)
    ensures FeedAll(New(b), chunks).Done?
    ensures FeedAll(New(b), chunks).out == StartingAt(Complete(x, 0, 0, start, None), b)
  {
    hide Frame, Complete, Fillers, Boundary, WellFormedWire, FeedAll, At, Rest, Owed, Tracks, Loses, AnyStrands;
    var i, w := JoinsAt(x, start, b, chunks);
    FeedTracks(x, Joining(i, w), New(b), chunks);
  }

  /** Where a new reader stands at a page boundary. */
  lemma JoinsAt(x: Wire, start: nat, b: nat, chunks: seq<Bytes>) returns (i: nat, w: nat)
    requires WellFormedWire(x) && Boundary(start) && Boundary(b)
    requires start <= b <= start + |Frame(x, 0, 0, start)|
    requires Concat(chunks) == Frame(x, 0, 0, start)[b - start..]
    ensures Tracks(x, Joining(i, w), New(b), Concat(chunks)) && Halted(New(b)) && !Stranded(Joining(i, w), New(b))
    ensures Owed(x, Joining(i, w), New(b)) == StartingAt(Complete(x, 0, 0, start, None), b)
    ensures Loses(x, Joining(i, w), New(b), chunks) <==> AnyStrands(Fillers(x, 0, 0, start), b, chunks)
    ensures chunks == [] ==> Owed(x, Joining(i, w), New(b)) == []
  {
    hide Frame, Complete, Fillers, Boundary, LeftAt, WellFormedWire, AnyStrands, StartingAt, From, At, Rest, Owed, Ahead, StepOf, Tracks;
    i, w := SuffixAt(x, 0, 0, start, None, b);
    LeftIs(x, start, b, i, w);
    FromStrands(Fillers(x, 0, 0, start), b, chunks);
    NewJoins(x, i, w, b, Concat(chunks));
  }

  lemma NewJoins(x: Wire, i: nat, w: nat, b: nat, stream: Bytes)
    requires WellFormedWire(x) && Boundary(b) && i <= |x.recs| && (i < |x.recs| ==> Unfinished(x.recs[i], w))
    requires stream == Frame(x, i, w, b)
    ensures var c, r := Joining(i, w), New(b);
            && Tracks(x, c, r, stream) && Halted(r)
            && Owed(x, c, r) == Complete(x, i, w, b, None) && Ahead(x, c, r) == Fillers(x, i, w, b)
            && (stream == [] ==> Owed(x, c, r) == [])
  {
    hide Frame, Complete, Fillers, WellFormedWire, Boundary;
    assert [] + stream == stream;
    if stream == [] {
      NothingLeft(x, Joining(i, w), New(b));
    }
  }

  // ---- What the listed records are ------------------------------------------------------

  /** The records from `i` on, without the filler. */
  function Records(x: Wire, i: nat): seq<Bytes>
    requires i <= |x.recs|
    decreases |x.recs| - i
  {
    if i == |x.recs| then [] else (if x.recs[i] == [] then [] else [x.recs[i]]) + Records(x, i + 1)
  }

  /** `out` lists the records from `i` on, each exactly once and in order. */
  ghost predicate Lists(x: Wire, i: nat, out: seq<Record>)
    requires i <= |x.recs|
  {
    |out| == |Records(x, i)| && forall k :: 0 <= k < |out| ==> out[k].1 == Records(x, i)[k]
  }

  /** Every listed LSN is aligned and is where the stream has the record's first bytes. */
  ghost predicate Placed(stream: Bytes, pos: nat, out: seq<Record>) {
    forall k :: 0 <= k < |out| && out[k].0 >= pos ==> PlacedAt(stream, pos, out[k])
  }

  ghost predicate PlacedAt(stream: Bytes, pos: nat, r: Record)
    requires r.0 >= pos
  {
    var at := r.0 - pos;
    r.0 % 8 == 0 && 8 <= |r.1| && at + 8 <= |stream| && stream[at..at + 8] == r.1[..8]
  }

  lemma PlacedShift(a: Bytes, b: Bytes, pos: nat, out: seq<Record>)
    requires Placed(b, pos + |a|, out)
    requires forall k :: 0 <= k < |out| && pos <= out[k].0 < pos + |a| ==> PlacedAt(a + b, pos, out[k])
    ensures Placed(a + b, pos, out)
  {
    forall k | 0 <= k < |out| && out[k].0 >= pos ensures PlacedAt(a + b, pos, out[k]) {
      if out[k].0 >= pos + |a| {
        assert PlacedAt(b, pos + |a|, out[k]);
        var at := out[k].0 - pos - |a|;
        assert (a + b)[at + |a|..at + |a| + 8] == b[at..at + 8];
      }
    }
  }

  /** No record but the one under way starts before `pos`. */
  ghost predicate NoEarlier(pos: nat, out: seq<Record>, begun: bool) {
    forall k :: (if begun then 1 else 0) <= k < |out| ==> out[k].0 >= pos
  }

  ghost predicate Accounted(x: Wire, i: nat, written: nat, pos: nat, lsn: Option<nat>)
    requires i <= |x.recs| && (i == |x.recs| || written <= |x.recs[i]|)
  {
    var out := Complete(x, i, written, pos, lsn);
    && Lists(x, i, out) && Placed(Frame(x, i, written, pos), pos, out)
    && NoEarlier(pos, out, lsn.Some?)
    && (lsn.Some? && i < |x.recs| ==> out != [] && out[0].0 == lsn.value)
  }

  lemma AccountFill(x: Wire, i: nat, pos: nat)
    requires i < |x.recs| && x.recs[i] == [] && !Boundary(pos) && Accounted(x, i + 1, 0, pos + PageRest(pos), None)
    ensures Accounted(x, i, 0, pos, None)
  {
    hide Frame, Complete, Fillers, PageRest, Boundary, PlacedAt;
    FillUnfolds(x, i, pos, None);
    var q := pos + PageRest(pos);
    assert Records(x, i) == Records(x, i + 1);
    PlacedShift(Zeros(PageRest(pos)), Frame(x, i + 1, 0, q), pos, Complete(x, i, 0, pos, None));
  }

  lemma AccountDone(x: Wire, i: nat, pos: nat, lsn: nat)
    requires i < |x.recs| && x.recs[i] != [] && lsn < pos && Accounted(x, i + 1, 0, pos + Padding(pos), None)
    ensures Accounted(x, i, |x.recs[i]|, pos, Some(lsn))
  {
    hide Frame, Complete, Fillers, Padding, PlacedAt;
    DoneUnfolds(x, i, pos, Some(lsn));
    var q := pos + Padding(pos);
    var more, out := Complete(x, i + 1, 0, q, None), Complete(x, i, |x.recs[i]|, pos, Some(lsn));
    assert out == [(lsn, x.recs[i])] + more;
    assert forall k :: 1 <= k < |out| ==> out[k] == more[k - 1];
    PlacedShift(Zeros(Padding(pos)), Frame(x, i + 1, 0, q), pos, out);
  }

  lemma AccountHeader(x: Wire, i: nat, written: nat, pos: nat, lsn: Option<nat>)
    requires i < |x.recs| && Unfinished(x.recs[i], written) && Boundary(pos) && (lsn.Some? ==> lsn.value < pos)
    requires Accounted(x, i, written, pos + HeaderLen(pos), lsn)
    ensures Accounted(x, i, written, pos, lsn)
  {
    hide Frame, Complete, Fillers, HeaderLen, Boundary, PageHeader, PlacedAt;
    HeaderUnfolds(x, i, written, pos, lsn);
    var h := PageHeader(x, pos, Remaining(x.recs[i], written));
    PlacedShift(h, Frame(x, i, written, pos + |h|), pos, Complete(x, i, written, pos, lsn));
  }

  lemma AccountTake(x: Wire, i: nat, written: nat, pos: nat, lsn: Option<nat>)
    requires i < |x.recs| && written < |x.recs[i]| && !Boundary(pos) && (lsn.Some? ==> lsn.value < pos)
    requires written == 0 ==> lsn.None? && pos % 8 == 0 && 8 <= Take(x.recs[i], 0, pos)
    requires written > 0 ==> lsn.Some?
    requires var n := Take(x.recs[i], written, pos);
             Accounted(x, i, written + n, pos + n, if written == 0 then Some(pos) else lsn)
    ensures Accounted(x, i, written, pos, lsn)
  {
    hide Frame, Complete, Fillers, Take, Boundary;
    TakeUnfolds(x, i, written, pos, lsn);
    var r, n, out := x.recs[i], Take(x.recs[i], written, pos), Complete(x, i, written, pos, lsn);
    var a, b := r[written..written + n], Frame(x, i, written + n, pos + n);
    if written == 0 {
      assert (a + b)[0..8] == r[..8];
      assert PlacedAt(a + b, pos, out[0]);
    }
    PlacedShift(a, b, pos, out);
  }

  /** Framing puts every record into the stream exactly once, in order, at the 8-aligned LSN listed for it. */
  lemma {:induction false} EveryRecordPlaced(x: Wire, i: nat, written: nat, pos: nat, lsn: Option<nat>)
    requires WellFormedWire(x) && i <= |x.recs| && (i == |x.recs| || written <= |x.recs[i]|)
    requires i < |x.recs| ==> (lsn.Some? <==> written > 0)
    requires i == |x.recs| ==> lsn.None?
    requires lsn.Some? ==> lsn.value < pos
    requires written == 0 ==> pos % 8 == 0
    ensures Accounted(x, i, written, pos, lsn)
    decreases |x.recs| - i, if i == |x.recs| then 0 else |x.recs[i]| - written, if Boundary(pos) then 1 else 0
  {
    hide Frame, Complete, Fillers, Padding, PageRest, HeaderLen, Boundary, Get, Accounted;
    if i == |x.recs| {
      AccountEnd(x, written, pos);
    } else {
      var r := x.recs[i];
      assert r == [] || WellFormedRecord(r);
      if r == [] && !Boundary(pos) {
        PageStep(pos, PageRest(pos));
        BoundaryAligned(pos + PageRest(pos));
        EveryRecordPlaced(x, i + 1, 0, pos + PageRest(pos), None);
        AccountFill(x, i, pos);
      } else if r != [] && written == |r| {
        EveryRecordPlaced(x, i + 1, 0, pos + Padding(pos), None);
        AccountDone(x, i, pos, lsn.value);
      } else if Boundary(pos) {
        HeaderAligned(pos);
        EveryRecordPlaced(x, i, written, pos + HeaderLen(pos), lsn);
        AccountHeader(x, i, written, pos, lsn);
      } else {
        var n := Take(r, written, pos);
        if written == 0 { AlignedRest(pos); }
        EveryRecordPlaced(x, i, written + n, pos + n, if written == 0 then Some(pos) else lsn);
        AccountTake(x, i, written, pos, lsn);
      }
    }
  }

  lemma AccountEnd(x: Wire, written: nat, pos: nat)
    ensures Accounted(x, |x.recs|, written, pos, None)
  {
    hide Get, Padding, PageRest, HeaderLen;
  }

  lemma HeaderAligned(pos: nat)
    requires Boundary(pos)
    ensures (pos + HeaderLen(pos)) % 8 == 0 && !Boundary(pos + HeaderLen(pos))
  {
    HeaderKeepsAlignment(pos);
    assert pos + HeaderLen(pos) == 8 * (1024 * (pos / PAGE) + HeaderLen(pos) / 8) by { assert pos == 8 * (1024 * (pos / PAGE)); }
  }
}
