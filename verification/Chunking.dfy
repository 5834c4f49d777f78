/** Which chunkings of a stream the reader reads right (src/wal/mod.rs `WalReader::feed`), filler included. */
module Chunking {
  import opened Base
  import opened LittleEndian
  import opened WalReader
  import opened Framing
  import opened Filler

  // ---- A reader that took filler for a record -------------------------------------------

  /** Inside a record the reader emits nothing before that record. */
  lemma {:induction false} InsideDrains(r: Reader)
    requires Sane(r) && r.need > 0 && Drain(r).Done?
    ensures var d := Drain(r);
            if d.out == [] then Sane(d.reader) && d.reader.need > 0 && d.reader.recLsn == r.recLsn else d.out[0].0 == r.recLsn
    decreases Fuel(r)
  {
    hide Get, Padding, Boundary, PageRest, HeaderLen, KnownMagic, BeginRecord;
    if StepOf(r).Goes? {
      var next := StepOf(r).next;
      StepShrinks(r);
      if StepOf(r).out == [] {
        InsideDrains(next);
        assert [] + Drain(next).out == Drain(next).out;
      }
    }
  }

  lemma {:induction false} InsideFeeds(r: Reader, chunks: seq<Bytes>)
    requires Sane(r) && r.need > 0 && FeedAll(r, chunks).Done?
    ensures var d := FeedAll(r, chunks); d.out == [] || d.out[0].0 == r.recLsn
    decreases |chunks|
  {
    hide Drain;
    if chunks != [] {
      var fed := r.(pending := r.pending + chunks[0]);
      InsideDrains(fed);
      var d := Drain(fed);
      if d.out == [] {
        InsideFeeds(d.reader, chunks[1..]);
      }
    }
  }

  /** One to three filler bytes and the header behind them begin a record at the filler. */
  lemma StrandedBegins(x: Wire, r: Reader, future: Bytes, more: Bytes)
    requires KnownMagic(x.magic) && Sane(r) && r.started && r.need == 0 && r.skipLeft == 0 && !Boundary(r.pos) && PageRest(r.pos) < 4
    requires r.pending + future == Zeros(PageRest(r.pos)) + (PageHeader(x, r.pos + PageRest(r.pos), 0) + more)
    requires |r.pending| >= 4
    ensures StepOf(r).Goes? && StepOf(r).out == [] && StepOf(r).next.need > 0 && StepOf(r).next.recLsn == r.pos
  {
    hide Get, PageHeader, Boundary, PageRest, HeaderLen, KnownMagic, StripHeader, Discard, Join;
    var u, h := PageRest(r.pos), PageHeader(x, r.pos + PageRest(r.pos), 0);
    MisreadLength(x, r.pos + u, u);
    HeaderSizes(r.pos + u);
    assert r.pending[0..4] == (Zeros(u) + h)[0..4] by {
      assert (r.pending + future)[0..4] == r.pending[0..4];
      assert Zeros(u) + (h + more) == (Zeros(u) + h) + more;
      assert ((Zeros(u) + h) + more)[0..4] == (Zeros(u) + h)[0..4];
    }
  }

  /** What a stranded reader emits first is a record at the filler, if anything. */
  lemma {:induction false} StrandedFeeds(x: Wire, r: Reader, chunks: seq<Bytes>, more: Bytes)
    requires KnownMagic(x.magic) && Sane(r) && r.started && r.need == 0 && r.skipLeft == 0 && !Boundary(r.pos) && PageRest(r.pos) < 4
    requires r.pending + Concat(chunks) == Zeros(PageRest(r.pos)) + (PageHeader(x, r.pos + PageRest(r.pos), 0) + more)
    requires |r.pending| < 4 && FeedAll(r, chunks).Done?
    ensures var d := FeedAll(r, chunks); d.out == [] || d.out[0].0 == r.pos
    decreases |chunks|
  {
    hide Drain, PageHeader, Boundary, PageRest, HeaderLen, KnownMagic, Get, StepOf;
    if chunks != [] {
      var fed, future := r.(pending := r.pending + chunks[0]), Concat(chunks[1..]);
      assert fed.pending + future == r.pending + Concat(chunks);
      if |fed.pending| < 4 {
        FewWait(fed);
        StrandedFeeds(x, fed, chunks[1..], more);
      } else {
        StrandedBegins(x, fed, future, more);
        BegunDrains(fed);
        if Drain(fed).out == [] {
          InsideFeeds(Drain(fed).reader, chunks[1..]);
        }
      }
    }
  }

  lemma FewWait(r: Reader)
    requires Sane(r) && r.need == 0 && r.skipLeft == 0 && !Boundary(r.pos) && |r.pending| < 4
    ensures Drain(r) == Done(r, [])
  {
  }

  lemma BegunDrains(r: Reader)
    requires Sane(r) && StepOf(r).Goes? && StepOf(r).out == [] && StepOf(r).next.need > 0 && StepOf(r).next.recLsn == r.pos
    requires Drain(r).Done?
    ensures var d := Drain(r);
            if d.out == [] then Sane(d.reader) && d.reader.need > 0 && d.reader.recLsn == r.pos else d.out[0].0 == r.pos
  {
    hide StepOf, Get;
    StepIntoDrain(r);
    InsideDrains(StepOf(r).next);
  }

  // ---- Losing the stream ----------------------------------------------------------------

  ghost predicate EndsInRecord(x: Wire) {
    x.recs != [] && x.recs[|x.recs| - 1] != []
  }

  lemma {:induction false} RecordsAhead(x: Wire, i: nat)
    requires EndsInRecord(x) && i < |x.recs|
    ensures Framing.Records(x, i) != []
    decreases |x.recs| - i
  {
    if i < |x.recs| - 1 {
      RecordsAhead(x, i + 1);
    }
  }

  /** Behind a stretch of filler comes a page, and the next record that is owed starts there or later. */
  lemma BehindFiller(x: Wire, i: nat, pos: nat)
    requires WellFormedWire(x) && EndsInRecord(x) && i < |x.recs| && x.recs[i] == [] && !Boundary(pos)
    ensures Complete(x, i, 0, pos, None) != [] && Complete(x, i, 0, pos, None)[0].0 > pos
    ensures i + 1 < |x.recs|
    ensures var q := pos + PageRest(pos);
            Frame(x, i, 0, pos) == Zeros(PageRest(pos)) + (PageHeader(x, q, 0) + Frame(x, i + 1, 0, q + HeaderLen(q)))
  {
    hide Frame, Complete, Fillers, PageHeader, HeaderLen, Boundary, PageRest, Padding, Get;
    var q := pos + PageRest(pos);
    PageStep(pos, PageRest(pos));
    BoundaryAligned(q);
    FillUnfolds(x, i, pos, None);
    RecordsAhead(x, i + 1);
    EveryRecordPlaced(x, i + 1, 0, q, None);
    assert x.recs[i + 1] == [] || WellFormedRecord(x.recs[i + 1]);
    HeaderUnfolds(x, i + 1, 0, q, None);
  }

  /** A stranded reader does not give what it owes. */
  lemma StrandedLoses(x: Wire, c: Place, r: Reader, chunks: seq<Bytes>)
    requires Tracks(x, c, r, Concat(chunks)) && Halted(r) && Stranded(c, r) && EndsInRecord(x)
    ensures FeedAll(r, chunks).Done? ==> FeedAll(r, chunks).out != Owed(x, c, r)
  {
    hide Frame, Complete, Fillers, PageHeader, HeaderLen, Boundary, PageRest, Get, FeedAll, StepOf, EndsInRecord, Concat;
    BehindFiller(x, c.i, r.pos);
    if r.pending != [] {
      HaltedBetween(r);
    }
    if FeedAll(r, chunks).Done? {
      var q := r.pos + PageRest(r.pos);
      StrandedFeeds(x, r, chunks, Frame(x, c.i + 1, 0, q + HeaderLen(q)));
    }
  }

  lemma {:induction false} NoneStrands(fillers: seq<nat>, end: nat)
    requires Waiting(fillers, end)
    ensures !AnyStrands(fillers, end, [])
    decreases |fillers|
  {
    if fillers != [] {
      assert Waits(fillers[0], end);
      NoneStrands(fillers[1..], end);
    }
  }

  lemma Cancel(a: seq<Record>, b: seq<Record>, c: seq<Record>)
    requires b != c
    ensures a + b != a + c
  {
    assert (a + b)[|a|..] == b && (a + c)[|a|..] == c;
  }

  /** The stream goes wrong once some stretch strands. */
  lemma {:induction false} FeedLoses(x: Wire, c: Place, r: Reader, chunks: seq<Bytes>)
    requires Tracks(x, c, r, Concat(chunks)) && Halted(r) && Loses(x, c, r, chunks) && EndsInRecord(x)
    ensures FeedAll(r, chunks).Done? ==> FeedAll(r, chunks).out != Owed(x, c, r)
    decreases |chunks|
  {
    hide Frame, Complete, Fillers, Get, At, Rest, Owed, Drain, WellFormedWire, AnyStrands, Ahead, Stranded, StepOf, EndsInRecord;
    if Stranded(c, r) {
      StrandedLoses(x, c, r, chunks);
    } else {
      HaltedWaits(x, c, r, Concat(chunks));
      if chunks == [] {
        NoneStrands(Ahead(x, c, r), r.pos + |r.pending|);
      }
      var fed, future := r.(pending := r.pending + chunks[0]), Concat(chunks[1..]);
      FedTracks(x, c, r, chunks[0], future);
      FedKeeps(x, c, r, chunks);
      var c' := DrainTracks(x, c, fed, future, chunks[1..]);
      FeedLoses(x, c', Drain(fed).reader, chunks[1..]);
      if FeedAll(r, chunks).Done? {
        Cancel(Drain(fed).out, FeedAll(Drain(fed).reader, chunks[1..]).out, Owed(x, c', Drain(fed).reader));
      }
    }
  }

  // ---- The exact condition --------------------------------------------------------------

  /** Read from `b` in these chunks, the stream gives exactly its records from there on. */
  ghost predicate ReadsBack(x: Wire, start: nat, b: nat, chunks: seq<Bytes>) {
    var d := FeedAll(New(b), chunks);
    d.Done? && d.out == StartingAt(Complete(x, 0, 0, start, None), b)
  }

  /**
   A stream that ends with a record, read from any page boundary in any chunking, gives exactly its records from there on
   if and only if none of its stretches of filler strands. Every chunk end counts: a stretch strands when the reader,
   having skipped what had arrived of it whenever that was four bytes or more, is left with one to three bytes of it.
   */
  lemma ReadsBackExactlyWhen(x: Wire, start: nat, b: nat, chunks: seq<Bytes>)
    requires WellFormedWire(x) && EndsInRecord(x) && Boundary(start) && Boundary(b)
    requires start <= b <= start + |Frame(x, 0, 0, start)|
    requires Concat(chunks) == Frame(x, 0, 0, start)[b - start..]
    ensures ReadsBack(x, start, b, chunks) <==> !AnyStrands(Fillers(x, 0, 0, start), b, chunks)
  {
    hide Frame, Complete, Fillers, Boundary, WellFormedWire, FeedAll, At, Rest, Owed, Tracks, Loses, AnyStrands, EndsInRecord;
    if AnyStrands(Fillers(x, 0, 0, start), b, chunks) {
      var i, w := JoinsAt(x, start, b, chunks);
      FeedLoses(x, Joining(i, w), New(b), chunks);
    } else {
      FramingRoundTrip(x, start, b, chunks);
    }
  }

  // ---- Chunks that are always safe ------------------------------------------------------

  /** Every chunk ends at an LSN that is a multiple of four. */
  predicate AlignedEnds(end: nat, chunks: seq<Bytes>)
    decreases |chunks|
  {
    chunks == [] || ((end + |chunks[0]|) % 4 == 0 && AlignedEnds(end + |chunks[0]|, chunks[1..]))
  }

  lemma {:induction false} AlignedNeverStrands(pos: nat, u: nat, end: nat, chunks: seq<Bytes>)
    requires pos % 4 == 0 && (pos + u) % 4 == 0 && (end % 4 == 0 || end < pos + 4) && AlignedEnds(end, chunks)
    ensures !Strands(u, end - pos, chunks)
    decreases |chunks|, if end - pos >= 4 then 1 else 0
  {
    if pos + 4 <= end < pos + u {
      AlignedNeverStrands(end, pos + u - end, end, chunks);
    } else if end < pos + u && chunks != [] {
      AlignedNeverStrands(pos, u, end + |chunks[0]|, chunks[1..]);
    }
  }

  lemma {:induction false} FillersAligned(x: Wire, i: nat, written: nat, pos: nat)
    requires i <= |x.recs| && (i == |x.recs| || written <= |x.recs[i]|) && (written == 0 ==> pos % 8 == 0)
    ensures forall k :: 0 <= k < |Fillers(x, i, written, pos)| ==> Fillers(x, i, written, pos)[k] % 4 == 0
    decreases |x.recs| - i, if i == |x.recs| then 0 else |x.recs[i]| - written, if Boundary(pos) then 1 else 0
  {
    hide Frame, Complete, PageHeader, Boundary, PageRest, HeaderLen, Padding;
    if i < |x.recs| {
      var r := x.recs[i];
      if r == [] && !Boundary(pos) {
        PageStep(pos, PageRest(pos));
        BoundaryAligned(pos + PageRest(pos));
        FillersAligned(x, i + 1, 0, pos + PageRest(pos));
      } else if r != [] && written == |r| {
        FillersAligned(x, i + 1, 0, pos + Padding(pos));
      } else if Boundary(pos) {
        HeaderAligned(pos);
        FillersAligned(x, i, written, pos + HeaderLen(pos));
      } else {
        FillersAligned(x, i, written + Take(r, written, pos), pos + Take(r, written, pos));
      }
    }
  }

  /** Chunks that end at multiples of four never strand, wherever the filler is. */
  lemma AlignedChunksAreSafe(x: Wire, start: nat, b: nat, chunks: seq<Bytes>)
    requires Boundary(start) && Boundary(b) && AlignedEnds(b, chunks)
    ensures !AnyStrands(Fillers(x, 0, 0, start), b, chunks)
  {
    hide Fillers, Boundary;
    BoundaryAligned(start);
    BoundaryAligned(b);
    FillersAligned(x, 0, 0, start);
    NoneAligned(Fillers(x, 0, 0, start), b, chunks);
  }

  lemma {:induction false} NoneAligned(fillers: seq<nat>, end: nat, chunks: seq<Bytes>)
    requires end % 4 == 0 && AlignedEnds(end, chunks) && forall k :: 0 <= k < |fillers| ==> fillers[k] % 4 == 0
    ensures !AnyStrands(fillers, end, chunks)
    decreases |fillers|
  {
    if fillers != [] {
      var pos := fillers[0];
      assert (pos + PageRest(pos)) % 4 == 0 by {
        assert pos + PageRest(pos) == PAGE * (pos / PAGE + 1);
      }
      AlignedNeverStrands(pos, PageRest(pos), end, chunks);
      NoneAligned(fillers[1..], end, chunks);
    }
  }
}
