/**
 Reassembly of WAL records from the raw byte stream (src/wal/mod.rs `WalReader`): strips page headers, discards what
 is left of a record that began before the start position, skips alignment padding and joins records across pages.
 */
module WalReader {
  import opened Base
  import opened LittleEndian

  const PAGE: nat := 8192
  const SEGMENT: nat := 16 * 1024 * 1024
  const SHORT_PAGE_HEADER: nat := 24
  const LONG_PAGE_HEADER: nat := 40
  const RECORD_HEADER: nat := 24
  const MAGIC_PG17: nat := 0xD116
  const MAGIC_PG18: nat := 0xD118

  /** A page header stands here. */
  predicate Boundary(pos: nat) {
    pos % PAGE == 0
  }

  predicate KnownMagic(m: nat) {
    m == MAGIC_PG17 || m == MAGIC_PG18
  }

  function HeaderLen(pos: nat): nat {
    if pos % SEGMENT == 0 then LONG_PAGE_HEADER else SHORT_PAGE_HEADER
  }

  function PageRest(pos: nat): (n: nat)
    ensures 0 < n <= PAGE
  {
    PAGE - pos % PAGE
  }

  /** Bytes from `pos` to the next multiple of 8. */
  function Padding(pos: nat): (n: nat)
    ensures n < 8 && (pos + n) % 8 == 0
  {
    (8 - pos % 8) % 8
  }

  // ---- The reader, one loop iteration at a time -----------------------------------------

  /** `pos`: LSN of the first pending byte. `need`: length of the record being joined in `rec`, 0 between records. */
  datatype Reader = Reader(pos: nat, pending: Bytes, skipLeft: nat, started: bool, rec: Bytes, recLsn: nat, need: nat)

  type Record = (nat, Bytes)

  datatype Step = Stuck | Corrupt | Goes(next: Reader, out: seq<Record>)

  predicate Sane(r: Reader) {
    r.need == 0 || |r.rec| < r.need
  }

  function Advance(r: Reader, n: nat): Reader
    requires n <= |r.pending|
  {
    r.(pos := r.pos + n, pending := r.pending[n..])
  }

  function StripHeader(r: Reader): Step {
    var h := HeaderLen(r.pos);
    if |r.pending| < h then Stuck
    else if !KnownMagic(Get(r.pending[0..2])) then Corrupt
    else
      var skip := if r.started then r.skipLeft else Get(r.pending[16..20]);
      var next := Advance(r, h).(started := true);
      Goes(next.(skipLeft := if skip == 0 && r.need == 0 then Padding(next.pos) else skip), [])
  }

  function Discard(r: Reader): Step
    requires r.skipLeft > 0 && r.pending != []
  {
    var take := Min(Min(r.skipLeft, PageRest(r.pos)), |r.pending|);
    var next := Advance(r, take);
    Goes(next.(skipLeft := if take == r.skipLeft then Padding(next.pos) else r.skipLeft - take), [])
  }

  function Join(r: Reader): Step
    requires Sane(r) && r.need > 0 && r.pending != []
  {
    var take := Min(Min(r.need - |r.rec|, PageRest(r.pos)), |r.pending|);
    var rec := r.rec + r.pending[..take];
    var next := Advance(r, take);
    if |rec| == r.need
    then Goes(next.(rec := [], need := 0, skipLeft := Padding(next.pos)), [(r.recLsn, rec)])
    else Goes(next.(rec := rec), [])
  }

  function BeginRecord(r: Reader): Step {
    if |r.pending| < 4 then Stuck
    else
      var total := Get(r.pending[0..4]);
      if total == 0 then Goes(Advance(r, Min(PageRest(r.pos), |r.pending|)), [])
      else if total < RECORD_HEADER then Corrupt
      else Goes(r.(recLsn := r.pos, need := total, rec := []), [])
  }

  function StepOf(r: Reader): Step
    requires Sane(r)
  {
    if r.pending == [] then Stuck
    else if Boundary(r.pos) then StripHeader(r)
    else if r.skipLeft > 0 then Discard(r)
    else if r.need > 0 then Join(r)
    else BeginRecord(r)
  }

  /** Every iteration consumes a byte or begins a record. */
  function Fuel(r: Reader): nat {
    2 * |r.pending| + if r.need == 0 then 1 else 0
  }

  lemma StepShrinks(r: Reader)
    requires Sane(r) && StepOf(r).Goes?
    ensures Sane(StepOf(r).next) && Fuel(StepOf(r).next) < Fuel(r)
    ensures StepOf(r).next.pos + |StepOf(r).next.pending| == r.pos + |r.pending|
  {
  }

  datatype Drained = Done(reader: Reader, out: seq<Record>) | Failed

  /** Iterate until stuck. */
  function Drain(r: Reader): Drained
    requires Sane(r)
    decreases Fuel(r)
  {
    match StepOf(r)
    case Stuck => Done(r, [])
    case Corrupt => Failed
    case Goes(next, out) =>
      StepShrinks(r);
      match Drain(next)
      case Done(last, more) => Done(last, out + more)
      case Failed => Failed
  }

  datatype FeedResult = Records(records: seq<Record>) | Gap | Bad

  /** `Drain` from here continues what `out` has so far. */
  ghost predicate Continues(start: Reader, now: Reader, out: seq<Record>)
    requires Sane(start) && Sane(now)
  {
    Drain(start) == match Drain(now) case Done(last, more) => Done(last, out + more) case Failed => Failed
  }

  class WalReader {
    var pos: nat
    var pending: Bytes
    var skipLeft: nat
    var started: bool
    var rec: Bytes
    var recLsn: nat
    var need: nat

    constructor (startLsn: nat)
      requires Boundary(startLsn)
      ensures State() == New(startLsn) && Sane(State())
    {
      pos, pending, skipLeft, started, rec, recLsn, need := startLsn, [], 0, false, [], 0, 0;
    }

    function State(): Reader
      reads this
    {
      Reader(pos, pending, skipLeft, started, rec, recLsn, need)
    }

    method StripPageHeader() returns (stuck: bool, corrupt: bool)
      modifies this
      ensures match StripHeader(old(State()))
              case Stuck => stuck && State() == old(State())
              case Corrupt => !stuck && corrupt
              case Goes(next, _) => !stuck && !corrupt && State() == next
    {
      stuck, corrupt := false, false;
      var headerLen := HeaderLen(pos);
      if |pending| < headerLen {
        stuck := true;
      } else if !KnownMagic(Get(pending[0..2])) {
        corrupt := true;
      } else {
        var remLen := Get(pending[16..20]);
        if !started {
          started := true;
          skipLeft := remLen;
        }
        pending := pending[headerLen..];
        pos := pos + headerLen;
        if skipLeft == 0 && need == 0 {
          skipLeft := Padding(pos);
        }
      }
    }

    method DiscardBytes()
      requires skipLeft > 0 && pending != []
      modifies this
      ensures State() == Discard(old(State())).next
    {
      var take := Min(Min(skipLeft, PageRest(pos)), |pending|);
      pending := pending[take..];
      pos := pos + take;
      skipLeft := skipLeft - take;
      if skipLeft == 0 {
        skipLeft := Padding(pos);
      }
    }

    method JoinBytes() returns (out: seq<Record>)
      requires Sane(State()) && need > 0 && pending != []
      modifies this
      ensures Goes(State(), out) == Join(old(State()))
    {
      out := [];
      var take := Min(Min(need - |rec|, PageRest(pos)), |pending|);
      rec := rec + pending[..take];
      pending := pending[take..];
      pos := pos + take;
      if |rec| == need {
        out := [(recLsn, rec)];
        rec := [];
        need := 0;
        skipLeft := Padding(pos);
      }
    }

    method StartRecord() returns (stuck: bool, corrupt: bool)
      modifies this
      ensures match BeginRecord(old(State()))
              case Stuck => stuck && State() == old(State())
              case Corrupt => !stuck && corrupt
              case Goes(next, _) => !stuck && !corrupt && State() == next
    {
      stuck, corrupt := false, false;
      if |pending| < 4 {
        stuck := true;
        return;
      }
      var total := Get(pending[0..4]);
      if total == 0 {
        var take := Min(PageRest(pos), |pending|);
        pending := pending[take..];
        pos := pos + take;
      } else if total < RECORD_HEADER {
        corrupt := true;
      } else {
        recLsn := pos;
        need := total;
        rec := [];
      }
    }

    /** One pass of the loop body over the bytes at hand. */
    method Iterate() returns (stuck: bool, corrupt: bool, out: seq<Record>)
      requires Sane(State())
      modifies this
      ensures match StepOf(old(State()))
              case Stuck => stuck && State() == old(State())
              case Corrupt => !stuck && corrupt
              case Goes(next, o) => !stuck && !corrupt && State() == next && out == o
    {
      stuck, corrupt, out := false, false, [];
      if pending == [] {
        stuck := true;
      } else if Boundary(pos) {
        stuck, corrupt := StripPageHeader();
      } else if skipLeft > 0 {
        DiscardBytes();
      } else if need > 0 {
        out := JoinBytes();
      } else {
        stuck, corrupt := StartRecord();
      }
    }

    method Feed(startLsn: nat, data: Bytes) returns (r: FeedResult)
      requires Sane(State())
      modifies this
      ensures startLsn != old(pos) + |old(pending)| ==> r == Gap && State() == old(State())
      ensures startLsn == old(pos) + |old(pending)| ==>
                match Drain(old(State()).(pending := old(pending) + data))
                case Done(last, out) => r == Records(out) && State() == last && Sane(last)
                case Failed => r == Bad
    {
      if startLsn != pos + |pending| {
        return Gap;
      }
      pending := pending + data;
      ghost var start := State();
      var all: seq<Record> := [];
      while true
        invariant Sane(start) && Sane(State()) && Continues(start, State(), all)
        decreases Fuel(State())
      {
        ghost var before := State();
        var stuck, corrupt, out := Iterate();
        if stuck {
          return Records(all);
        }
        if corrupt {
          return Bad;
        }
        StepShrinks(before);
        ContinuesStep(start, before, all);
        all := all + out;
      }
    }
  }

  function New(startLsn: nat): Reader {
    Reader(startLsn, [], 0, false, [], 0, 0)
  }

  lemma ContinuesStep(start: Reader, r: Reader, out: seq<Record>)
    requires Sane(start) && Sane(r) && Continues(start, r, out) && StepOf(r).Goes?
    ensures Sane(StepOf(r).next) && Continues(start, StepOf(r).next, out + StepOf(r).out)
  {
    StepShrinks(r);
    var step := StepOf(r);
    if Drain(step.next).Done? {
      assert out + (step.out + Drain(step.next).out) == out + step.out + Drain(step.next).out;
    }
  }
}
