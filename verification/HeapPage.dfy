/**
 Rebuilding an 8 KB heap page from its slots and reading it back (src/reconstruct.rs). The block checksum's mixing
 function is a parameter.
 */
module HeapPage {
  import opened Base
  import opened LittleEndian
  import opened Tuple
  import Slru

  const PAGE_SIZE: nat := 8192
  const PAGE_HEADER: nat := 24
  const ITEM_SIZE: nat := 4
  const LP_UNUSED: nat := 0
  const LP_NORMAL: nat := 1
  const LP_REDIRECT: nat := 2
  const LP_DEAD: nat := 3

  /** Attribute bytes placed as they are; the header is synthesized. `ctid` `None` points at the tuple itself. */
  datatype RawTuple = RawTuple(attrs: Bytes, bitmap: Bytes, natts: nat, varwidth: bool, xmin: nat, xmax: nat,
                               ctid: Option<(nat, nat)>, heapOnly: bool, hotUpdated: bool)

  /** A tuple re-encoded from its row. Which column types count as variable-width is the caller's knowledge. */
  datatype TupleSpec = TupleSpec(row: Row, varwidth: bool, xmin: nat, xmax: nat, ctid: Option<(nat, nat)>, heapOnly: bool,
                                 hotUpdated: bool)

  datatype Slot = Unused | Dead | Redirect(target: nat) | Semantic(spec: TupleSpec) | Raw(raw: RawTuple)

  // ---- Tuples ---------------------------------------------------------------------------

  function Flag(b: bool, v: nat): nat { if b then v else 0 }

  function Infomask2(natts: nat, heapOnly: bool, hotUpdated: bool): nat {
    natts % 0x800 + Flag(hotUpdated, 0x4000) + Flag(heapOnly, 0x8000)
  }

  function Infomask(xmin: nat, xmax: nat, hasNulls: bool, varwidth: bool): nat {
    Flag(hasNulls, 1) + Flag(varwidth, 2) + Flag(xmin == Slru.FROZEN_XID, 0x300) + Flag(xmax == 0, 0x800)
  }

  function Header(xmin: nat, xmax: nat, ctid: (nat, nat), infomask2: nat, infomask: nat, hoff: nat): (b: Bytes)
    ensures |b| == TUPLE_HEADER
  {
    Put(xmin, 4) + Put(xmax, 4) + Zeros(4) + Put(ctid.0 / 0x1_0000, 2) + Put(ctid.0 % 0x1_0000, 2) + Put(ctid.1, 2)
    + Put(infomask2, 2) + Put(infomask, 2) + [(hoff % 256) as byte]
  }

  /** Offset of the attributes: header and bitmap, aligned. Only its low byte is stored. */
  function Hoff(bitmap: Bytes): nat {
    AlignTo(TUPLE_HEADER + |bitmap|, 8)
  }

  function Assemble(header: Bytes, bitmap: Bytes, attrs: Bytes): (b: Bytes)
    requires |header| == TUPLE_HEADER
    ensures |b| == Hoff(bitmap) + |attrs|
  {
    header + bitmap + Zeros(Hoff(bitmap) - TUPLE_HEADER - |bitmap|) + attrs
  }

  function RawHeader(t: RawTuple, self: (nat, nat)): (b: Bytes)
    ensures |b| == TUPLE_HEADER
  {
    Header(t.xmin, t.xmax, if t.ctid.Some? then t.ctid.value else self, Infomask2(t.natts, t.heapOnly, t.hotUpdated),
           Infomask(t.xmin, t.xmax, t.bitmap != [], t.varwidth), Hoff(t.bitmap))
  }

  /** `encode_raw_tuple`: refused when the bitmap does not fit the attribute count. */
  function EncodeRaw(t: RawTuple, self: (nat, nat)): Option<Bytes> {
    if t.bitmap != [] && |t.bitmap| != (t.natts + 7) / 8 then None
    else Some(Assemble(RawHeader(t, self), t.bitmap, t.attrs))
  }

  /** A re-encoded tuple is the raw one with the encoded attributes and, if anything is NULL, the row's bitmap. */
  function AsRaw(s: TupleSpec, ps: seq<PhysCol>): Option<RawTuple>
    requires ColsOk(ps)
  {
    var attrs := EncodeFrom([], LiveKinds(ps), s.row, 0);
    if |s.row| != |LiveKinds(ps)| || attrs.None? then None
    else
      var flags := PresentFlags(ps, s.row);
      Some(RawTuple(attrs.value, if false in flags then Bitmap(flags) else [], |ps|, s.varwidth, s.xmin, s.xmax, s.ctid,
                    s.heapOnly, s.hotUpdated))
  }

  // ---- Building -------------------------------------------------------------------------

  function Write(page: Bytes, at: nat, b: Bytes): (r: Bytes)
    requires at + |b| <= |page|
    ensures |r| == |page|
  {
    page[..at] + b + page[at + |b|..]
  }

  /** What a slot stores: nothing, or a tuple; `Refused` when the slot is not acceptable. */
  datatype Stored = Refused | Nothing(item: nat) | Bytes(tuple: seq<byte>)

  function StoredBy(s: Slot, ps: seq<PhysCol>, block: nat, offnum: nat): Stored
    requires ColsOk(ps)
  {
    match s
    case Unused => Nothing(LP_UNUSED * 0x8000)
    case Dead => Nothing(LP_DEAD * 0x8000)
    case Redirect(t) => if t == 0 then Refused else Nothing(OrFlags(t))
    case Semantic(spec) =>
      var r := AsRaw(spec, ps);
      if r.None? then Refused
      else
        var e := EncodeRaw(r.value, (block, offnum));
        if e.None? then Refused else Bytes(e.value)
    case Raw(t) =>
      var e := EncodeRaw(t, (block, offnum));
      if e.None? then Refused else Bytes(e.value)
  }

  /** `target | LP_REDIRECT << 15` for a 16-bit target: bit 15 of the target lands in the flags. */
  function OrFlags(target: nat): nat {
    if target < 0x8000 then target + LP_REDIRECT * 0x8000 else target % 0x8000 + LP_DEAD * 0x8000
  }

  /** The page so far and where the next tuple ends. */
  datatype Draft = Draft(page: Bytes, upper: nat)

  function LowerEnd(n: nat): nat {
    PAGE_HEADER + n * ITEM_SIZE
  }

  function NormalItem(at: nat, len: nat): nat {
    at + LP_NORMAL * 0x8000 + len * 0x2_0000
  }

  function PlaceSlot(b: Draft, st: Stored, i: nat, n: nat): Option<Draft>
    requires |b.page| == PAGE_SIZE && i < n && LowerEnd(n) <= PAGE_SIZE && b.upper <= PAGE_SIZE
  {
    match st
    case Refused => None
    case Nothing(item) => Some(b.(page := Write(b.page, LowerEnd(i), Put(item, 4))))
    case Bytes(tup) =>
      var size := AlignTo(|tup|, 8);
      if b.upper < LowerEnd(n) + size then None
      else
        var at := b.upper - size;
        Some(Draft(Write(Write(b.page, at, tup), LowerEnd(i), Put(NormalItem(at, |tup|), 4)), at))
  }

  /** The first `k` slots placed. */
  function Placed(slots: seq<Slot>, ps: seq<PhysCol>, block: nat, k: nat): (r: Option<Draft>)
    requires ColsOk(ps) && k <= |slots| && LowerEnd(|slots|) <= PAGE_SIZE
    ensures r.Some? ==> |r.value.page| == PAGE_SIZE && LowerEnd(|slots|) <= r.value.upper <= PAGE_SIZE
  {
    if k == 0 then Some(Draft(Zeros(PAGE_SIZE), PAGE_SIZE))
    else
      var prev := Placed(slots, ps, block, k - 1);
      if prev.None? then None else PlaceSlot(prev.value, StoredBy(slots[k - 1], ps, block, k), k - 1, |slots|)
  }

  function HeaderBytes(lsn: nat, lower: nat, upper: nat): (b: Bytes)
    ensures |b| == PAGE_HEADER
  {
    Put(lsn / 0x1_0000_0000, 4) + Put(lsn, 4) + Zeros(2) + Zeros(2) + Put(lower, 2) + Put(upper, 2)
    + Put(PAGE_SIZE, 2) + Put(PAGE_SIZE + 4, 2) + Zeros(4)
  }

  /** `pg_checksum_block` of the page with its checksum field zeroed, mixed with the block number. */
  type Mix = (Bytes, nat) -> nat

  function Checksum(page: Bytes, block: nat, mix: Mix): (c: nat)
    requires |page| == PAGE_SIZE
    ensures 0 < c < 0x1_0000
  {
    mix(Write(page, 8, [0, 0]), block) % 65535 + 1
  }

  function BuildPage(slots: seq<Slot>, ps: seq<PhysCol>, block: nat, lsn: nat, mix: Mix): Option<Bytes>
    requires ColsOk(ps)
  {
    if LowerEnd(|slots|) > PAGE_SIZE then None
    else
      var b := Placed(slots, ps, block, |slots|);
      if b.None? then None
      else
        var page := Write(b.value.page, 0, HeaderBytes(lsn, LowerEnd(|slots|), b.value.upper));
        Some(Write(page, 8, Put(Checksum(page, block, mix), 2)))
  }

  /** Copy bytes into the buffer. */
  method WriteAt(page: array<byte>, at: nat, b: Bytes)
    requires at + |b| <= page.Length
    modifies page
    ensures page[..] == Write(old(page[..]), at, b)
  {
    forall i | 0 <= i < |b| {
      page[at + i] := b[i];
    }
  }

  /** `place_tuple` in the buffer: the tuple's item id, or `None` when it does not fit. */
  method PlaceTuple(page: array<byte>, upper: nat, lower: nat, tup: Bytes) returns (item: Option<nat>, upper': nat)
    requires page.Length == PAGE_SIZE && upper <= PAGE_SIZE
    modifies page
    ensures upper < lower + AlignTo(|tup|, 8) ==> item == None && upper' == upper && page[..] == old(page[..])
    ensures upper >= lower + AlignTo(|tup|, 8) ==>
              && upper' == upper - AlignTo(|tup|, 8) && item == Some(NormalItem(upper', |tup|))
              && page[..] == Write(old(page[..]), upper', tup)
  {
    var size := AlignTo(|tup|, 8);
    if upper < lower + size {
      return None, upper;
    }
    upper' := upper - size;
    WriteAt(page, upper', tup);
    item := Some(NormalItem(upper', |tup|));
  }

  /** One slot: its tuple, if it stores one, and its line pointer. */
  method PlaceOne(page: array<byte>, upper: nat, st: Stored, i: nat, n: nat) returns (upper': Option<nat>)
    requires page.Length == PAGE_SIZE && i < n && LowerEnd(n) <= PAGE_SIZE && LowerEnd(n) <= upper <= PAGE_SIZE
    modifies page
    ensures match PlaceSlot(Draft(old(page[..]), upper), st, i, n)
            case None => upper' == None
            case Some(b) => upper' == Some(b.upper) && page[..] == b.page
  {
    hide Write, Put;
    match st {
      case Refused => upper' := None;
      case Nothing(item) =>
        WriteAt(page, LowerEnd(i), Put(item, 4));
        upper' := Some(upper);
      case Bytes(tup) =>
        var item, up := PlaceTuple(page, upper, LowerEnd(n), tup);
        if item.None? {
          return None;
        }
        WriteAt(page, LowerEnd(i), Put(item.value, 4));
        upper' := Some(up);
    }
  }

  method RebuildPage(slots: seq<Slot>, ps: seq<PhysCol>, block: nat, lsn: nat, mix: Mix) returns (r: Option<Bytes>)
    requires ColsOk(ps)
    ensures r == BuildPage(slots, ps, block, lsn, mix)
  {
    hide StoredBy, PlaceSlot, Write, Put, HeaderBytes, Checksum;
    var lower := LowerEnd(|slots|);
    if lower > PAGE_SIZE {
      return None;
    }
    var page := new byte[PAGE_SIZE](_ => 0);
    assert page[..] == Zeros(PAGE_SIZE);
    var upper := PAGE_SIZE;
    for i := 0 to |slots|
      invariant page.Length == PAGE_SIZE && lower <= upper <= PAGE_SIZE
      invariant Placed(slots, ps, block, i) == Some(Draft(page[..], upper))
    {
      var next := PlaceOne(page, upper, StoredBy(slots[i], ps, block, i + 1), i, |slots|);
      if next.None? {
        NoneFrom(slots, ps, block, i + 1);
        return None;
      }
      assert Placed(slots, ps, block, i + 1) == Some(Draft(page[..], next.value));
      upper := next.value;
    }
    WriteAt(page, 0, HeaderBytes(lsn, lower, upper));
    WriteAt(page, 8, Put(Checksum(page[..], block, mix), 2));
    r := Some(page[..]);
  }

  lemma {:induction false} NoneFrom(slots: seq<Slot>, ps: seq<PhysCol>, block: nat, k: nat)
    requires ColsOk(ps) && k <= |slots| && LowerEnd(|slots|) <= PAGE_SIZE && Placed(slots, ps, block, k).None?
    ensures Placed(slots, ps, block, |slots|).None?
    decreases |slots| - k
  {
    if k < |slots| {
      NoneFrom(slots, ps, block, k + 1);
    }
  }
}
