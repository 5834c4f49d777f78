/**
 Reading rebuilt heap pages (src/reconstruct.rs `line_pointer`, `RawTuple::from_page`; src/wal/heap.rs
 `decode_tuple_from_page`) and the page round trip.
 */
module PageRead {
  import opened Base
  import opened LittleEndian
  import opened Tuple
  import opened HeapPage

  datatype LinePointer = LinePointer(off: nat, flags: nat, len: nat)

  function ItemPointer(item: nat): LinePointer {
    LinePointer(item % 0x8000, item / 0x8000 % 4, item / 0x2_0000)
  }

  function PointerAt(page: Bytes, offnum: nat): Option<LinePointer> {
    if offnum == 0 || LowerEnd(offnum) > |page| then None
    else Some(ItemPointer(Get(page[LowerEnd(offnum - 1)..LowerEnd(offnum)])))
  }

  /** The bytes of a normal line pointer's tuple. */
  function TupleAt(page: Bytes, offnum: nat): Option<Bytes> {
    var lp := PointerAt(page, offnum);
    if lp.None? || lp.value.flags != LP_NORMAL || lp.value.off + lp.value.len > |page| || lp.value.len < TUPLE_HEADER then None
    else Some(page[lp.value.off..lp.value.off + lp.value.len])
  }

  datatype Fields = Fields(xmin: nat, xmax: nat, ctid: (nat, nat), infomask2: nat, infomask: nat, hoff: nat)

  function FieldsOf(t: Bytes): Fields
    requires |t| >= TUPLE_HEADER
  {
    Fields(Get(t[0..4]), Get(t[4..8]), (Get(t[12..14]) * 0x1_0000 + Get(t[14..16]), Get(t[16..18])), Get(t[18..20]),
           Get(t[20..22]), t[22] as nat)
  }

  predicate HotUpdated(infomask2: nat) { infomask2 / 0x4000 % 2 == 1 }
  predicate HeapOnly(infomask2: nat) { infomask2 / 0x8000 % 2 == 1 }

  function RawFrom(t: Bytes): Option<RawTuple>
    requires |t| >= TUPLE_HEADER
  {
    var f := FieldsOf(t);
    var natts := f.infomask2 % 0x800;
    var bits := if f.infomask % 2 == 1 then (natts + 7) / 8 else 0;
    if TUPLE_HEADER + bits > |t| || f.hoff > |t| then None
    else Some(RawTuple(t[f.hoff..], t[TUPLE_HEADER..TUPLE_HEADER + bits], natts, f.infomask / 2 % 2 == 1, f.xmin, f.xmax,
                       Some(f.ctid), HeapOnly(f.infomask2), HotUpdated(f.infomask2)))
  }

  function RawFromPage(page: Bytes, offnum: nat): Option<RawTuple> {
    var t := TupleAt(page, offnum);
    if t.None? then None else RawFrom(t.value)
  }

  function DecodeFromPage(page: Bytes, offnum: nat, ps: seq<PhysCol>, env: Env): Option<(Row, Bytes)>
    requires ColsOk(ps)
  {
    var t := TupleAt(page, offnum);
    if t.None? then None
    else
      var f := FieldsOf(t.value);
      DecodePayload(t.value[TUPLE_HEADER..], f.infomask2 % 0x800, f.infomask % 2 == 1, f.hoff, ps, env, None)
  }

  // ---- Where things are on the page -----------------------------------------------------

  lemma WriteFacts(page: Bytes, at: nat, b: Bytes, lo: nat, hi: nat)
    requires at + |b| <= |page| && lo <= hi <= |page|
    ensures Write(page, at, b)[at..at + |b|] == b
    ensures hi <= at || at + |b| <= lo ==> Write(page, at, b)[lo..hi] == page[lo..hi]
  {
    var w := Write(page, at, b);
    if hi <= at || at + |b| <= lo {
      forall k | lo <= k < hi ensures w[k] == page[k] { }
    }
  }

  /** The slot's line pointer and, if it stores one, its tuple at `at` are on the page. */
  ghost predicate On(page: Bytes, st: Stored, k: nat, at: nat)
    requires |page| == PAGE_SIZE && LowerEnd(k + 1) <= PAGE_SIZE
  {
    match st
    case Refused => false
    case Nothing(item) => page[LowerEnd(k)..LowerEnd(k + 1)] == Put(item, 4)
    case Bytes(tup) =>
      && page[LowerEnd(k)..LowerEnd(k + 1)] == Put(NormalItem(at, |tup|), 4)
      && at + |tup| <= PAGE_SIZE && page[at..at + |tup|] == tup
  }

  lemma OnStays(page: Bytes, at: nat, b: Bytes, st: Stored, k: nat, pos: nat)
    requires |page| == PAGE_SIZE && at + |b| <= PAGE_SIZE && LowerEnd(k + 1) <= PAGE_SIZE && On(page, st, k, pos)
    requires LowerEnd(k + 1) <= at || at + |b| <= LowerEnd(k)
    requires st.Bytes? ==> pos + |st.tuple| <= at || at + |b| <= pos
    ensures On(Write(page, at, b), st, k, pos)
  {
    hide Write, Put;
    WriteFacts(page, at, b, LowerEnd(k), LowerEnd(k + 1));
    if st.Bytes? {
      WriteFacts(page, at, b, pos, pos + |st.tuple|);
    }
  }

  /** Where slot `k`'s tuple is: the upper end after placing it. */
  function At(slots: seq<Slot>, ps: seq<PhysCol>, block: nat, k: nat): nat
    requires ColsOk(ps) && k < |slots| && LowerEnd(|slots|) <= PAGE_SIZE && Placed(slots, ps, block, k + 1).Some?
  {
    Placed(slots, ps, block, k + 1).value.upper
  }

  lemma PlacedEarlier(slots: seq<Slot>, ps: seq<PhysCol>, block: nat, j: nat, k: nat)
    requires ColsOk(ps) && j <= k <= |slots| && LowerEnd(|slots|) <= PAGE_SIZE && Placed(slots, ps, block, k).Some?
    ensures Placed(slots, ps, block, j).Some? && Placed(slots, ps, block, k).value.upper <= Placed(slots, ps, block, j).value.upper
    decreases k - j
  {
    hide StoredBy, Write;
    if j < k {
      PlacedEarlier(slots, ps, block, j, k - 1);
    }
  }

  lemma SlotFits(b: Draft, st: Stored, i: nat, n: nat)
    requires |b.page| == PAGE_SIZE && i < n && LowerEnd(n) <= b.upper <= PAGE_SIZE && PlaceSlot(b, st, i, n).Some?
    ensures var r := PlaceSlot(b, st, i, n).value;
            && |r.page| == PAGE_SIZE && On(r.page, st, i, r.upper)
            && (st.Bytes? ==> r.upper + AlignTo(|st.tuple|, 8) == b.upper) && (st.Nothing? ==> r.upper == b.upper)
  {
    hide Write, Put;
    var at := LowerEnd(i);
    match st
    case Refused =>
    case Nothing(item) => WriteFacts(b.page, at, Put(item, 4), 0, 0);
    case Bytes(tup) =>
      var up := b.upper - AlignTo(|tup|, 8);
      var p := Write(b.page, up, tup);
      WriteFacts(b.page, up, tup, 0, 0);
      WriteFacts(p, at, Put(NormalItem(up, |tup|), 4), up, up + |tup|);
  }

  lemma OthersStay(b: Draft, st: Stored, i: nat, n: nat, other: Stored, j: nat, pos: nat)
    requires |b.page| == PAGE_SIZE && j < i < n && LowerEnd(n) <= b.upper <= PAGE_SIZE && PlaceSlot(b, st, i, n).Some?
    requires On(b.page, other, j, pos) && (other.Bytes? ==> b.upper <= pos)
    ensures On(PlaceSlot(b, st, i, n).value.page, other, j, pos)
  {
    hide Write, Put;
    match st
    case Refused =>
    case Nothing(item) => OnStays(b.page, LowerEnd(i), Put(item, 4), other, j, pos);
    case Bytes(tup) =>
      var up := b.upper - AlignTo(|tup|, 8);
      OnStays(b.page, up, tup, other, j, pos);
      OnStays(Write(b.page, up, tup), LowerEnd(i), Put(NormalItem(up, |tup|), 4), other, j, pos);
  }

  lemma {:induction false} PlacedOn(slots: seq<Slot>, ps: seq<PhysCol>, block: nat, k: nat, j: nat)
    requires ColsOk(ps) && j < k <= |slots| && LowerEnd(|slots|) <= PAGE_SIZE && Placed(slots, ps, block, k).Some?
    ensures Placed(slots, ps, block, j + 1).Some?
    ensures On(Placed(slots, ps, block, k).value.page, StoredBy(slots[j], ps, block, j + 1), j, At(slots, ps, block, j))
    decreases k
  {
    hide StoredBy, PlaceSlot, On;
    PlacedEarlier(slots, ps, block, j + 1, k);
    var prev := Placed(slots, ps, block, k - 1).value;
    var st := StoredBy(slots[k - 1], ps, block, k);
    if j == k - 1 {
      SlotFits(prev, st, k - 1, |slots|);
    } else {
      PlacedOn(slots, ps, block, k - 1, j);
      PlacedEarlier(slots, ps, block, j + 1, k - 1);
      OthersStay(prev, st, k - 1, |slots|, StoredBy(slots[j], ps, block, j + 1), j, At(slots, ps, block, j));
    }
  }

  /** Every slot of a built page is where it was placed. */
  lemma PageHolds(slots: seq<Slot>, ps: seq<PhysCol>, block: nat, lsn: nat, mix: Mix, k: nat)
    requires ColsOk(ps) && k < |slots| && BuildPage(slots, ps, block, lsn, mix).Some?
    ensures LowerEnd(|slots|) <= PAGE_SIZE && Placed(slots, ps, block, k + 1).Some?
    ensures var page := BuildPage(slots, ps, block, lsn, mix).value;
            |page| == PAGE_SIZE && On(page, StoredBy(slots[k], ps, block, k + 1), k, At(slots, ps, block, k))
  {
    hide StoredBy, Placed, Put, HeaderBytes, Checksum, On, Write;
    var n := |slots|;
    PlacedOn(slots, ps, block, n, k);
    PlacedEarlier(slots, ps, block, k + 1, n);
    var st, at, b := StoredBy(slots[k], ps, block, k + 1), At(slots, ps, block, k), Placed(slots, ps, block, n).value;
    var page := Write(b.page, 0, HeaderBytes(lsn, LowerEnd(n), b.upper));
    OnStays(b.page, 0, HeaderBytes(lsn, LowerEnd(n), b.upper), st, k, at);
    OnStays(page, 8, Put(Checksum(page, block, mix), 2), st, k, at);
  }

  lemma AlignedBy8(n: nat)
    ensures AlignTo(n, 8) % 8 == 0
  {
    var q := (n + 7) / 8;
    assert AlignTo(n, 8) == q * 8;
    assert (q * 8) % 8 == 0;
  }

  lemma {:induction false} UpperAligned(slots: seq<Slot>, ps: seq<PhysCol>, block: nat, k: nat)
    requires ColsOk(ps) && k <= |slots| && LowerEnd(|slots|) <= PAGE_SIZE && Placed(slots, ps, block, k).Some?
    ensures Placed(slots, ps, block, k).value.upper % 8 == 0
  {
    hide StoredBy, PlaceSlot, AlignTo, Write;
    if k > 0 {
      UpperAligned(slots, ps, block, k - 1);
      var st := StoredBy(slots[k - 1], ps, block, k);
      SlotFits(Placed(slots, ps, block, k - 1).value, st, k - 1, |slots|);
      if st.Bytes? {
        AlignedBy8(|st.tuple|);
      }
    }
  }

  /** Tuple regions are 8-aligned, pairwise disjoint, and clear of the line pointers. */
  lemma RegionsDisjoint(slots: seq<Slot>, ps: seq<PhysCol>, block: nat, lsn: nat, mix: Mix, i: nat, j: nat)
    requires ColsOk(ps) && i < j < |slots| && BuildPage(slots, ps, block, lsn, mix).Some?
    requires StoredBy(slots[i], ps, block, i + 1).Bytes? && StoredBy(slots[j], ps, block, j + 1).Bytes?
    ensures LowerEnd(|slots|) <= PAGE_SIZE && Placed(slots, ps, block, i + 1).Some? && Placed(slots, ps, block, j + 1).Some?
    ensures var a, b := At(slots, ps, block, i), At(slots, ps, block, j);
            && a % 8 == 0 && b % 8 == 0
            && LowerEnd(|slots|) <= b
            && b + |StoredBy(slots[j], ps, block, j + 1).tuple| <= a
            && a + |StoredBy(slots[i], ps, block, i + 1).tuple| <= PAGE_SIZE
  {
    hide StoredBy, PlaceSlot, HeaderBytes, Checksum, Write;
    PlacedEarlier(slots, ps, block, i + 1, |slots|);
    PlacedEarlier(slots, ps, block, j, |slots|);
    PlacedEarlier(slots, ps, block, j + 1, |slots|);
    PlacedEarlier(slots, ps, block, i + 1, j);
    PlacedEarlier(slots, ps, block, i, |slots|);
    UpperAligned(slots, ps, block, i + 1);
    UpperAligned(slots, ps, block, j + 1);
    SlotFits(Placed(slots, ps, block, i).value, StoredBy(slots[i], ps, block, i + 1), i, |slots|);
    SlotFits(Placed(slots, ps, block, j).value, StoredBy(slots[j], ps, block, j + 1), j, |slots|);
  }

  // ---- Line pointers --------------------------------------------------------------------

  lemma ItemRead(page: Bytes, k: nat, item: nat)
    requires LowerEnd(k + 1) <= |page| && item < 0x1_0000_0000 && page[LowerEnd(k)..LowerEnd(k + 1)] == Put(item, 4)
    ensures PointerAt(page, k + 1) == Some(ItemPointer(item))
  {
    hide Get, Put;
    Widths();
    GetPut(item, 4);
  }

  lemma NormalItemParts(at: nat, len: nat)
    requires at < 0x8000 && len < 0x8000
    ensures NormalItem(at, len) < 0x1_0000_0000 && ItemPointer(NormalItem(at, len)) == LinePointer(at, LP_NORMAL, len)
  {
    var item, m := NormalItem(at, len), 1 + 4 * len;
    assert item == 0x8000 * m + at;
    assert item / 0x8000 == m && item % 0x8000 == at;
    assert item / 0x2_0000 == len;
  }

  lemma RedirectParts(target: nat)
    requires target < 0x1_0000
    ensures OrFlags(target) < 0x1_0000_0000
    ensures ItemPointer(OrFlags(target)) == LinePointer(target % 0x8000, if target < 0x8000 then LP_REDIRECT else LP_DEAD, 0)
  {
  }

  /**
   Every line pointer of a built page reads back as what its slot is; a redirect reads back as one if and only if its
   target fits 15 bits, and as a dead pointer otherwise.
   */
  lemma PointersReadBack(slots: seq<Slot>, ps: seq<PhysCol>, block: nat, lsn: nat, mix: Mix, k: nat)
    requires ColsOk(ps) && k < |slots| && BuildPage(slots, ps, block, lsn, mix).Some?
    requires slots[k].Redirect? ==> slots[k].target < 0x1_0000
    ensures LowerEnd(|slots|) <= PAGE_SIZE && Placed(slots, ps, block, k + 1).Some?
    ensures var page, st := BuildPage(slots, ps, block, lsn, mix).value, StoredBy(slots[k], ps, block, k + 1);
            match slots[k]
            case Unused => PointerAt(page, k + 1) == Some(LinePointer(0, LP_UNUSED, 0))
            case Dead => PointerAt(page, k + 1) == Some(LinePointer(0, LP_DEAD, 0))
            case Redirect(t) =>
              && (PointerAt(page, k + 1) == Some(LinePointer(t, LP_REDIRECT, 0)) <==> t < 0x8000)
              && (t >= 0x8000 ==> PointerAt(page, k + 1) == Some(LinePointer(t - 0x8000, LP_DEAD, 0)))
            case _ =>
              && st.Bytes? && PointerAt(page, k + 1) == Some(LinePointer(At(slots, ps, block, k), LP_NORMAL, |st.tuple|))
              && (|st.tuple| >= TUPLE_HEADER ==> TupleAt(page, k + 1) == Some(st.tuple))
  {
    hide BuildPage, Placed, EncodeRaw, AsRaw, Put, TupleAt, PointerAt, On, ItemPointer, OrFlags;
    PageHolds(slots, ps, block, lsn, mix, k);
    EmptyItems();
    PointerRead(BuildPage(slots, ps, block, lsn, mix).value, slots[k], StoredBy(slots[k], ps, block, k + 1), k, At(slots, ps, block, k));
  }

  lemma EmptyItems()
    ensures ItemPointer(LP_UNUSED * 0x8000) == LinePointer(0, LP_UNUSED, 0)
    ensures ItemPointer(LP_DEAD * 0x8000) == LinePointer(0, LP_DEAD, 0)
  {
  }

  lemma PointerRead(page: Bytes, s: Slot, st: Stored, k: nat, at: nat)
    requires |page| == PAGE_SIZE && LowerEnd(k + 1) <= PAGE_SIZE && On(page, st, k, at)
    ensures !st.Refused?
    ensures st.Nothing? && st.item < 0x1_0000_0000 ==> PointerAt(page, k + 1) == Some(ItemPointer(st.item))
    ensures st.Bytes? ==> PointerAt(page, k + 1) == Some(LinePointer(at, LP_NORMAL, |st.tuple|))
    ensures st.Bytes? && |st.tuple| >= TUPLE_HEADER ==> TupleAt(page, k + 1) == Some(st.tuple)
    ensures s.Redirect? && s.target < 0x1_0000 ==>
              OrFlags(s.target) < 0x1_0000_0000
              && ItemPointer(OrFlags(s.target))
                 == LinePointer(s.target % 0x8000, if s.target < 0x8000 then LP_REDIRECT else LP_DEAD, 0)
  {
    hide Get, Put;
    if s.Redirect? && s.target < 0x1_0000 {
      RedirectParts(s.target);
    }
    match st
    case Refused =>
    case Nothing(item) => if item < 0x1_0000_0000 { ItemRead(page, k, item); }
    case Bytes(tup) =>
      NormalItemParts(at, |tup|);
      ItemRead(page, k, NormalItem(at, |tup|));
  }

  // ---- Raw tuples -----------------------------------------------------------------------

  ghost predicate InRange(t: RawTuple, self: (nat, nat)) {
    var c := if t.ctid.Some? then t.ctid.value else self;
    && t.xmin < 0x1_0000_0000 && t.xmax < 0x1_0000_0000 && c.0 < 0x1_0000_0000 && c.1 < 0x1_0000 && t.natts < 0x1_0000
  }

  lemma HeaderFields(xmin: nat, xmax: nat, ctid: (nat, nat), im2: nat, im: nat, hoff: nat, more: Bytes)
    requires xmin < 0x1_0000_0000 && xmax < 0x1_0000_0000 && ctid.0 < 0x1_0000_0000 && ctid.1 < 0x1_0000
    requires im2 < 0x1_0000 && im < 0x1_0000
    ensures FieldsOf(Header(xmin, xmax, ctid, im2, im, hoff) + more) == Fields(xmin, xmax, ctid, im2, im, hoff % 256)
  {
    hide Get, Put;
    Widths();
    var hi, lo := ctid.0 / 0x1_0000, ctid.0 % 0x1_0000;
    assert ctid.0 == hi * 0x1_0000 + lo && hi < 0x1_0000;
    GetPut(xmin, 4);
    GetPut(xmax, 4);
    GetPut(hi, 2);
    GetPut(lo, 2);
    GetPut(ctid.1, 2);
    GetPut(im2, 2);
    GetPut(im, 2);
    var t := Header(xmin, xmax, ctid, im2, im, hoff) + more;
    assert t[0..4] == Put(xmin, 4) && t[4..8] == Put(xmax, 4);
    assert t[12..14] == Put(hi, 2) && t[14..16] == Put(lo, 2) && t[16..18] == Put(ctid.1, 2);
    assert t[18..20] == Put(im2, 2) && t[20..22] == Put(im, 2);
  }

  lemma Infomask2Bits(natts: nat, heapOnly: bool, hotUpdated: bool)
    ensures var m := Infomask2(natts, heapOnly, hotUpdated);
            m < 0x1_0000 && m % 0x800 == natts % 0x800 && (HotUpdated(m) <==> hotUpdated) && (HeapOnly(m) <==> heapOnly)
  {
  }

  lemma InfomaskBits(xmin: nat, xmax: nat, hasNulls: bool, varwidth: bool)
    ensures var m := Infomask(xmin, xmax, hasNulls, varwidth);
            m < 0x1_0000 && (m % 2 == 1 <==> hasNulls) && (m / 2 % 2 == 1 <==> varwidth)
  {
  }

  function RawFields(t: RawTuple, self: (nat, nat)): Fields {
    Fields(t.xmin, t.xmax, if t.ctid.Some? then t.ctid.value else self, Infomask2(t.natts, t.heapOnly, t.hotUpdated),
           Infomask(t.xmin, t.xmax, t.bitmap != [], t.varwidth), Hoff(t.bitmap) % 256)
  }

  lemma EncodedFields(t: RawTuple, self: (nat, nat))
    requires InRange(t, self) && EncodeRaw(t, self).Some?
    ensures |EncodeRaw(t, self).value| >= TUPLE_HEADER && FieldsOf(EncodeRaw(t, self).value) == RawFields(t, self)
  {
    hide Get, Put, Header, Infomask, Infomask2, FieldsOf, AlignTo;
    var e := EncodeRaw(t, self).value;
    var ctid := if t.ctid.Some? then t.ctid.value else self;
    var im2, im := Infomask2(t.natts, t.heapOnly, t.hotUpdated), Infomask(t.xmin, t.xmax, t.bitmap != [], t.varwidth);
    Infomask2Bits(t.natts, t.heapOnly, t.hotUpdated);
    InfomaskBits(t.xmin, t.xmax, t.bitmap != [], t.varwidth);
    var rest := t.bitmap + Zeros(Hoff(t.bitmap) - TUPLE_HEADER - |t.bitmap|) + t.attrs;
    assert e == Header(t.xmin, t.xmax, ctid, im2, im, Hoff(t.bitmap)) + rest;
    HeaderFields(t.xmin, t.xmax, ctid, im2, im, Hoff(t.bitmap), rest);
  }

  lemma EncodedParts(t: RawTuple, self: (nat, nat))
    requires EncodeRaw(t, self).Some?
    ensures var e := EncodeRaw(t, self).value;
            && TUPLE_HEADER + |t.bitmap| <= Hoff(t.bitmap) <= |e| && |e| == Hoff(t.bitmap) + |t.attrs|
            && e[TUPLE_HEADER..TUPLE_HEADER + |t.bitmap|] == t.bitmap && e[Hoff(t.bitmap)..] == t.attrs
  {
    hide RawHeader, AlignTo;
  }

  /** The tuple with its ctid spelled out: all that reading it back can tell. */
  function Explicit(t: RawTuple, self: (nat, nat)): RawTuple {
    t.(ctid := Some(if t.ctid.Some? then t.ctid.value else self))
  }

  lemma RawFromFields(e: Bytes, f: Fields, natts: nat, bits: nat)
    requires |e| >= TUPLE_HEADER && FieldsOf(e) == f && natts == f.infomask2 % 0x800
    requires bits == if f.infomask % 2 == 1 then (natts + 7) / 8 else 0
    ensures RawFrom(e) == if TUPLE_HEADER + bits > |e| || f.hoff > |e| then None
                          else Some(RawTuple(e[f.hoff..], e[TUPLE_HEADER..TUPLE_HEADER + bits], natts, f.infomask / 2 % 2 == 1, f.xmin,
                                             f.xmax, Some(f.ctid), HeapOnly(f.infomask2), HotUpdated(f.infomask2)))
  {
    hide FieldsOf, HeapOnly, HotUpdated;
  }

  /**
   Reading back an encoded raw tuple gives its attributes, bitmap, attribute count, xids and chain flags, if and only if
   its attribute offset fits one byte and its attribute count eleven bits.
   */
  lemma RawRoundTrip(t: RawTuple, self: (nat, nat))
    requires InRange(t, self) && EncodeRaw(t, self).Some?
    ensures |EncodeRaw(t, self).value| >= TUPLE_HEADER
    ensures RawFrom(EncodeRaw(t, self).value) == Some(Explicit(t, self)) <==> Hoff(t.bitmap) < 256 && t.natts < 0x800
  {
    hide FieldsOf, Infomask, Infomask2, Hoff, HotUpdated, HeapOnly, Assemble, RawFrom;
    EncodedFields(t, self);
    EncodedParts(t, self);
    Infomask2Bits(t.natts, t.heapOnly, t.hotUpdated);
    InfomaskBits(t.xmin, t.xmax, t.bitmap != [], t.varwidth);
    var e, f := EncodeRaw(t, self).value, RawFields(t, self);
    var natts := t.natts % 0x800;
    var bits := if t.bitmap != [] then (natts + 7) / 8 else 0;
    RawFromFields(e, f, natts, bits);
    assert t.natts < 0x800 ==> natts == t.natts && bits == |t.bitmap|;
    assert t.natts >= 0x800 ==> natts != t.natts;
    if Hoff(t.bitmap) >= 256 && f.hoff <= |e| {
      assert |e[f.hoff..]| > |t.attrs|;
    }
  }

  // ---- What a raw tuple loses -----------------------------------------------------------

  lemma ReadFieldsFit(e: Bytes)
    requires |e| >= TUPLE_HEADER
    ensures var f := FieldsOf(e);
            && f.xmin < 0x1_0000_0000 && f.xmax < 0x1_0000_0000 && f.ctid.0 < 0x1_0000_0000 && f.ctid.1 < 0x1_0000
            && f.infomask2 < 0x1_0000 && f.infomask < 0x1_0000
  {
    hide Get;
    Widths();
  }

  lemma NoLockBits(xmin: nat, xmax: nat, hasNulls: bool, varwidth: bool)
    ensures !Slru.LockOnly(Infomask(xmin, xmax, hasNulls, varwidth)) && !Slru.IsMulti(Infomask(xmin, xmax, hasNulls, varwidth))
  {
  }

  /** A tuple read off a page can always be placed again, under the same xids. */
  lemma ReadIsEncodable(e: Bytes, self: (nat, nat))
    requires |e| >= TUPLE_HEADER && RawFrom(e).Some?
    ensures InRange(RawFrom(e).value, self) && EncodeRaw(RawFrom(e).value, self).Some?
    ensures RawFrom(e).value.xmin == FieldsOf(e).xmin && RawFrom(e).value.xmax == FieldsOf(e).xmax
  {
    hide FieldsOf, Assemble, RawHeader;
    ReadFieldsFit(e);
  }

  /**
   The header of a raw tuple is synthesized, without the bits that say its xmax only locked it or is a multixact. Read
   off a page and placed again, a tuple is as visible as before if and only if the answer did not need them: its
   inserter does not resolve as committed, it has no xmax, neither bit was set, its locker resolves as something other
   than committed, or it is an updated multixact whose number does not resolve as a transaction (an error either way).
   */
  lemma RawVisibility(e: Bytes, self: (nat, nat), clog: Slru.Pages)
    requires |e| >= TUPLE_HEADER && RawFrom(e).Some?
    ensures EncodeRaw(RawFrom(e).value, self).Some? && |EncodeRaw(RawFrom(e).value, self).value| >= TUPLE_HEADER
    ensures var f, g := FieldsOf(e), FieldsOf(EncodeRaw(RawFrom(e).value, self).value);
            && g.xmin == f.xmin && g.xmax == f.xmax
            && (Slru.TupleVisible(clog, g.xmin, g.xmax, g.infomask) == Slru.TupleVisible(clog, f.xmin, f.xmax, f.infomask)
                <==> Slru.NeedsNoBits(clog, f.xmin, f.xmax, f.infomask))
  {
    hide FieldsOf, RawFrom, EncodeRaw, Slru.TupleVisible, Slru.NeedsNoBits, Infomask, Slru.LockOnly, Slru.IsMulti;
    var t, f := RawFrom(e).value, FieldsOf(e);
    ReadIsEncodable(e, self);
    EncodedFields(t, self);
    NoLockBits(t.xmin, t.xmax, t.bitmap != [], t.varwidth);
    Slru.BitsLost(clog, f.xmin, f.xmax, f.infomask, Infomask(t.xmin, t.xmax, t.bitmap != [], t.varwidth));
  }

  lemma {:induction false} BitmapCovers(data: Bytes, off: nat, ps: seq<PhysCol>, i: nat, live: nat, h: Head, env: Env, prev: Option<Row>,
                                        j: nat)
    requires ColsOk(ps) && i <= j < h.natts <= |ps| && h.hasNulls && DecodeFrom(data, off, ps, i, live, h, env, prev).Row?
    ensures j / 8 < |h.bitmap|
    decreases |ps| - i
  {
    hide DecodeValue, DecodeVarlena, Present, AlignTo;
    if i < j {
      var live' := live + (if ps[i].Live? then 1 else 0);
      if !Present(h.bitmap, i) {
        BitmapCovers(data, off, ps, i + 1, live', h, env, prev, j);
      } else if ps[i].Dropped? && ps[i].kind.Fixed? {
        BitmapCovers(data, AlignTo(off, ps[i].kind.align) + ps[i].kind.size, ps, i + 1, live, h, env, prev, j);
      } else {
        var d := if ps[i].Dropped? then DecodeVarlena(data, off, env) else DecodeValue(data, off, ps[i].kind, env);
        BitmapCovers(data, d.next, ps, i + 1, live', h, env, prev, j);
      }
    }
  }

  /** A tuple whose row decodes can be taken off its page raw, so no page is read semantically and refused raw. */
  lemma DecodedComesRaw(page: Bytes, offnum: nat, ps: seq<PhysCol>, env: Env)
    requires ColsOk(ps) && DecodeFromPage(page, offnum, ps, env).Some?
    ensures RawFromPage(page, offnum).Some?
  {
    hide TupleAt, FieldsOf, DecodeFrom, Present;
    assert |TupleAt(page, offnum).value| >= TUPLE_HEADER by { TupleHasHeader(page, offnum); }
    var t := TupleAt(page, offnum).value;
    var f := FieldsOf(t);
    var natts, bits := f.infomask2 % 0x800, f.hoff - TUPLE_HEADER;
    var tuple := t[TUPLE_HEADER..];
    if f.infomask % 2 == 1 && natts > 0 {
      BitmapCovers(tuple[bits..], 0, ps, 0, 0, Head(natts, true, tuple[..bits]), env, None, natts - 1);
    }
  }

  lemma TupleHasHeader(page: Bytes, offnum: nat)
    requires TupleAt(page, offnum).Some?
    ensures |TupleAt(page, offnum).value| >= TUPLE_HEADER
  {
    hide PointerAt;
  }

  // ---- The page -------------------------------------------------------------------------

  /** A raw slot of a built page reads back the same tuple. */
  lemma RawSlotReadsBack(slots: seq<Slot>, ps: seq<PhysCol>, block: nat, lsn: nat, mix: Mix, k: nat)
    requires ColsOk(ps) && k < |slots| && BuildPage(slots, ps, block, lsn, mix).Some? && slots[k].Raw?
    requires InRange(slots[k].raw, (block, k + 1))
    ensures RawFromPage(BuildPage(slots, ps, block, lsn, mix).value, k + 1) == Some(Explicit(slots[k].raw, (block, k + 1)))
            <==> Hoff(slots[k].raw.bitmap) < 256 && slots[k].raw.natts < 0x800
  {
    hide BuildPage, TupleAt, RawFrom, PointerAt, Hoff, Placed, AlignTo;
    PointersReadBack(slots, ps, block, lsn, mix, k);
    RawRoundTrip(slots[k].raw, (block, k + 1));
  }

  lemma SlicePrefix(e: Bytes, lo: nat, hi: nat, n: nat)
    requires lo + n <= hi <= |e|
    ensures e[lo..hi][..n] == e[lo..lo + n]
  {
  }

  lemma ShortBitmap(s: TupleSpec, ps: seq<PhysCol>)
    requires ColsOk(ps) && AsRaw(s, ps).Some? && |ps| <= 1800
    ensures |AsRaw(s, ps).value.bitmap| <= 225 && Hoff(AsRaw(s, ps).value.bitmap) < 256
  {
    hide EncodeFrom, LiveKinds, PresentFlags, Bitmap;
  }

  /**
   A re-encoded slot of a built page decodes to its exact row, with its NULLs and dropped columns, when the table has at
   most 1800 columns.
   */
  lemma SemanticSlotDecodes(slots: seq<Slot>, ps: seq<PhysCol>, block: nat, lsn: nat, mix: Mix, k: nat, env: Env)
    requires ColsOk(ps) && k < |slots| && BuildPage(slots, ps, block, lsn, mix).Some? && slots[k].Semantic? && |ps| <= 1800
    requires var s := slots[k].spec;
             AsRaw(s, ps).Some? ==> InRange(AsRaw(s, ps).value, (block, k + 1))
    ensures AsRaw(slots[k].spec, ps).Some?
    ensures DecodeFromPage(BuildPage(slots, ps, block, lsn, mix).value, k + 1, ps, env)
         == Some((slots[k].spec.row, AsRaw(slots[k].spec, ps).value.attrs))
  {
    hide BuildPage, TupleAt, PointerAt, Placed, DecodePayload, FieldsOf, EncodeFrom, LiveKinds, PresentFlags, Bitmap, EncodeRaw;
    PointersReadBack(slots, ps, block, lsn, mix, k);
    var row, self := slots[k].spec.row, (block, k + 1);
    var t := AsRaw(slots[k].spec, ps).value;
    var e, flags := EncodeRaw(t, self).value, PresentFlags(ps, row);
    EncodedFields(t, self);
    EncodedParts(t, self);
    Infomask2Bits(t.natts, t.heapOnly, t.hotUpdated);
    InfomaskBits(t.xmin, t.xmax, t.bitmap != [], t.varwidth);
    ShortBitmap(slots[k].spec, ps);
    assert t.bitmap != [] <==> false in flags by { FlagsBitmap(ps, row); }
    var bits := e[TUPLE_HEADER..Hoff(t.bitmap)];
    SlicePrefix(e, TUPLE_HEADER, Hoff(t.bitmap), |t.bitmap|);
    assert t.bitmap <= bits;
    assert e[TUPLE_HEADER..] == bits + t.attrs;
    RowRoundTrip(ps, row, bits, false in flags, Hoff(t.bitmap), t.attrs, env, None);
  }

  lemma FlagsBitmap(ps: seq<PhysCol>, row: Row)
    ensures false in PresentFlags(ps, row) ==> Bitmap(PresentFlags(ps, row)) != []
  {
    var flags := PresentFlags(ps, row);
    if false in flags {
      var i :| 0 <= i < |flags| && flags[i] == false;
    }
  }

  /** The row a raw tuple's own bytes hold. */
  function RawRow(t: RawTuple, ps: seq<PhysCol>, env: Env): Option<(Row, Bytes)>
    requires ColsOk(ps)
  {
    DecodePayload(t.bitmap + Zeros(Hoff(t.bitmap) - TUPLE_HEADER - |t.bitmap|) + t.attrs, t.natts % 0x800, t.bitmap != [],
                  Hoff(t.bitmap) % 256, ps, env, None)
  }

  /** A raw slot of a built page decodes to the row its bytes hold, or is refused with them. */
  lemma RawSlotDecodes(slots: seq<Slot>, ps: seq<PhysCol>, block: nat, lsn: nat, mix: Mix, k: nat, env: Env)
    requires ColsOk(ps) && k < |slots| && BuildPage(slots, ps, block, lsn, mix).Some? && slots[k].Raw?
    requires InRange(slots[k].raw, (block, k + 1))
    ensures DecodeFromPage(BuildPage(slots, ps, block, lsn, mix).value, k + 1, ps, env) == RawRow(slots[k].raw, ps, env)
  {
    hide BuildPage, TupleAt, PointerAt, Placed, DecodePayload, FieldsOf, AlignTo, RawHeader, Infomask, Infomask2;
    PointersReadBack(slots, ps, block, lsn, mix, k);
    var t, self := slots[k].raw, (block, k + 1);
    EncodedFields(t, self);
    Infomask2Bits(t.natts, t.heapOnly, t.hotUpdated);
    InfomaskBits(t.xmin, t.xmax, t.bitmap != [], t.varwidth);
    var e := EncodeRaw(t, self).value;
    assert e[TUPLE_HEADER..] == t.bitmap + Zeros(Hoff(t.bitmap) - TUPLE_HEADER - |t.bitmap|) + t.attrs;
  }

  /** A slot that stores no tuple decodes to an error, as does any offnum past the slots. */
  lemma EmptySlotRefused(slots: seq<Slot>, ps: seq<PhysCol>, block: nat, lsn: nat, mix: Mix, k: nat, env: Env)
    requires ColsOk(ps) && k < |slots| && BuildPage(slots, ps, block, lsn, mix).Some?
    requires slots[k].Unused? || slots[k].Dead? || (slots[k].Redirect? && slots[k].target < 0x1_0000)
    ensures DecodeFromPage(BuildPage(slots, ps, block, lsn, mix).value, k + 1, ps, env) == None
    ensures RawFromPage(BuildPage(slots, ps, block, lsn, mix).value, k + 1) == None
  {
    hide BuildPage, PointerAt, Placed, StoredBy;
    PointersReadBack(slots, ps, block, lsn, mix, k);
  }

  /** The stamped checksum is what verifying the page computes, and is never zero. */
  lemma ChecksumVerifies(slots: seq<Slot>, ps: seq<PhysCol>, block: nat, lsn: nat, mix: Mix)
    requires ColsOk(ps) && BuildPage(slots, ps, block, lsn, mix).Some?
    ensures var page := BuildPage(slots, ps, block, lsn, mix).value;
            |page| == PAGE_SIZE && Get(page[8..10]) == Checksum(page, block, mix) > 0
  {
    hide Placed, Get, Put, HeaderBytes;
    var b := Placed(slots, ps, block, |slots|).value;
    var page := Write(b.page, 0, HeaderBytes(lsn, LowerEnd(|slots|), b.upper));
    var c := Checksum(page, block, mix);
    var fin := Write(page, 8, Put(c, 2));
    Widths();
    GetPut(c, 2);
    WriteFacts(page, 8, Put(c, 2), 0, 0);
    assert Write(fin, 8, [0, 0]) == Write(page, 8, [0, 0]);
  }
}
