/**
 Heap tuples (src/wal/heap.rs): attribute encoding, decoding against a physical column list with NULLs, dropped columns
 and alignment, and rebuilding an updated tuple from the bytes it shares with the old one. A value is its byte string;
 TOAST resolution and lz4 are parameters.
 */
module Tuple {
  import opened Base
  import opened LittleEndian
  import Pglz

  const TUPLE_HEADER: nat := 23

  datatype Kind = Fixed(size: nat, align: nat) | Varlena

  datatype PhysCol = Live(kind: Kind) | Dropped(kind: Kind)

  predicate KindOk(k: Kind) {
    k.Fixed? ==> k.size > 0 && AlignOk(k.align)
  }

  predicate AlignOk(a: nat) {
    a == 1 || a == 2 || a == 4 || a == 8
  }

  /** The next multiple of `align`. */
  function AlignTo(off: nat, align: nat): (r: nat)
    requires AlignOk(align)
    ensures off <= r < off + align
  {
    if align == 1 then off
    else if align == 2 then (off + 1) / 2 * 2
    else if align == 4 then (off + 3) / 4 * 4
    else (off + 7) / 8 * 8
  }

  // ---- Encoding -------------------------------------------------------------------------

  function Put1(buf: Bytes, k: Kind, v: Bytes): Option<Bytes>
    requires KindOk(k)
  {
    match k
    case Fixed(size, align) => if |v| == size then Some(buf + Zeros(AlignTo(|buf|, align) - |buf|) + v) else None
    case Varlena => if |v| > 126 then None else Some(buf + [((|v| + 1) * 2 + 1) as byte] + v)
  }

  predicate KindsOk(ks: seq<Kind>) {
    forall i :: 0 <= i < |ks| ==> KindOk(ks[i])
  }

  /** `encode_attrs` from column `i` on, with `buf` already written. */
  function EncodeFrom(buf: Bytes, ks: seq<Kind>, row: Row, i: nat): Option<Bytes>
    requires KindsOk(ks) && i <= |ks|
    decreases |ks| - i
  {
    if i == |ks| then Some(buf)
    else if i >= |row| then None
    else if row[i].None? then EncodeFrom(buf, ks, row, i + 1)
    else
      var next := Put1(buf, ks[i], row[i].value);
      if next.None? then None else EncodeFrom(next.value, ks, row, i + 1)
  }

  method EncodeAttrs(row: Row, ks: seq<Kind>) returns (r: Option<Bytes>)
    requires KindsOk(ks)
    ensures r == EncodeFrom([], ks, row, 0)
  {
    var buf: Bytes := [];
    for i := 0 to |ks|
      invariant EncodeFrom(buf, ks, row, i) == EncodeFrom([], ks, row, 0)
    {
      if i >= |row| {
        return None;
      }
      if row[i].None? {
        continue;
      }
      var next := Put1(buf, ks[i], row[i].value);
      if next.None? {
        return None;
      }
      buf := next.value;
    }
    r := Some(buf);
  }

  // ---- Decoding -------------------------------------------------------------------------

  datatype External = Missing | Broken | Found(bytes: Bytes)

  datatype Env = Env(toast: Bytes -> External, lz4: (Bytes, nat) -> Option<Bytes>)

  /** `value` is `None` for a toast pointer whose chunks are not at hand. */
  datatype Datum = Bad | Datum(value: Option<Bytes>, next: nat)

  function Inflate(env: Env, method': nat, payload: Bytes, rawsize: nat): Option<Bytes> {
    if method' == 0 then Pglz.Decompressed(payload, rawsize) else if method' == 1 then env.lz4(payload, rawsize) else None
  }

  function DecodeVarlena(data: Bytes, off: nat, env: Env): Datum {
    if off >= |data| then Bad
    else
      var first := data[off] as nat;
      if first == 1 then
        if off + 18 > |data| || data[off + 1] != 18 then Bad
        else
          match env.toast(data[off + 2..off + 18])
          case Missing => Datum(None, off + 18)
          case Broken => Bad
          case Found(b) => Datum(Some(b), off + 18)
      else if first % 2 == 1 then
        var total := first / 2;
        if off + total > |data| then Bad else Datum(Some(data[off + 1..off + total]), off + total)
      else
        var at := AlignTo(off, 4);
        if at + 4 > |data| then Bad
        else
          var hdr := Get(data[at..at + 4]);
          var total := hdr / 4;
          if total < 4 then Bad
          else if hdr % 4 == 2 then
            if at + 8 > |data| || total < 8 || at + total > |data| then Bad
            else
              var tc := Get(data[at + 4..at + 8]);
              var out := Inflate(env, tc / 0x4000_0000, data[at + 8..at + total], tc % 0x4000_0000);
              if out.None? then Bad else Datum(out, at + total)
          else if at + total > |data| then Bad
          else Datum(Some(data[at + 4..at + total]), at + total)
  }

  function DecodeValue(data: Bytes, off: nat, k: Kind, env: Env): Datum
    requires KindOk(k)
  {
    match k
    case Fixed(size, align) =>
      var at := AlignTo(off, align);
      if at + size > |data| then Bad else Datum(Some(data[at..at + size]), at + size)
    case Varlena => DecodeVarlena(data, off, env)
  }

  predicate ColsOk(ps: seq<PhysCol>) {
    forall i :: 0 <= i < |ps| ==> KindOk(ps[i].kind)
  }

  /** Bit `i` of the null bitmap: set when the attribute is present. */
  predicate Present(bitmap: Bytes, i: nat)
    requires i / 8 < |bitmap|
  {
    Pglz.Bit(bitmap[i / 8] as nat, i % 8)
  }

  datatype Head = Head(natts: nat, hasNulls: bool, bitmap: Bytes)

  /** The bitmap is read past its end: the decoder panics, which stops the process. */
  datatype Decoded = Fails | Row(row: Row)

  function Cons(v: Option<Bytes>, d: Decoded): Decoded {
    if d.Fails? then Fails else Row([v] + d.row)
  }

  /** Columns from `i` on; `live` counts the live ones before. */
  function DecodeFrom(data: Bytes, off: nat, ps: seq<PhysCol>, i: nat, live: nat, h: Head, env: Env, oldRow: Option<Row>): Decoded
    requires ColsOk(ps) && i <= |ps|
    decreases |ps| - i
  {
    if i == |ps| then Row([])
    else if i >= h.natts then
      var rest := DecodeFrom(data, off, ps, i + 1, live + (if ps[i].Live? then 1 else 0), h, env, oldRow);
      if ps[i].Live? then Cons(None, rest) else rest
    else if h.hasNulls && i / 8 >= |h.bitmap| then Fails
    else if h.hasNulls && !Present(h.bitmap, i) then
      var rest := DecodeFrom(data, off, ps, i + 1, live + (if ps[i].Live? then 1 else 0), h, env, oldRow);
      if ps[i].Live? then Cons(None, rest) else rest
    else if ps[i].Dropped? then
      match ps[i].kind
      case Fixed(size, align) => DecodeFrom(data, AlignTo(off, align) + size, ps, i + 1, live, h, env, oldRow)
      case Varlena =>
        var d := DecodeVarlena(data, off, env);
        if d.Bad? then Fails else DecodeFrom(data, d.next, ps, i + 1, live, h, env, oldRow)
    else
      var d := DecodeValue(data, off, ps[i].kind, env);
      if d.Bad? then Fails
      else
        var v := if d.value.Some? then d.value
                 else if oldRow.Some? && live < |oldRow.value| then oldRow.value[live] else None;
        if v.None? then Fails else Cons(v, DecodeFrom(data, d.next, ps, i + 1, live + 1, h, env, oldRow))
  }

  /** A tuple minus its fixed header: bitmap and padding up to `hoff`, then the attributes. */
  function DecodePayload(tuple: Bytes, natts: nat, hasNulls: bool, hoff: nat, ps: seq<PhysCol>, env: Env, oldRow: Option<Row>):
      Option<(Row, Bytes)>
    requires ColsOk(ps)
  {
    if natts > |ps| || hoff < TUPLE_HEADER || |tuple| < hoff - TUPLE_HEADER then None
    else
      var bits := hoff - TUPLE_HEADER;
      var d := DecodeFrom(tuple[bits..], 0, ps, 0, 0, Head(natts, hasNulls, tuple[..bits]), env, oldRow);
      if d.Fails? then None else Some((d.row, tuple[bits..]))
  }

  function After(row: Row, d: Decoded): Decoded {
    if d.Fails? then Fails else Decoded.Row(row + d.row)
  }

  lemma AfterCons(row: Row, v: Option<Bytes>, d: Decoded)
    ensures After(row, Cons(v, d)) == After(row + [v], d)
  {
    if d.Row? {
      assert row + ([v] + d.row) == row + [v] + d.row;
    }
  }

  /** `decode_tuple_payload`: one pass over the physical columns, moving the offset and growing the row. */
  method DecodeTuple(tuple: Bytes, natts: nat, hasNulls: bool, hoff: nat, ps: seq<PhysCol>, env: Env, oldRow: Option<Row>)
      returns (r: Option<(Row, Bytes)>)
    requires ColsOk(ps)
    ensures r == DecodePayload(tuple, natts, hasNulls, hoff, ps, env, oldRow)
  {
    hide DecodeValue, DecodeVarlena, Present, AlignTo;
    if natts > |ps| || hoff < TUPLE_HEADER || |tuple| < hoff - TUPLE_HEADER {
      return None;
    }
    var bits := hoff - TUPLE_HEADER;
    var data, h := tuple[bits..], Head(natts, hasNulls, tuple[..bits]);
    var row: Row := [];
    var off: nat, live: nat := 0, 0;
    for i := 0 to |ps|
      invariant DecodeFrom(data, 0, ps, 0, 0, h, env, oldRow) == After(row, DecodeFrom(data, off, ps, i, live, h, env, oldRow))
    {
      ghost var rest := (o: nat, l: nat) => DecodeFrom(data, o, ps, i + 1, l, h, env, oldRow);
      if i < natts && hasNulls && i / 8 >= |h.bitmap| {
        return None;
      }
      if i >= natts || (hasNulls && !Present(h.bitmap, i)) {
        if ps[i].Live? {
          AfterCons(row, None, rest(off, live + 1));
          row, live := row + [None], live + 1;
        }
      } else if ps[i].Dropped? {
        match ps[i].kind {
          case Fixed(size, align) => off := AlignTo(off, align) + size;
          case Varlena =>
            var d := DecodeVarlena(data, off, env);
            if d.Bad? {
              return None;
            }
            off := d.next;
        }
      } else {
        var d := DecodeValue(data, off, ps[i].kind, env);
        if d.Bad? {
          return None;
        }
        var v := if d.value.Some? then d.value
                 else if oldRow.Some? && live < |oldRow.value| then oldRow.value[live] else None;
        if v.None? {
          return None;
        }
        AfterCons(row, v, rest(d.next, live + 1));
        row, off, live := row + [v], d.next, live + 1;
      }
    }
    assert row + [] == row;
    r := Some((row, data));
  }

  // ---- Round trip -----------------------------------------------------------------------

  function LiveKinds(ps: seq<PhysCol>): (ks: seq<Kind>)
    ensures ColsOk(ps) ==> KindsOk(ks)
    decreases |ps|
  {
    if ps == [] then []
    else LiveKinds(ps[..|ps| - 1]) + if ps[|ps| - 1].Live? then [ps[|ps| - 1].kind] else []
  }

  /** The bitmap tells exactly the row's NULLs, and that every dropped column is NULL. */
  ghost predicate BitmapTells(h: Head, ps: seq<PhysCol>, row: Row) {
    && h.natts == |ps| && |row| == |LiveKinds(ps)|
    && (h.hasNulls ==> |ps| <= 8 * |h.bitmap|)
    && forall i :: 0 <= i < |ps| ==> (IsPresent(h, i) <==> ps[i].Live? && PresentAt(row, |LiveKinds(ps[..i])|))
  }

  ghost predicate PresentAt(row: Row, j: nat) {
    j < |row| && row[j].Some?
  }

  predicate IsPresent(h: Head, i: nat) {
    !h.hasNulls || (i / 8 < |h.bitmap| && Present(h.bitmap, i))
  }

  lemma {:induction false} EncodeExtends(buf: Bytes, ks: seq<Kind>, row: Row, i: nat)
    requires KindsOk(ks) && i <= |ks| && EncodeFrom(buf, ks, row, i).Some?
    ensures buf <= EncodeFrom(buf, ks, row, i).value
    decreases |ks| - i
  {
    if i < |ks| {
      if row[i].None? {
        EncodeExtends(buf, ks, row, i + 1);
      } else {
        var next := Put1(buf, ks[i], row[i].value).value;
        assert buf <= next;
        EncodeExtends(next, ks, row, i + 1);
      }
    }
  }

  lemma FixedRoundTrip(buf: Bytes, k: Kind, v: Bytes, data: Bytes, env: Env)
    requires KindOk(k) && k.Fixed? && Put1(buf, k, v).Some? && Put1(buf, k, v).value <= data
    ensures DecodeValue(data, |buf|, k, env) == Datum(Some(v), |Put1(buf, k, v).value|)
  {
    hide AlignTo, DecodeVarlena;
    var next, at := Put1(buf, k, v).value, AlignTo(|buf|, k.align);
    assert next[at..at + k.size] == v;
    assert data[at..at + k.size] == next[at..at + k.size];
  }

  lemma VarlenaRoundTrip(buf: Bytes, v: Bytes, data: Bytes, env: Env)
    requires |v| <= 126 && buf + [((|v| + 1) * 2 + 1) as byte] + v <= data
    ensures DecodeVarlena(data, |buf|, env) == Datum(Some(v), |buf| + 1 + |v|)
  {
    hide AlignTo, Get, Inflate;
    var off, n := |buf|, |v|;
    var next := buf + [((n + 1) * 2 + 1) as byte] + v;
    assert data[off] == next[off];
    assert data[off + 1..off + n + 1] == next[off + 1..off + n + 1] == v;
  }

  /** Reading a value where it was written gives it back, and ends where writing ended. */
  lemma ValueRoundTrip(buf: Bytes, k: Kind, v: Bytes, data: Bytes, env: Env)
    requires KindOk(k) && Put1(buf, k, v).Some? && Put1(buf, k, v).value <= data
    ensures DecodeValue(data, |buf|, k, env) == Datum(Some(v), |Put1(buf, k, v).value|)
  {
    hide AlignTo, DecodeVarlena;
    if k.Fixed? {
      FixedRoundTrip(buf, k, v, data, env);
    } else {
      VarlenaRoundTrip(buf, v, data, env);
    }
  }

  lemma LiveKindsStep(ps: seq<PhysCol>, i: nat)
    requires i < |ps|
    ensures LiveKinds(ps[..i + 1]) == LiveKinds(ps[..i]) + if ps[i].Live? then [ps[i].kind] else []
  {
    assert ps[..i + 1][..i] == ps[..i];
  }

  lemma {:induction false} LiveKindsPrefix(ps: seq<PhysCol>, i: nat)
    requires i <= |ps|
    ensures LiveKinds(ps[..i]) <= LiveKinds(ps)
    decreases |ps| - i
  {
    if i == |ps| {
      assert ps[..i] == ps;
    } else {
      LiveKindsStep(ps, i);
      LiveKindsPrefix(ps, i + 1);
    }
  }

  /** Where decoding stands before physical column `i`: `live` live columns done, the buffer written up to here. */
  ghost predicate Standing(buf: Bytes, ps: seq<PhysCol>, row: Row, i: nat, live: nat, h: Head)
    requires ColsOk(ps)
  {
    i <= |ps| && live == |LiveKinds(ps[..i])| <= |LiveKinds(ps)| && BitmapTells(h, ps, row)
    && EncodeFrom(buf, LiveKinds(ps), row, live).Some?
  }

  lemma NextColumn(ps: seq<PhysCol>, row: Row, i: nat, live: nat, h: Head)
    requires ColsOk(ps) && i < |ps| && live == |LiveKinds(ps[..i])| && BitmapTells(h, ps, row)
    ensures |LiveKinds(ps[..i + 1])| == live + (if ps[i].Live? then 1 else 0) <= |LiveKinds(ps)| == |row|
    ensures ps[i].Live? ==> LiveKinds(ps)[live] == ps[i].kind
    ensures IsPresent(h, i) <==> ps[i].Live? && PresentAt(row, live)
    ensures i < h.natts && (h.hasNulls ==> i / 8 < |h.bitmap|)
  {
    LiveKindsStep(ps, i);
    LiveKindsPrefix(ps, i + 1);
  }

  lemma EncodeUnfolds(buf: Bytes, ks: seq<Kind>, row: Row, j: nat)
    requires KindsOk(ks) && j < |ks| && EncodeFrom(buf, ks, row, j).Some?
    ensures j < |row|
    ensures row[j].None? ==> EncodeFrom(buf, ks, row, j) == EncodeFrom(buf, ks, row, j + 1)
    ensures row[j].Some? ==>
              var next := Put1(buf, ks[j], row[j].value);
              next.Some? && EncodeFrom(buf, ks, row, j) == EncodeFrom(next.value, ks, row, j + 1)
  {
    hide Put1;
  }

  /** One physical column as the decoder takes it, when the bitmap covers it. */
  lemma DecodeUnfolds(data: Bytes, off: nat, ps: seq<PhysCol>, i: nat, live: nat, h: Head, env: Env, oldRow: Option<Row>)
    requires ColsOk(ps) && i < |ps| && i < h.natts && (h.hasNulls ==> i / 8 < |h.bitmap|)
    ensures !IsPresent(h, i) ==>
              var rest := DecodeFrom(data, off, ps, i + 1, live + (if ps[i].Live? then 1 else 0), h, env, oldRow);
              DecodeFrom(data, off, ps, i, live, h, env, oldRow) == if ps[i].Live? then Cons(None, rest) else rest
    ensures IsPresent(h, i) && ps[i].Live? ==>
              var d := DecodeValue(data, off, ps[i].kind, env);
              d.Datum? && d.value.Some? ==>
                DecodeFrom(data, off, ps, i, live, h, env, oldRow)
                == Cons(d.value, DecodeFrom(data, d.next, ps, i + 1, live + 1, h, env, oldRow))
  {
    hide Present, DecodeValue, DecodeVarlena, AlignTo;
  }

  lemma {:induction false} DecodeInvertsEncode(buf: Bytes, ps: seq<PhysCol>, row: Row, i: nat, live: nat, h: Head, env: Env,
                                               oldRow: Option<Row>)
    requires ColsOk(ps) && Standing(buf, ps, row, i, live, h)
    ensures DecodeFrom(EncodeFrom(buf, LiveKinds(ps), row, live).value, |buf|, ps, i, live, h, env, oldRow) == Row(row[live..])
    decreases |ps| - i
  {
    if i == |ps| {
      assert ps[..i] == ps;
    } else {
      NextColumn(ps, row, i, live, h);
      DecodeColumn(buf, ps, row, i, live, h, env, oldRow);
    }
  }

  lemma {:induction false} DecodeColumn(buf: Bytes, ps: seq<PhysCol>, row: Row, i: nat, live: nat, h: Head, env: Env, oldRow: Option<Row>)
    requires ColsOk(ps) && Standing(buf, ps, row, i, live, h) && i < |ps|
    ensures DecodeFrom(EncodeFrom(buf, LiveKinds(ps), row, live).value, |buf|, ps, i, live, h, env, oldRow) == Row(row[live..])
    decreases |ps| - i, 0
  {
    hide LiveKinds, Present, DecodeFrom, EncodeFrom, DecodeValue, Put1, BitmapTells, IsPresent;
    NextColumn(ps, row, i, live, h);
    var ks := LiveKinds(ps);
    var e := EncodeFrom(buf, ks, row, live).value;
    DecodeUnfolds(e, |buf|, ps, i, live, h, env, oldRow);
    if ps[i].Dropped? {
      DecodeInvertsEncode(buf, ps, row, i + 1, live, h, env, oldRow);
    } else {
      EncodeUnfolds(buf, ks, row, live);
      assert row[live..] == [row[live]] + row[live + 1..];
      if row[live].None? {
        DecodeInvertsEncode(buf, ps, row, i + 1, live + 1, h, env, oldRow);
      } else {
        var next := Put1(buf, ks[live], row[live].value).value;
        EncodeExtends(next, ks, row, live + 1);
        ValueRoundTrip(buf, ks[live], row[live].value, e, env);
        DecodeInvertsEncode(next, ps, row, i + 1, live + 1, h, env, oldRow);
      }
    }
  }

  // ---- The null bitmap ------------------------------------------------------------------

  function PackBits(bs: seq<bool>): (v: nat)
    ensures v < Pglz.Pow2(|bs|)
    decreases |bs|
  {
    if bs == [] then 0 else (if bs[0] then 1 else 0) + 2 * PackBits(bs[1..])
  }

  lemma {:induction false} PackedBit(bs: seq<bool>, i: nat)
    requires i < |bs|
    ensures Pglz.Bit(PackBits(bs), i) <==> bs[i]
    decreases |bs|
  {
    assert PackBits(bs) / 2 == PackBits(bs[1..]);
    if i > 0 {
      PackedBit(bs[1..], i - 1);
    }
  }

  lemma PackedByte(bs: seq<bool>)
    requires |bs| <= 8
    ensures PackBits(bs) < 256
  {
    Pglz.Pow2Mono(|bs|, 8);
    assert Pglz.Pow2(8) == 256 by { assert Pglz.Pow2(4) == 16; }
  }

  /** One bit per flag, eight to a byte, low bit first. */
  function Bitmap(bs: seq<bool>): (b: Bytes)
    ensures |b| == (|bs| + 7) / 8
    decreases |bs|
  {
    if bs == [] then []
    else
      var n := Min(8, |bs|);
      PackedByte(bs[..n]);
      [PackBits(bs[..n]) as byte] + Bitmap(bs[n..])
  }

  lemma {:induction false} BitmapBit(bs: seq<bool>, i: nat)
    requires i < |bs|
    ensures i / 8 < |Bitmap(bs)| && (Present(Bitmap(bs), i) <==> bs[i])
    decreases |bs|
  {
    hide PackBits, Pglz.Bit;
    var n := Min(8, |bs|);
    if i < 8 {
      PackedBit(bs[..n], i);
    } else {
      BitmapBit(bs[8..], i - 8);
      assert i / 8 == (i - 8) / 8 + 1 && i % 8 == (i - 8) % 8;
      assert Bitmap(bs)[i / 8] == Bitmap(bs[8..])[(i - 8) / 8];
    }
  }

  /** Which physical columns of a row are present: a live one with a value. */
  function PresentFlags(ps: seq<PhysCol>, row: Row): (bs: seq<bool>)
    ensures |bs| == |ps|
  {
    seq(|ps|, i requires 0 <= i < |ps| => ps[i].Live? && var j := |LiveKinds(ps[..i])|; j < |row| && row[j].Some?)
  }

  /**
   The whole row codec: a row encoded with the bitmap and header `encode_tuple` writes decodes to that row and to those
   attribute bytes, whatever its NULLs, dropped columns and alignments.
   */
  lemma RowRoundTrip(ps: seq<PhysCol>, row: Row, bitmap: Bytes, hasNulls: bool, hoff: nat, attrs: Bytes, env: Env, oldRow: Option<Row>)
    requires ColsOk(ps) && |row| == |LiveKinds(ps)| && EncodeFrom([], LiveKinds(ps), row, 0) == Some(attrs)
    requires hasNulls <==> false in PresentFlags(ps, row)
    requires hoff >= TUPLE_HEADER && |bitmap| == hoff - TUPLE_HEADER
    requires hasNulls ==> Bitmap(PresentFlags(ps, row)) <= bitmap
    ensures DecodePayload(bitmap + attrs, |ps|, hasNulls, hoff, ps, env, oldRow) == Some((row, attrs))
  {
    var h := Head(|ps|, hasNulls, bitmap);
    var flags := PresentFlags(ps, row);
    forall i | 0 <= i < |ps| ensures IsPresent(h, i) <==> ps[i].Live? && PresentAt(row, |LiveKinds(ps[..i])|) {
      if hasNulls {
        BitmapBit(flags, i);
        assert bitmap[i / 8] == Bitmap(flags)[i / 8];
      } else {
        assert flags[i] != false;
      }
    }
    assert BitmapTells(h, ps, row);
    assert ps[..0] == [];
    assert Standing([], ps, row, 0, 0, h);
    DecodeInvertsEncode([], ps, row, 0, 0, h, env, oldRow);
    assert row[0..] == row;
    assert (bitmap + attrs)[..|bitmap|] == bitmap && (bitmap + attrs)[|bitmap|..] == attrs;
  }

  // ---- Updates --------------------------------------------------------------------------

  /** The two dialects: Neon's heap header carries a command id before the header length. */
  datatype Dialect = Vanilla | Neon

  datatype HeapHeader = HeapHeader(infomask2: nat, infomask: nat, hoff: nat)

  function HeapHeaderLen(d: Dialect): nat { if d.Vanilla? then 5 else 9 }

  function TakeHeapHeader(b: Bytes, d: Dialect): Option<HeapHeader> {
    var n := HeapHeaderLen(d);
    if |b| < n then None else Some(HeapHeader(Get(b[0..2]), Get(b[2..4]), b[n - 1] as nat))
  }

  datatype NewTuple = NewTuple(header: HeapHeader, payload: Bytes)

  function Len16(b: Bytes, flagged: bool): Option<nat> {
    if !flagged then Some(0) else if |b| < 2 then None else Some(Get(b[0..2]))
  }

  function Skip(flagged: bool): nat { if flagged then 2 else 0 }

  /** The rest of an update record after its prefix and suffix lengths. */
  function Rejoin(b: Bytes, prefix: nat, suffix: nat, oldAttrs: Option<Bytes>, d: Dialect): Option<NewTuple> {
    var h := TakeHeapHeader(b, d);
    if h.None? || h.value.hoff < TUPLE_HEADER then None
    else
      var rest, bits := b[HeapHeaderLen(d)..], h.value.hoff - TUPLE_HEADER;
      if |rest| < bits then None
      else if prefix == 0 && suffix == 0 then Some(NewTuple(h.value, rest))
      else if oldAttrs.None? || prefix + suffix > |oldAttrs.value| then None
      else
        var o := oldAttrs.value;
        Some(NewTuple(h.value, rest[..bits] + o[..prefix] + rest[bits..] + o[|o| - suffix..]))
  }

  /** `decode_update_new_tuple` up to the payload it hands to the row decoder. */
  function UpdatePayload(b: Bytes, hasPrefix: bool, hasSuffix: bool, oldAttrs: Option<Bytes>, d: Dialect): Option<NewTuple> {
    var prefix := Len16(b, hasPrefix);
    if prefix.None? then None
    else
      var b1 := b[Skip(hasPrefix)..];
      var suffix := Len16(b1, hasSuffix);
      if suffix.None? then None else Rejoin(b1[Skip(hasSuffix)..], prefix.value, suffix.value, oldAttrs, d)
  }

  /** What the server logs: lengths where flagged, the heap header, the bitmap and the bytes not shared. */
  function LogUpdate(h: HeapHeader, cid: Bytes, bitmap: Bytes, prefix: nat, suffix: nat, newAttrs: Bytes, d: Dialect): Bytes
    requires h.hoff < 256 && prefix + suffix <= |newAttrs|
  {
    (if prefix > 0 then Put(prefix, 2) else [])
    + ((if suffix > 0 then Put(suffix, 2) else [])
       + (HeapHeaderBytes(h, cid, d) + (bitmap + newAttrs[prefix..|newAttrs| - suffix])))
  }

  function HeapHeaderBytes(h: HeapHeader, cid: Bytes, d: Dialect): Bytes
    requires h.hoff < 256
  {
    Put(h.infomask2, 2) + Put(h.infomask, 2) + (if d.Neon? then cid else []) + [h.hoff as byte]
  }

  lemma HeapHeaderTaken(h: HeapHeader, cid: Bytes, d: Dialect, more: Bytes)
    requires h.infomask2 < 0x1_0000 && h.infomask < 0x1_0000 && h.hoff < 256 && |cid| == 4
    ensures |HeapHeaderBytes(h, cid, d)| == HeapHeaderLen(d) && TakeHeapHeader(HeapHeaderBytes(h, cid, d) + more, d) == Some(h)
  {
    hide Get, Put;
    Widths();
    GetPut(h.infomask2, 2);
    GetPut(h.infomask, 2);
    var b := HeapHeaderBytes(h, cid, d) + more;
    assert b[0..2] == Put(h.infomask2, 2) && b[2..4] == Put(h.infomask, 2);
  }

  lemma LengthTaken(n: nat, more: Bytes)
    requires n < 0x1_0000
    ensures var b := (if n > 0 then Put(n, 2) else []) + more; Len16(b, n > 0) == Some(n) && b[Skip(n > 0)..] == more
  {
    hide Get, Put;
    Widths();
    GetPut(n, 2);
    if n > 0 {
      assert (Put(n, 2) + more)[0..2] == Put(n, 2);
    }
  }

  ghost predicate Shares(oldAttrs: Bytes, newAttrs: Bytes, prefix: nat, suffix: nat) {
    && prefix < 0x1_0000 && suffix < 0x1_0000 && prefix + suffix <= |oldAttrs| && prefix + suffix <= |newAttrs|
    && oldAttrs[..prefix] == newAttrs[..prefix] && oldAttrs[|oldAttrs| - suffix..] == newAttrs[|newAttrs| - suffix..]
  }

  ghost predicate HeaderFits(h: HeapHeader, cid: Bytes, bitmap: Bytes) {
    && h.infomask2 < 0x1_0000 && h.infomask < 0x1_0000 && TUPLE_HEADER <= h.hoff < 256 && |cid| == 4
    && |bitmap| == h.hoff - TUPLE_HEADER
  }

  lemma RejoinGivesNew(h: HeapHeader, cid: Bytes, bitmap: Bytes, prefix: nat, suffix: nat, oldAttrs: Bytes, newAttrs: Bytes, d: Dialect)
    requires HeaderFits(h, cid, bitmap) && Shares(oldAttrs, newAttrs, prefix, suffix)
    ensures Rejoin(HeapHeaderBytes(h, cid, d) + (bitmap + newAttrs[prefix..|newAttrs| - suffix]), prefix, suffix, Some(oldAttrs), d)
         == Some(NewTuple(h, bitmap + newAttrs))
  {
    hide Get, Put, HeapHeaderBytes, TakeHeapHeader;
    var mid := newAttrs[prefix..|newAttrs| - suffix];
    HeapHeaderTaken(h, cid, d, bitmap + mid);
    var rest := (HeapHeaderBytes(h, cid, d) + (bitmap + mid))[HeapHeaderLen(d)..];
    assert rest == bitmap + mid;
    assert rest[..|bitmap|] == bitmap && rest[|bitmap|..] == mid;
    if prefix == 0 && suffix == 0 {
      assert mid == newAttrs;
    } else {
      assert bitmap + newAttrs[..prefix] + mid + newAttrs[|newAttrs| - suffix..] == bitmap + newAttrs;
    }
  }

  /**
   Rebuilding an update: for every old and new tuple sharing the logged prefix and suffix, in either dialect, the
   payload handed to the row decoder is the whole new tuple.
   */
  lemma UpdateRebuildsNewTuple(h: HeapHeader, cid: Bytes, bitmap: Bytes, prefix: nat, suffix: nat, oldAttrs: Bytes, newAttrs: Bytes,
                               d: Dialect)
    requires HeaderFits(h, cid, bitmap) && Shares(oldAttrs, newAttrs, prefix, suffix)
    ensures UpdatePayload(LogUpdate(h, cid, bitmap, prefix, suffix, newAttrs, d), prefix > 0, suffix > 0, Some(oldAttrs), d)
         == Some(NewTuple(h, bitmap + newAttrs))
  {
    hide Get, Put, HeapHeaderBytes, Rejoin, Len16;
    var tail := HeapHeaderBytes(h, cid, d) + (bitmap + newAttrs[prefix..|newAttrs| - suffix]);
    RejoinGivesNew(h, cid, bitmap, prefix, suffix, oldAttrs, newAttrs, d);
    LengthTaken(suffix, tail);
    LengthTaken(prefix, (if suffix > 0 then Put(suffix, 2) else []) + tail);
  }

  /** The row decoder on a rebuilt tuple: attribute count and NULLs are read off its own header. */
  function DecodeNew(u: Option<NewTuple>, ps: seq<PhysCol>, env: Env, oldRow: Option<Row>): Option<(Row, Bytes)>
    requires ColsOk(ps)
  {
    if u.None? then None
    else
      var h := u.value.header;
      DecodePayload(u.value.payload, h.infomask2 % 0x800, h.infomask % 2 == 1, h.hoff, ps, env, oldRow)
  }

  /**
   Hence, whatever the attribute bytes, an update decodes to what the same tuple logged whole decodes to, and to what
   its bitmap and bytes themselves do.
   */
  lemma UpdateDecodesLikeInsert(h: HeapHeader, cid: Bytes, bitmap: Bytes, prefix: nat, suffix: nat, oldAttrs: Bytes, newAttrs: Bytes,
                                d: Dialect, ps: seq<PhysCol>, env: Env, oldRow: Option<Row>)
    requires HeaderFits(h, cid, bitmap) && Shares(oldAttrs, newAttrs, prefix, suffix) && ColsOk(ps)
    ensures var logged := LogUpdate(h, cid, bitmap, prefix, suffix, newAttrs, d);
            var whole := LogUpdate(h, cid, bitmap, 0, 0, newAttrs, d);
            var shared := DecodeNew(UpdatePayload(logged, prefix > 0, suffix > 0, Some(oldAttrs), d), ps, env, oldRow);
            && shared == DecodeNew(UpdatePayload(whole, false, false, Some(newAttrs), d), ps, env, oldRow)
            && shared == DecodePayload(bitmap + newAttrs, h.infomask2 % 0x800, h.infomask % 2 == 1, h.hoff, ps, env, oldRow)
  {
    hide Get, Put, LogUpdate, UpdatePayload, DecodePayload;
    UpdateRebuildsNewTuple(h, cid, bitmap, prefix, suffix, oldAttrs, newAttrs, d);
    UpdateRebuildsNewTuple(h, cid, bitmap, 0, 0, newAttrs, newAttrs, d);
  }
}
