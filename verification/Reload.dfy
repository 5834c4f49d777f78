/**
 The attribute bytes a restart gives a loaded row (src/sink.rs `load_mirror`, src/wal/heap.rs `encode_attrs`,
 src/engine.rs `resume_tables`): the log holds the decoded row, so they are encoded again, and only where that refuses
 are they read from the page. Updates are rebuilt from these bytes.
 */
module Reload {
  import opened Base
  import opened TxBuf
  import opened Engine
  import opened ChangeLog
  import opened Stream
  import opened Heap
  import opened MirrorProof
  import opened LogMirror
  import opened Tuple
  import ColumnTypes
  import LittleEndian
  import Numeric
  import NumericNormal

  /** What decoding a column's value and encoding it again makes of its bytes (`ColumnTypes.Recode`, for a typed column). */
  type Recoder = ColumnTypes.Recoder

  // ---- Encoding a loaded row ------------------------------------------------------------

  function ReencodeFrom(buf: Bytes, ks: seq<Kind>, res: seq<Recoder>, row: Row, i: nat): Option<Bytes>
    requires KindsOk(ks) && |res| == |ks| && i <= |ks|
    decreases |ks| - i
  {
    if i == |ks| then Some(buf)
    else if i >= |row| then None
    else if row[i].None? then ReencodeFrom(buf, ks, res, row, i + 1)
    else
      var v := res[i](row[i].value);
      if v.None? then None
      else
        var next := Put1(buf, ks[i], v.value);
        if next.None? then None else ReencodeFrom(next.value, ks, res, row, i + 1)
  }

  /** `encode_attrs` over a loaded row: one pass over the live columns. */
  method ReencodeAttrs(row: Row, ks: seq<Kind>, res: seq<Recoder>) returns (r: Option<Bytes>)
    requires KindsOk(ks) && |res| == |ks|
    ensures r == ReencodeFrom([], ks, res, row, 0)
  {
    hide Put1;
    var buf: Bytes := [];
    for i := 0 to |ks|
      invariant ReencodeFrom(buf, ks, res, row, i) == ReencodeFrom([], ks, res, row, 0)
    {
      if i >= |row| {
        return None;
      }
      if row[i].None? {
        continue;
      }
      var v := res[i](row[i].value);
      if v.None? {
        return None;
      }
      var next := Put1(buf, ks[i], v.value);
      if next.None? {
        return None;
      }
      buf := next.value;
    }
    r := Some(buf);
  }

  /** A row whose values all come back as they were is encoded as `EncodeAttrs` encodes it. */
  lemma {:induction false} KeptIsEncode(buf: Bytes, ks: seq<Kind>, res: seq<Recoder>, row: Row, i: nat)
    requires KindsOk(ks) && |res| == |ks| && i <= |ks|
    requires forall j :: i <= j < |ks| && j < |row| && row[j].Some? ==> res[j](row[j].value) == row[j]
    ensures ReencodeFrom(buf, ks, res, row, i) == EncodeFrom(buf, ks, row, i)
    decreases |ks| - i
  {
    hide Put1;
    if i < |ks| && i < |row| {
      if row[i].None? {
        KeptIsEncode(buf, ks, res, row, i + 1);
      } else {
        var next := Put1(buf, ks[i], row[i].value);
        if next.Some? {
          KeptIsEncode(next.value, ks, res, row, i + 1);
        }
      }
    }
  }

  /** One value of a type that is not encoded refuses the row. */
  lemma {:induction false} RefusedColumn(buf: Bytes, ks: seq<Kind>, res: seq<Recoder>, row: Row, i: nat, j: nat)
    requires KindsOk(ks) && |res| == |ks| && i <= j < |ks| && j < |row| && row[j].Some? && res[j](row[j].value).None?
    ensures ReencodeFrom(buf, ks, res, row, i).None?
    decreases j - i
  {
    hide Put1;
    ReencodeUnfolds(buf, ks, res, row, i);
    if i < j {
      if row[i].None? {
        RefusedColumn(buf, ks, res, row, i + 1, j);
      } else if res[i](row[i].value).Some? && Put1(buf, ks[i], res[i](row[i].value).value).Some? {
        RefusedColumn(Put1(buf, ks[i], res[i](row[i].value).value).value, ks, res, row, i + 1, j);
      }
    }
  }

  lemma {:induction false} ReencodeExtends(buf: Bytes, ks: seq<Kind>, res: seq<Recoder>, row: Row, i: nat)
    requires KindsOk(ks) && |res| == |ks| && i <= |ks| && ReencodeFrom(buf, ks, res, row, i).Some?
    ensures buf <= ReencodeFrom(buf, ks, res, row, i).value
    decreases |ks| - i
  {
    if i < |ks| {
      if row[i].None? {
        ReencodeExtends(buf, ks, res, row, i + 1);
      } else {
        var next := Put1(buf, ks[i], res[i](row[i].value).value).value;
        assert buf <= next;
        ReencodeExtends(next, ks, res, row, i + 1);
      }
    }
  }

  // ---- One column -----------------------------------------------------------------------

  predicate IsThere(h: Head, i: nat) {
    i < h.natts && IsPresent(h, i)
  }

  /**
   The column's bytes at `off` are what its value encodes to: zero padding, a variable-length value in the one-byte
   form, and a value its type gives back.
   */
  ghost predicate ColumnFaithful(data: Bytes, off: nat, k: Kind, re: Recoder)
    requires KindOk(k)
  {
    match k
    case Fixed(size, align) =>
      var at := AlignTo(off, align);
      at + size <= |data| && data[off..at] == Zeros(at - off) && re(data[at..at + size]) == Some(data[at..at + size])
    case Varlena =>
      && off < |data| && data[off] % 2 == 1 && data[off] != 1
      && (var end := off + data[off] as nat / 2;
          end <= |data| && re(data[off + 1..end]) == Some(data[off + 1..end]))
  }

  /** The column's value written at `off` runs along the data. */
  ghost predicate Written1(data: Bytes, off: nat, k: Kind, v: Option<Bytes>)
    requires KindOk(k) && off <= |data|
  {
    v.Some? && Put1(data[..off], k, v.value).Some? && Put1(data[..off], k, v.value).value <= data
  }

  lemma FixedIff(data: Bytes, off: nat, k: Kind, re: Recoder, v: Bytes)
    requires KindOk(k) && k.Fixed? && off <= |data| && AlignTo(off, k.align) + k.size <= |data|
    requires v == data[AlignTo(off, k.align)..AlignTo(off, k.align) + k.size]
    ensures Written1(data, off, k, re(v)) <==> ColumnFaithful(data, off, k, re)
    ensures ColumnFaithful(data, off, k, re) ==> Put1(data[..off], k, re(v).value).value == data[..AlignTo(off, k.align) + k.size]
  {
    hide AlignTo;
    var at := AlignTo(off, k.align);
    if re(v).Some? && |re(v).value| == k.size {
      var r := re(v).value;
      var next := data[..off] + Zeros(at - off) + r;
      assert Put1(data[..off], k, r).value == next;
      assert next[off..at] == Zeros(at - off) && next[at..] == r;
      if next <= data {
        assert data[off..at] == next[off..at] && data[at..at + k.size] == next[at..];
      }
      if ColumnFaithful(data, off, k, re) {
        assert next == data[..at + k.size];
      }
    }
  }

  lemma VarlenaIff(data: Bytes, off: nat, re: Recoder, v: Bytes, env: Env)
    requires off <= |data| && DecodeVarlena(data, off, env).Datum?
    requires DecodeVarlena(data, off, env).value.Some? ==> v == DecodeVarlena(data, off, env).value.value
    ensures Written1(data, off, Varlena, re(v)) <==> ColumnFaithful(data, off, Varlena, re)
    ensures ColumnFaithful(data, off, Varlena, re) ==>
              re(v).Some? && Put1(data[..off], Varlena, re(v).value).value == data[..DecodeVarlena(data, off, env).next]
  {
    hide AlignTo, LittleEndian.Get, Inflate;
    var first := data[off] as nat;
    var end := off + first / 2;
    if re(v).Some? && |re(v).value| <= 126 {
      var r := re(v).value;
      var next := data[..off] + [((|r| + 1) * 2 + 1) as byte] + r;
      assert next[off] as nat == (|r| + 1) * 2 + 1 && next[off + 1..] == r;
      if next <= data {
        assert data[off] == next[off] && data[off + 1..off + 1 + |r|] == next[off + 1..];
      }
      if ColumnFaithful(data, off, Varlena, re) {
        assert data[..end] == data[..off] + [data[off]] + data[off + 1..end];
      }
    }
  }

  lemma ColumnIff(data: Bytes, off: nat, k: Kind, re: Recoder, v: Bytes, env: Env)
    requires KindOk(k) && off <= |data| && DecodeValue(data, off, k, env).Datum?
    requires DecodeValue(data, off, k, env).value.Some? ==> v == DecodeValue(data, off, k, env).value.value
    ensures off <= DecodeValue(data, off, k, env).next <= |data|
    ensures Written1(data, off, k, re(v)) <==> ColumnFaithful(data, off, k, re)
    ensures ColumnFaithful(data, off, k, re) ==>
              re(v).Some? && Put1(data[..off], k, re(v).value) == Some(data[..DecodeValue(data, off, k, env).next])
  {
    hide ColumnFaithful, Written1, AlignTo, Put1;
    Advances(data, off, k, env);
    if k.Fixed? {
      FixedIff(data, off, k, re, v);
      FaithfulWrites(data, off, k, re, v);
    } else {
      VarlenaIff(data, off, re, v, env);
      FaithfulWrites(data, off, k, re, v);
    }
  }

  lemma FaithfulWrites(data: Bytes, off: nat, k: Kind, re: Recoder, v: Bytes)
    requires KindOk(k) && off <= |data| && (Written1(data, off, k, re(v)) <==> ColumnFaithful(data, off, k, re))
    ensures ColumnFaithful(data, off, k, re) ==> re(v).Some? && Put1(data[..off], k, re(v).value).Some?
  {
    hide ColumnFaithful;
  }

  lemma Advances(data: Bytes, off: nat, k: Kind, env: Env)
    requires KindOk(k) && off <= |data| && DecodeValue(data, off, k, env).Datum?
    ensures off <= DecodeValue(data, off, k, env).next <= |data|
  {
  }

  // ---- A whole tuple --------------------------------------------------------------------

  /**
   From physical column `i` on, at `off`: every present live column is faithful, and nothing follows the last. A present
   dropped column is allowed only when `skip` is set.
   */
  ghost predicate Faithful(data: Bytes, off: nat, ps: seq<PhysCol>, i: nat, live: nat, h: Head, env: Env, res: seq<Recoder>, skip: bool)
    requires ColsOk(ps) && i <= |ps|
    decreases |ps| - i
  {
    if i == |ps| then off == |data|
    else if !IsThere(h, i) then Faithful(data, off, ps, i + 1, live + (if ps[i].Live? then 1 else 0), h, env, res, skip)
    else
      var d := DecodeValue(data, off, ps[i].kind, env);
      && d.Datum?
      && (if ps[i].Dropped? then skip && Faithful(data, d.next, ps, i + 1, live, h, env, res, skip)
          else live < |res| && ColumnFaithful(data, off, ps[i].kind, res[live])
               && Faithful(data, d.next, ps, i + 1, live + 1, h, env, res, skip))
  }

  /** No dropped column has bytes in the tuple. */
  ghost predicate NoneDropped(ps: seq<PhysCol>, h: Head) {
    forall i :: 0 <= i < |ps| && ps[i].Dropped? ==> !IsThere(h, i)
  }

  /** Where decoding stands before physical column `i`. */
  ghost predicate At(data: Bytes, off: nat, ps: seq<PhysCol>, i: nat, live: nat, h: Head, env: Env, prev: Option<Row>, row: Row)
    requires ColsOk(ps)
  {
    && i <= |ps| && off <= |data| && live == |LiveKinds(ps[..i])| <= |LiveKinds(ps)| == |row|
    && DecodeFrom(data, off, ps, i, live, h, env, prev) == Decoded.Row(row[live..])
  }

  lemma NextLive(ps: seq<PhysCol>, i: nat, live: nat)
    requires i < |ps| && live == |LiveKinds(ps[..i])|
    ensures |LiveKinds(ps[..i + 1])| == live + (if ps[i].Live? then 1 else 0) <= |LiveKinds(ps)|
    ensures ps[i].Live? ==> LiveKinds(ps)[live] == ps[i].kind
  {
    LiveKindsStep(ps, i);
    LiveKindsPrefix(ps, i + 1);
  }

  lemma ConsSplits(v: Option<Bytes>, d: Decoded, row: Row)
    requires Cons(v, d) == Decoded.Row(row)
    ensures row != [] && row[0] == v && d == Decoded.Row(row[1..])
  {
    assert ([v] + d.row)[1..] == d.row;
  }

  /** An absent column: NULL in the row when live, nothing in the data. */
  lemma AbsentStep(data: Bytes, off: nat, ps: seq<PhysCol>, i: nat, live: nat, h: Head, env: Env, prev: Option<Row>, row: Row)
    requires ColsOk(ps) && At(data, off, ps, i, live, h, env, prev, row) && i < |ps| && !IsThere(h, i)
    ensures ps[i].Live? ==> live < |row| && row[live].None?
    ensures At(data, off, ps, i + 1, live + (if ps[i].Live? then 1 else 0), h, env, prev, row)
  {
    hide DecodeValue, DecodeVarlena, Present, LiveKinds;
    NextLive(ps, i, live);
    if ps[i].Live? {
      ConsSplits(None, DecodeFrom(data, off, ps, i + 1, live + 1, h, env, prev), row[live..]);
      assert row[live..][1..] == row[live + 1..];
    }
  }

  lemma PresentStep(data: Bytes, off: nat, ps: seq<PhysCol>, i: nat, live: nat, h: Head, env: Env, prev: Option<Row>, row: Row)
    requires ColsOk(ps) && At(data, off, ps, i, live, h, env, prev, row) && i < |ps| && IsThere(h, i) && ps[i].Live?
    ensures live < |row| && row[live].Some? && DecodeValue(data, off, ps[i].kind, env).Datum?
    ensures var d := DecodeValue(data, off, ps[i].kind, env);
            && (d.value.Some? ==> row[live] == d.value)
            && At(data, d.next, ps, i + 1, live + 1, h, env, prev, row)
  {
    hide DecodeValue, DecodeVarlena, Present, LiveKinds;
    NextLive(ps, i, live);
    var d := DecodeValue(data, off, ps[i].kind, env);
    var v := if d.value.Some? then d.value else if prev.Some? && live < |prev.value| then prev.value[live] else None;
    ConsSplits(v, DecodeFrom(data, d.next, ps, i + 1, live + 1, h, env, prev), row[live..]);
    assert row[live..][1..] == row[live + 1..];
    Advances(data, off, ps[i].kind, env);
  }

  lemma ReencodeUnfolds(buf: Bytes, ks: seq<Kind>, res: seq<Recoder>, row: Row, j: nat)
    requires KindsOk(ks) && |res| == |ks| && j < |ks| && j < |row|
    ensures row[j].None? ==> ReencodeFrom(buf, ks, res, row, j) == ReencodeFrom(buf, ks, res, row, j + 1)
    ensures row[j].Some? ==>
              var v := res[j](row[j].value);
              var next := if v.None? then None else Put1(buf, ks[j], v.value);
              ReencodeFrom(buf, ks, res, row, j) == if next.None? then None else ReencodeFrom(next.value, ks, res, row, j + 1)
  {
    hide Put1;
  }

  /**
   For every tuple the decoder accepts, without dropped columns in it: encoding its row again gives exactly its bytes if
   and only if every variable-length value is in the one-byte form (so at most 126 bytes), every value is one its type
   gives back, all padding is zero and no bytes follow.
   */
  lemma {:induction false} ReencodesFrom(data: Bytes, off: nat, ps: seq<PhysCol>, i: nat, live: nat, h: Head, env: Env,
                                         prev: Option<Row>, row: Row, res: seq<Recoder>)
    requires ColsOk(ps) && At(data, off, ps, i, live, h, env, prev, row) && |res| == |LiveKinds(ps)| && NoneDropped(ps, h)
    ensures ReencodeFrom(data[..off], LiveKinds(ps), res, row, live) == Some(data)
            <==> Faithful(data, off, ps, i, live, h, env, res, false)
    decreases |ps| - i
  {
    hide LiveKinds, DecodeFrom, DecodeValue, ColumnFaithful, Put1, At, IsThere, Cons;
    AtBounds(data, off, ps, i, live, h, env, prev, row);
    if i == |ps| {
      assert ps[..i] == ps;
      assert |data[..off]| == off && (off == |data| ==> data[..off] == data);
    } else if !IsThere(h, i) {
      NextLive(ps, i, live);
      AbsentStep(data, off, ps, i, live, h, env, prev, row);
      if ps[i].Live? {
        ReencodeUnfolds(data[..off], LiveKinds(ps), res, row, live);
      }
      ReencodesFrom(data, off, ps, i + 1, live + (if ps[i].Live? then 1 else 0), h, env, prev, row, res);
    } else {
      ReencodesColumn(data, off, ps, i, live, h, env, prev, row, res);
    }
  }

  lemma AtBounds(data: Bytes, off: nat, ps: seq<PhysCol>, i: nat, live: nat, h: Head, env: Env, prev: Option<Row>, row: Row)
    requires ColsOk(ps) && At(data, off, ps, i, live, h, env, prev, row)
    ensures i <= |ps| && off <= |data| && live == |LiveKinds(ps[..i])| <= |LiveKinds(ps)| == |row|
  {
  }

  lemma {:induction false} ReencodesColumn(data: Bytes, off: nat, ps: seq<PhysCol>, i: nat, live: nat, h: Head, env: Env,
                                           prev: Option<Row>, row: Row, res: seq<Recoder>)
    requires ColsOk(ps) && At(data, off, ps, i, live, h, env, prev, row) && |res| == |LiveKinds(ps)| && NoneDropped(ps, h)
    requires i < |ps| && off <= |data| && live <= |LiveKinds(ps)| && IsThere(h, i)
    ensures ReencodeFrom(data[..off], LiveKinds(ps), res, row, live) == Some(data)
            <==> Faithful(data, off, ps, i, live, h, env, res, false)
    decreases |ps| - i, 0
  {
    hide LiveKinds, DecodeFrom, DecodeValue, ColumnFaithful, Put1, At, IsThere, ReencodeFrom;
    AtBounds(data, off, ps, i, live, h, env, prev, row);
    NextLive(ps, i, live);
    assert ps[i].Live?;
    PresentStep(data, off, ps, i, live, h, env, prev, row);
    var d, v, re, ks := DecodeValue(data, off, ps[i].kind, env), row[live].value, res[live], LiveKinds(ps);
    ReencodeUnfolds(data[..off], ks, res, row, live);
    ColumnIff(data, off, ps[i].kind, re, v, env);
    if ColumnFaithful(data, off, ps[i].kind, re) {
      ReencodesFrom(data, d.next, ps, i + 1, live + 1, h, env, prev, row, res);
    } else if re(v).Some? && Put1(data[..off], ps[i].kind, re(v).value).Some? {
      var next := Put1(data[..off], ps[i].kind, re(v).value).value;
      if ReencodeFrom(next, ks, res, row, live + 1).Some? {
        ReencodeExtends(next, ks, res, row, live + 1);
      }
    }
  }

  /** A table's columns as a restart sees them: physical, and how each live one comes back. */
  datatype Layout = Layout(ps: seq<PhysCol>, res: seq<Recoder>, env: Env)

  ghost predicate LayoutOk(l: Layout) {
    ColsOk(l.ps) && |l.res| == |LiveKinds(l.ps)|
  }

  function Reencoded(l: Layout, row: Row): Option<Bytes>
    requires ColsOk(l.ps) && |l.res| == |LiveKinds(l.ps)|
  {
    ReencodeFrom([], LiveKinds(l.ps), l.res, row, 0)
  }

  /** The tuple `data` with head `h` holds `row`. */
  ghost predicate Stores(l: Layout, h: Head, prev: Option<Row>, data: Bytes, row: Row)
    requires ColsOk(l.ps)
  {
    |row| == |LiveKinds(l.ps)| && DecodeFrom(data, 0, l.ps, 0, 0, h, l.env, prev) == Decoded.Row(row)
  }

  ghost predicate TupleFaithful(l: Layout, h: Head, data: Bytes)
    requires ColsOk(l.ps)
  {
    Faithful(data, 0, l.ps, 0, 0, h, l.env, l.res, false)
  }

  lemma ReencodesExactly(l: Layout, h: Head, prev: Option<Row>, data: Bytes, row: Row)
    requires LayoutOk(l) && Stores(l, h, prev, data, row) && NoneDropped(l.ps, h)
    ensures Reencoded(l, row) == Some(data) <==> TupleFaithful(l, h, data)
  {
    hide DecodeFrom, ReencodeFrom, Faithful;
    assert l.ps[..0] == [] && row[0..] == row && data[..0] == [];
    assert At(data, 0, l.ps, 0, 0, h, l.env, prev, row);
    ReencodesFrom(data, 0, l.ps, 0, 0, h, l.env, prev, row, l.res);
  }

  // ---- Dropped columns ------------------------------------------------------------------

  predicate Unaligned(ps: seq<PhysCol>) {
    forall i :: 0 <= i < |ps| && ps[i].Live? && ps[i].kind.Fixed? ==> ps[i].kind.align == 1
  }

  /** The bytes dropped columns take from physical column `i` on. */
  function DroppedBytes(data: Bytes, off: nat, ps: seq<PhysCol>, i: nat, h: Head, env: Env): nat
    requires ColsOk(ps) && i <= |ps|
    decreases |ps| - i
  {
    if i == |ps| then 0
    else if !IsThere(h, i) then DroppedBytes(data, off, ps, i + 1, h, env)
    else
      var d := DecodeValue(data, off, ps[i].kind, env);
      if d.Bad? then 0
      else (if ps[i].Dropped? && d.next > off then d.next - off else 0) + DroppedBytes(data, d.next, ps, i + 1, h, env)
  }

  lemma PutsWidth(buf: Bytes, data: Bytes, off: nat, k: Kind, re: Recoder, v: Bytes, env: Env)
    requires KindOk(k) && (k.Fixed? ==> k.align == 1) && off <= |data| && DecodeValue(data, off, k, env).Datum?
    requires DecodeValue(data, off, k, env).value.Some? ==> v == DecodeValue(data, off, k, env).value.value
    requires ColumnFaithful(data, off, k, re)
    ensures re(v) == Some(v) && Put1(buf, k, v).Some? && |Put1(buf, k, v).value| == |buf| + DecodeValue(data, off, k, env).next - off
  {
    hide LittleEndian.Get, Inflate;
  }

  lemma DroppedStep(data: Bytes, off: nat, ps: seq<PhysCol>, i: nat, live: nat, h: Head, env: Env, prev: Option<Row>, row: Row)
    requires ColsOk(ps) && At(data, off, ps, i, live, h, env, prev, row) && i < |ps| && IsThere(h, i) && ps[i].Dropped?
    requires DecodeValue(data, off, ps[i].kind, env).Datum?
    ensures var d := DecodeValue(data, off, ps[i].kind, env);
            off < d.next && At(data, d.next, ps, i + 1, live, h, env, prev, row)
  {
    hide DecodeVarlena, Present, LiveKinds;
    NextLive(ps, i, live);
    Advances(data, off, ps[i].kind, env);
    TakesBytes(data, off, ps[i].kind, env);
  }

  lemma TakesBytes(data: Bytes, off: nat, k: Kind, env: Env)
    requires KindOk(k) && off <= |data| && DecodeValue(data, off, k, env).Datum?
    ensures off < DecodeValue(data, off, k, env).next
  {
    hide LittleEndian.Get, Inflate;
  }

  /** Where nothing is aligned, encoding again leaves out exactly the dropped columns' bytes. */
  lemma {:induction false} ReencodeShrinks(buf: Bytes, data: Bytes, off: nat, ps: seq<PhysCol>, i: nat, live: nat, h: Head, env: Env,
                                           prev: Option<Row>, row: Row, res: seq<Recoder>)
    requires ColsOk(ps) && At(data, off, ps, i, live, h, env, prev, row) && |res| == |LiveKinds(ps)| && Unaligned(ps)
    requires i <= |ps| && live <= |LiveKinds(ps)| && Faithful(data, off, ps, i, live, h, env, res, true)
    ensures var b := ReencodeFrom(buf, LiveKinds(ps), res, row, live);
            b.Some? && |b.value| + DroppedBytes(data, off, ps, i, h, env) == |buf| + |data| - off
    decreases |ps| - i
  {
    hide LiveKinds, DecodeFrom, DecodeValue, ColumnFaithful, Put1, At, IsThere, Cons;
    AtBounds(data, off, ps, i, live, h, env, prev, row);
    if i == |ps| {
      assert ps[..i] == ps;
    } else if !IsThere(h, i) {
      NextLive(ps, i, live);
      AbsentStep(data, off, ps, i, live, h, env, prev, row);
      if ps[i].Live? {
        ReencodeUnfolds(buf, LiveKinds(ps), res, row, live);
      }
      ReencodeShrinks(buf, data, off, ps, i + 1, live + (if ps[i].Live? then 1 else 0), h, env, prev, row, res);
    } else {
      var d := DecodeValue(data, off, ps[i].kind, env);
      NextLive(ps, i, live);
      if ps[i].Dropped? {
        DroppedStep(data, off, ps, i, live, h, env, prev, row);
        ReencodeShrinks(buf, data, d.next, ps, i + 1, live, h, env, prev, row, res);
      } else {
        PresentStep(data, off, ps, i, live, h, env, prev, row);
        ReencodeUnfolds(buf, LiveKinds(ps), res, row, live);
        PutsWidth(buf, data, off, ps[i].kind, res[live], row[live].value, env);
        var next := Put1(buf, ps[i].kind, row[live].value).value;
        ReencodeShrinks(next, data, d.next, ps, i + 1, live + 1, h, env, prev, row, res);
      }
    }
  }

  /** Some dropped column takes bytes, unless none is there. */
  lemma {:induction false} DroppedTakes(data: Bytes, off: nat, ps: seq<PhysCol>, i: nat, live: nat, h: Head, env: Env, prev: Option<Row>,
                                        row: Row, res: seq<Recoder>)
    requires ColsOk(ps) && At(data, off, ps, i, live, h, env, prev, row) && i <= |ps| && Faithful(data, off, ps, i, live, h, env, res, true)
    ensures DroppedBytes(data, off, ps, i, h, env) == 0 <==> forall j :: i <= j < |ps| && ps[j].Dropped? ==> !IsThere(h, j)
    decreases |ps| - i
  {
    hide LiveKinds, DecodeFrom, DecodeValue, ColumnFaithful, At, IsThere, Cons;
    if i < |ps| {
      if !IsThere(h, i) {
        AbsentStep(data, off, ps, i, live, h, env, prev, row);
        DroppedTakes(data, off, ps, i + 1, live + (if ps[i].Live? then 1 else 0), h, env, prev, row, res);
      } else {
        var d := DecodeValue(data, off, ps[i].kind, env);
        if ps[i].Dropped? {
          DroppedStep(data, off, ps, i, live, h, env, prev, row);
          assert DroppedBytes(data, off, ps, i, h, env) > 0;
        } else {
          PresentStep(data, off, ps, i, live, h, env, prev, row);
          DroppedTakes(data, d.next, ps, i + 1, live + 1, h, env, prev, row, res);
        }
      }
    }
  }

  /**
   With dropped columns allowed and every live column faithful: where nothing is aligned, encoding again gives exactly
   the bytes if and only if no dropped column has any, and otherwise falls short by theirs.
   */
  lemma DroppedBytesAreLost(l: Layout, h: Head, prev: Option<Row>, data: Bytes, row: Row)
    requires LayoutOk(l) && Stores(l, h, prev, data, row) && Unaligned(l.ps)
    requires Faithful(data, 0, l.ps, 0, 0, h, l.env, l.res, true)
    ensures Reencoded(l, row).Some? && |Reencoded(l, row).value| + DroppedBytes(data, 0, l.ps, 0, h, l.env) == |data|
    ensures Reencoded(l, row) == Some(data) <==> NoneDropped(l.ps, h)
  {
    hide DecodeFrom, ReencodeFrom, Faithful, DroppedBytes, IsThere;
    assert l.ps[..0] == [] && row[0..] == row;
    assert At(data, 0, l.ps, 0, 0, h, l.env, prev, row);
    ReencodeShrinks([], data, 0, l.ps, 0, 0, h, l.env, prev, row, l.res);
    DroppedTakes(data, 0, l.ps, 0, 0, h, l.env, prev, row, l.res);
    if NoneDropped(l.ps, h) {
      SkipsNothing(data, 0, l.ps, 0, 0, h, l.env, l.res);
      ReencodesExactly(l, h, prev, data, row);
    }
  }

  lemma {:induction false} SkipsNothing(data: Bytes, off: nat, ps: seq<PhysCol>, i: nat, live: nat, h: Head, env: Env, res: seq<Recoder>)
    requires ColsOk(ps) && i <= |ps| && NoneDropped(ps, h) && Faithful(data, off, ps, i, live, h, env, res, true)
    ensures Faithful(data, off, ps, i, live, h, env, res, false)
    decreases |ps| - i
  {
    hide DecodeValue, ColumnFaithful, IsThere;
    if i < |ps| {
      if !IsThere(h, i) {
        SkipsNothing(data, off, ps, i + 1, live + (if ps[i].Live? then 1 else 0), h, env, res);
      } else {
        SkipsNothing(data, DecodeValue(data, off, ps[i].kind, env).next, ps, i + 1, live + 1, h, env, res);
      }
    }
  }

  const FLAG: Kind := Fixed(1, 1)
  const WORD: Kind := Fixed(4, 4)

  const MIXED: seq<PhysCol> := [Dropped(FLAG), Live(FLAG), Live(WORD)]

  lemma MixedKinds()
    ensures ColsOk(MIXED) && LiveKinds(MIXED) == [FLAG, WORD]
  {
    var ps := MIXED;
    assert ps[..2][..1] == ps[..1] && ps[..1][..0] == [];
    assert LiveKinds(ps[..1]) == [] && LiveKinds(ps[..2]) == [FLAG];
  }

  lemma MixedDecodes(a: byte, v: byte, env: Env)
    requires ColsOk(MIXED)
    ensures DecodeFrom([a, v, 0, 0, 5, 0, 0, 0], 0, MIXED, 0, 0, Head(3, false, []), env, None)
         == Decoded.Row([Some([v]), Some([5, 0, 0, 0])])
  {
    var h, data: Bytes := Head(3, false, []), [a, v, 0, 0, 5, 0, 0, 0];
    assert data[1..2] == [v] && data[4..8] == [5, 0, 0, 0];
    var rest := DecodeFrom(data, 8, MIXED, 3, 2, h, env, None);
    var last := DecodeFrom(data, 2, MIXED, 2, 1, h, env, None);
    assert last == Cons(Some(data[4..8]), rest);
    assert DecodeFrom(data, 1, MIXED, 1, 0, h, env, None) == Cons(Some(data[1..2]), last);
    assert DecodeFrom(data, 0, MIXED, 0, 0, h, env, None) == DecodeFrom(data, 1, MIXED, 1, 0, h, env, None);
  }

  function MixedRecoders(u: ColumnTypes.Utf8): seq<Recoder> {
    [ColumnTypes.Recode(ColumnTypes.Bool, u), ColumnTypes.Recode(ColumnTypes.Int4, u)]
  }

  lemma MixedReencodes(v: byte, u: ColumnTypes.Utf8)
    ensures var b := if v == 0 then 0 else 1;
            ReencodeFrom([], [FLAG, WORD], MixedRecoders(u), [Some([v]), Some([5, 0, 0, 0])], 0) == Some([b, 0, 0, 0, 5, 0, 0, 0])
  {
    hide ColumnTypes.Logged, ColumnTypes.Stored;
    var b: byte := if v == 0 then 0 else 1;
    assert ColumnTypes.Recode(ColumnTypes.Bool, u)([v]) == Some([b]) by { BoolRecodes(v, u); }
    assert ColumnTypes.Recode(ColumnTypes.Int4, u)([5, 0, 0, 0]) == Some([5, 0, 0, 0]) by {
      ColumnTypes.RecodesExactlyWhen(ColumnTypes.Int4, [5, 0, 0, 0], u);
    }
    var row: Row, res := [Some([v]), Some([5, 0, 0, 0])], MixedRecoders(u);
    var none: Bytes, one: Bytes := [], [b];
    assert Zeros(0) == none && none + none + one == one;
    assert Put1(none, FLAG, one) == Some(one);
    assert Zeros(3) == [0, 0, 0];
    assert one + [0, 0, 0] + [5, 0, 0, 0] == [b, 0, 0, 0, 5, 0, 0, 0];
    ReencodeUnfolds(none, [FLAG, WORD], res, row, 0);
    ReencodeUnfolds(one, [FLAG, WORD], res, row, 1);
  }

  lemma BoolRecodes(v: byte, u: ColumnTypes.Utf8)
    ensures ColumnTypes.Recode(ColumnTypes.Bool, u)([v]) == Some([if v == 0 then 0 else 1])
  {
  }

  /** Under alignment a dropped byte can hide where padding would be, if it and its neighbour are zero, and only then. */
  lemma DroppedZeroHides(a: byte, v: byte, u: ColumnTypes.Utf8, env: Env)
    ensures var l, h, data := Layout(MIXED, MixedRecoders(u), env), Head(3, false, []), [a, v, 0, 0, 5, 0, 0, 0];
            var row := [Some([v]), Some([5, 0, 0, 0])];
            && LayoutOk(l) && Stores(l, h, None, data, row) && !NoneDropped(MIXED, h)
            && (Reencoded(l, row) == Some(data) <==> a == 0 && v == 0)
  {
    hide DecodeFrom, ReencodeFrom, LiveKinds, ColumnTypes.Recode;
    MixedKinds();
    MixedDecodes(a, v, env);
    MixedReencodes(v, u);
    assert MIXED[0].Dropped? && IsThere(Head(3, false, []), 0);
    var b: byte := if v == 0 then 0 else 1;
    var data: Bytes, again: Bytes := [a, v, 0, 0, 5, 0, 0, 0], [b, 0, 0, 0, 5, 0, 0, 0];
    assert data == again ==> data[0] == again[0] && data[1] == again[1];
  }

  /** How long the row encodes, were every value taken: its values' own lengths and the padding between them. */
  function EncodedLength(len: nat, ks: seq<Kind>, res: seq<Recoder>, row: Row, i: nat): nat
    requires KindsOk(ks) && |res| == |ks| && i <= |ks|
    decreases |ks| - i
  {
    if i == |ks| || i >= |row| then len
    else if row[i].None? || res[i](row[i].value).None? then EncodedLength(len, ks, res, row, i + 1)
    else
      var next := match ks[i] case Fixed(size, align) => AlignTo(len, align) + size
                              case Varlena => len + 1 + |res[i](row[i].value).value|;
      EncodedLength(next, ks, res, row, i + 1)
  }

  lemma {:induction false} ReencodedLength(buf: Bytes, ks: seq<Kind>, res: seq<Recoder>, row: Row, i: nat)
    requires KindsOk(ks) && |res| == |ks| && i <= |ks| && ReencodeFrom(buf, ks, res, row, i).Some?
    ensures |ReencodeFrom(buf, ks, res, row, i).value| == EncodedLength(|buf|, ks, res, row, i)
    decreases |ks| - i
  {
    hide AlignTo;
    if i < |ks| {
      if row[i].None? {
        ReencodedLength(buf, ks, res, row, i + 1);
      } else {
        ReencodedLength(Put1(buf, ks[i], res[i](row[i].value).value).value, ks, res, row, i + 1);
      }
    }
  }

  /**
   Aligned or not: a tuple of another length than its live values encode to is lost, so with every live column faithful
   it is whenever the dropped columns' bytes shift or lengthen it.
   */
  lemma OtherLengthIsLost(l: Layout, row: Row, data: Bytes)
    requires LayoutOk(l) && |data| != EncodedLength(0, LiveKinds(l.ps), l.res, row, 0)
    ensures Reencoded(l, row) != Some(data)
  {
    hide ReencodeFrom, EncodedLength;
    if Reencoded(l, row).Some? {
      ReencodedLength([], LiveKinds(l.ps), l.res, row, 0);
    }
  }

  // ---- What a restart loads -------------------------------------------------------------

  /** The loader of `resume_tables`: encode the logged row again, and where that refuses take the page's bytes. */
  function RestartLoader(l: Layout, raw: map<Ctid, Bytes>): Loader
    requires ColsOk(l.ps) && |l.res| == |LiveKinds(l.ps)|
  {
    Reloader(row => Reencoded(l, row), raw)
  }

  /** Every live row of table `t` is a tuple of the layout, with the head `heads` gives. */
  ghost predicate OnPages(p: PWal, w: Wal, i: nat, t: nat, l: Layout, heads: Ctid -> Head, prevs: Ctid -> Option<Row>)
    requires i <= |p| && ColsOk(l.ps)
  {
    forall c :: LiveAt(p, w, i, Key(t, c)) ==>
      var img := HeapAt(p, i)[Key(t, c)].img;
      img.attrs.Some? && Stores(l, heads(c), prevs(c), img.attrs.value, img.row)
  }

  /** What a tuple must be for its re-encoded row to have its bytes. */
  ghost predicate ComesBack(l: Layout, h: Head, data: Bytes, row: Row)
    requires LayoutOk(l)
  {
    if NoneDropped(l.ps, h) then TupleFaithful(l, h, data) else Reencoded(l, row) == Some(data)
  }

  /**
   A restart gives every live row the bytes of its page if and only if each row that encodes again comes back (is
   faithful on its page, where no dropped column has bytes), and each that does not has its page's bytes read.
   */
  lemma RestartLoadsExactlyWhen(p: PWal, w: Wal, i: nat, t: nat, l: Layout, raw: map<Ctid, Bytes>, heads: Ctid -> Head,
                                prevs: Ctid -> Option<Row>)
    requires i <= |p| && LayoutOk(l) && OnPages(p, w, i, t, l, heads, prevs)
    ensures Loads(p, w, i, t, RestartLoader(l, raw))
            <==> forall c :: LiveAt(p, w, i, Key(t, c)) ==>
                   var img := HeapAt(p, i)[Key(t, c)].img;
                   if Reencoded(l, img.row).Some? then ComesBack(l, heads(c), img.attrs.value, img.row)
                   else c in raw && raw[c] == img.attrs.value
  {
    hide HeapAt, Reencoded, TupleFaithful, Stores, NoneDropped;
    forall c | LiveAt(p, w, i, Key(t, c))
      ensures var img := HeapAt(p, i)[Key(t, c)].img;
              RestartLoader(l, raw)(c, img.row) == img.attrs
              <==> if Reencoded(l, img.row).Some? then ComesBack(l, heads(c), img.attrs.value, img.row)
                   else c in raw && raw[c] == img.attrs.value
    {
      var img := HeapAt(p, i)[Key(t, c)].img;
      if NoneDropped(l.ps, heads(c)) {
        ReencodesExactly(l, heads(c), prevs(c), img.attrs.value, img.row);
      }
    }
  }

  // ---- Typed columns --------------------------------------------------------------------

  /** A physical column: live with its type, or dropped. */
  datatype Column = Typed(ty: ColumnTypes.PgType) | Gone(kind: Kind)

  predicate ColumnsOk(cols: seq<Column>) {
    forall i :: 0 <= i < |cols| && cols[i].Gone? ==> KindOk(cols[i].kind)
  }

  function Physical(cols: seq<Column>): (ps: seq<PhysCol>)
    ensures |ps| == |cols| && (ColumnsOk(cols) ==> ColsOk(ps))
  {
    seq(|cols|, i requires 0 <= i < |cols| =>
      if cols[i].Typed? then Live(ColumnTypes.KindOf(cols[i].ty)) else Dropped(cols[i].kind))
  }

  function Recoders(cols: seq<Column>, u: ColumnTypes.Utf8): (res: seq<Recoder>)
    ensures |res| == |LiveKinds(Physical(cols))|
    decreases |cols|
  {
    if cols == [] then []
    else
      var front, last := cols[..|cols| - 1], cols[|cols| - 1];
      assert Physical(cols)[..|cols| - 1] == Physical(front);
      Recoders(front, u) + if last.Typed? then [ColumnTypes.Recode(last.ty, u)] else []
  }

  function TableLayout(cols: seq<Column>, u: ColumnTypes.Utf8, env: Env): Layout {
    Layout(Physical(cols), Recoders(cols, u), env)
  }

  /** Each live column's recoder is its type's. */
  lemma {:induction false} RecoderAt(cols: seq<Column>, u: ColumnTypes.Utf8, i: nat)
    requires i < |cols| && cols[i].Typed?
    ensures var live := |LiveKinds(Physical(cols[..i]))|;
            live < |Recoders(cols, u)| && Recoders(cols, u)[live] == ColumnTypes.Recode(cols[i].ty, u)
    decreases |cols|
  {
    hide LiveKinds, ColumnTypes.Recode;
    var front := cols[..|cols| - 1];
    if i < |cols| - 1 {
      RecoderAt(front, u, i);
      assert front[..i] == cols[..i];
    }
  }

  /** The column's bytes are where and how the encoder would put them: zero padding, the one-byte form. */
  predicate InForm(data: Bytes, off: nat, k: Kind)
    requires KindOk(k)
  {
    match k
    case Fixed(size, align) =>
      var at := AlignTo(off, align);
      at + size <= |data| && data[off..at] == Zeros(at - off)
    case Varlena =>
      off < |data| && data[off] % 2 == 1 && data[off] != 1 && off + data[off] as nat / 2 <= |data|
  }

  function PayloadAt(data: Bytes, off: nat, k: Kind): Bytes
    requires KindOk(k) && InForm(data, off, k)
  {
    match k
    case Fixed(size, align) => data[AlignTo(off, align)..AlignTo(off, align) + size]
    case Varlena => data[off + 1..off + data[off] as nat / 2]
  }

  lemma TypedColumn(data: Bytes, off: nat, ty: ColumnTypes.PgType, u: ColumnTypes.Utf8)
    ensures var k := ColumnTypes.KindOf(ty);
            ColumnFaithful(data, off, k, ColumnTypes.Recode(ty, u))
            <==> InForm(data, off, k) && ColumnTypes.Keeps(ty, PayloadAt(data, off, k), u)
  {
    hide AlignTo, ColumnTypes.Recode, ColumnTypes.Keeps, ColumnTypes.KindOf;
    var k := ColumnTypes.KindOf(ty);
    if InForm(data, off, k) {
      ColumnTypes.RecodesExactlyWhen(ty, PayloadAt(data, off, k), u);
    }
  }

  /** From column `i` on, at `off`: every present column is live, in form, and keeps its payload; nothing follows. */
  ghost predicate TypedFaithful(data: Bytes, off: nat, cols: seq<Column>, i: nat, h: Head, env: Env, u: ColumnTypes.Utf8)
    requires ColumnsOk(cols) && i <= |cols|
    decreases |cols| - i
  {
    if i == |cols| then off == |data|
    else if !IsThere(h, i) then TypedFaithful(data, off, cols, i + 1, h, env, u)
    else
      cols[i].Typed?
      && (var k := ColumnTypes.KindOf(cols[i].ty);
          var d := DecodeValue(data, off, k, env);
          && d.Datum? && InForm(data, off, k) && ColumnTypes.Keeps(cols[i].ty, PayloadAt(data, off, k), u)
          && TypedFaithful(data, d.next, cols, i + 1, h, env, u))
  }

  lemma {:induction false} FaithfulByType(data: Bytes, off: nat, cols: seq<Column>, i: nat, live: nat, h: Head, env: Env, u: ColumnTypes.Utf8)
    requires ColumnsOk(cols) && i <= |cols| && live == |LiveKinds(Physical(cols)[..i])|
    ensures Faithful(data, off, Physical(cols), i, live, h, env, Recoders(cols, u), false) <==> TypedFaithful(data, off, cols, i, h, env, u)
    decreases |cols| - i
  {
    hide DecodeValue, ColumnFaithful, InForm, IsThere, LiveKinds, Recoders, ColumnTypes.Keeps, ColumnTypes.KindOf, ColumnTypes.Recode;
    if i < |cols| {
      var ps := Physical(cols);
      LiveKindsStep(ps, i);
      var live' := live + (if ps[i].Live? then 1 else 0);
      if !IsThere(h, i) {
        FaithfulByType(data, off, cols, i + 1, live', h, env, u);
      } else if cols[i].Typed? {
        var ty := cols[i].ty;
        TypedColumn(data, off, ty, u);
        assert ps[..i] == Physical(cols[..i]);
        RecoderAt(cols, u, i);
        var d := DecodeValue(data, off, ColumnTypes.KindOf(ty), env);
        if d.Datum? {
          FaithfulByType(data, d.next, cols, i + 1, live', h, env, u);
        }
      }
    }
  }

  /**
   The condition by types, for every tuple the decoder accepts with no dropped column's bytes in it: its row encodes back
   to exactly its bytes if and only if padding is zero, variable-length values are in the one-byte form, nothing follows,
   and each value is one its type keeps: a boolean of 0 or 1, valid UTF-8, a trimmed long numeric, no JSON; anything else.
   */
  lemma TypedReencodes(cols: seq<Column>, u: ColumnTypes.Utf8, env: Env, h: Head, prev: Option<Row>, data: Bytes, row: Row)
    requires ColumnsOk(cols) && NoneDropped(Physical(cols), h) && Stores(TableLayout(cols, u, env), h, prev, data, row)
    ensures Reencoded(TableLayout(cols, u, env), row) == Some(data) <==> TypedFaithful(data, 0, cols, 0, h, env, u)
  {
    hide Reencoded, Stores, Faithful, TypedFaithful, NoneDropped, Recoders;
    var l := TableLayout(cols, u, env);
    ReencodesExactly(l, h, prev, data, row);
    assert Physical(cols)[..0] == [];
    FaithfulByType(data, 0, cols, 0, 0, h, env, u);
  }

  /** A row with a JSON value does not encode, so a restart reads its page's bytes. */
  lemma JsonComesFromPage(cols: seq<Column>, u: ColumnTypes.Utf8, env: Env, row: Row, i: nat, c: Ctid, raw: map<Ctid, Bytes>)
    requires ColumnsOk(cols) && i < |cols| && cols[i] == Typed(ColumnTypes.Jsonb)
    requires var j := |LiveKinds(Physical(cols[..i]))|; j < |row| && row[j].Some?
    ensures Reencoded(TableLayout(cols, u, env), row).None?
    ensures RestartLoader(TableLayout(cols, u, env), raw)(c, row) == if c in raw then Some(raw[c]) else None
  {
    hide ReencodeFrom, LiveKinds, Recoders, ColumnTypes.Logged;
    var l, j := TableLayout(cols, u, env), |LiveKinds(Physical(cols[..i]))|;
    RecoderAt(cols, u, i);
    RefusedColumn([], LiveKinds(l.ps), l.res, row, 0, j);
  }

  // ---- A short numeric ------------------------------------------------------------------

  /** The number one as the server stores it, and as it is encoded again. */
  const PAGE_ONE: Bytes := [11, 0, 128, 1, 0]
  const PAGE_TWO: Bytes := [11, 0, 128, 2, 0]
  const ONE_AGAIN: Bytes := [15, 0, 0, 0, 0, 1, 0]

  lemma OneRecodes()
    ensures NumericNormal.Recoded([0, 128, 1, 0]) == Some([0, 0, 0, 0, 1, 0])
  {
    hide Numeric.Render, Numeric.ParseLiteral, Numeric.Store, Numeric.SpecialHeader;
    var short: Bytes, n := [0, 128, 1, 0], Numeric.Stored(false, 0, 0, [1]);
    assert LittleEndian.Get(short[0..2]) == 0x8000 by { assert short[0..2][1..] == [128]; }
    assert Numeric.ReadGroups(short[2..]) == [1] by {
      var g := short[2..];
      assert g[0..2][1..] == [0] && LittleEndian.Get(g[0..2]) == 1;
      assert g[2..] == [];
    }
    assert Numeric.Decode(short) == Some(Numeric.Finite(n));
    assert NumericNormal.Normal(n) by { OneIsNormal(); }
    NumericNormal.StoreUndoesRender(n);
    Numeric.LiteralIsNotSpecial(Numeric.Render(n));
    assert Numeric.Encode(n) == [0, 0, 0, 0, 1, 0] by {
      assert LittleEndian.Put(0, 2) == [0, 0] && LittleEndian.Put(1, 2) == [1, 0];
      assert Numeric.GroupBytes([1]) == LittleEndian.Put(1, 2) + Numeric.GroupBytes([]);
    }
  }

  lemma OneIsNormal()
    ensures NumericNormal.Normal(Numeric.Stored(false, 0, 0, [1]))
  {
  }

  /**
   After a restart the pre-image of a short numeric has other bytes than its page, and an update that logs only the byte
   it changed is rebuilt into another tuple.
   */
  lemma ShortNumericRebuildsWrong(u: ColumnTypes.Utf8)
    ensures ReencodeFrom([], [Varlena], [ColumnTypes.Recode(ColumnTypes.Numeric, u)], [Some([0, 128, 1, 0])], 0) == Some(ONE_AGAIN)
    ensures Rebuild(Some(PAGE_ONE), 3, 1, [2]) == Some(PAGE_TWO)
    ensures Rebuild(Some(ONE_AGAIN), 3, 1, [2]) == Some([15, 0, 0, 2, 0]) && [15, 0, 0, 2, 0] != PAGE_TWO
  {
    hide ReencodeFrom;
    OneReencodes(u);
    Rebuilds();
    assert [15, 0, 0, 2, 0][0] != PAGE_TWO[0];
  }

  lemma OneReencodes(u: ColumnTypes.Utf8)
    ensures ReencodeFrom([], [Varlena], [ColumnTypes.Recode(ColumnTypes.Numeric, u)], [Some([0, 128, 1, 0])], 0) == Some(ONE_AGAIN)
  {
    hide NumericNormal.Recoded, Put1, ColumnTypes.Recode;
    OneRecodes();
    var asNumeric := ColumnTypes.Recode(ColumnTypes.Numeric, u);
    var none: Bytes, long: Bytes, row: Row := [], [0, 0, 0, 0, 1, 0], [Some([0, 128, 1, 0])];
    assert asNumeric([0, 128, 1, 0]) == Some(long) by { NumericRecodes([0, 128, 1, 0], u); }
    assert Put1(none, Varlena, long) == Some(ONE_AGAIN) by { PutsOne(); }
    ReencodeUnfolds(none, [Varlena], [asNumeric], row, 0);
    assert ReencodeFrom(ONE_AGAIN, [Varlena], [asNumeric], row, 1) == Some(ONE_AGAIN);
  }

  lemma NumericRecodes(v: Bytes, u: ColumnTypes.Utf8)
    ensures ColumnTypes.Recode(ColumnTypes.Numeric, u)(v) == NumericNormal.Recoded(v)
  {
    hide Numeric.NumericToString, Numeric.NumericFromString;
  }

  lemma PutsOne()
    ensures Put1([], Varlena, [0, 0, 0, 0, 1, 0]) == Some(ONE_AGAIN)
  {
    var none: Bytes := [];
    assert none + [15] + [0, 0, 0, 0, 1, 0] == ONE_AGAIN;
  }

  lemma Rebuilds()
    ensures Rebuild(Some(PAGE_ONE), 3, 1, [2]) == Some(PAGE_TWO) && Rebuild(Some(ONE_AGAIN), 3, 1, [2]) == Some([15, 0, 0, 2, 0])
  {
    assert PAGE_ONE[..3] == [11, 0, 128] && PAGE_ONE[4..] == [0];
    assert ONE_AGAIN[..3] == [15, 0, 0] && ONE_AGAIN[6..] == [0];
    var page: Bytes, again: Bytes := [11, 0, 128] + [2] + [0], [15, 0, 0] + [2] + [0];
    assert page == PAGE_TWO && again == [15, 0, 0, 2, 0];
    assert |PAGE_ONE| - 1 == 4 && |ONE_AGAIN| - 1 == 6;
  }
}
