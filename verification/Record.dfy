/**
 WAL record parsing (src/wal/mod.rs `parse_record`, `PageImage::restore`). The checksum and the lz4/zstd codecs are
 parameters.
 */
module Record {
  import opened Base
  import opened LittleEndian
  import Pglz

  const HEADER: nat := 24
  const BLOCK_SIZE: nat := 8192
  const MAX_BLOCK_ID: nat := 32
  const TOPLEVEL_XID: nat := 252
  const ORIGIN: nat := 253
  const DATA_LONG: nat := 254
  const DATA_SHORT: nat := 255

  /** The checksum of a record body followed by the first 20 header bytes, in stored form. */
  type Crc = (Bytes, Bytes) -> Bytes

  datatype Codecs = Codecs(lz4: (Bytes, nat) -> Option<Bytes>, zstd: (Bytes, nat) -> Option<Bytes>)

  datatype Rel = Rel(spc: nat, db: nat, rel: nat)

  datatype PageImage = PageImage(data: Bytes, holeOffset: nat, holeLen: nat, info: nat)

  datatype BlockRef = BlockRef(id: nat, rel: Rel, blkno: nat, image: Option<PageImage>, data: Bytes)

  datatype Rec = Rec(xid: nat, rmid: nat, info: nat, blocks: seq<BlockRef>, mainData: Bytes)

  // ---- Flag bits ------------------------------------------------------------------------

  predicate HasImage(flags: nat) { (flags / 0x10) % 2 == 1 }
  predicate HasData(flags: nat) { (flags / 0x20) % 2 == 1 }
  predicate SameRel(flags: nat) { (flags / 0x80) % 2 == 1 }
  predicate HasHole(info: nat) { info % 2 == 1 }

  /** The pglz, lz4 and zstd bits, as one number. */
  function Compression(info: nat): nat { (info / 4) % 8 }

  // ---- Header entries -------------------------------------------------------------------

  datatype ImageHeader = ImageHeader(len: nat, holeOffset: nat, holeLen: nat, info: nat)

  datatype BlockHeader = BlockHeader(id: nat, rel: Rel, blkno: nat, image: Option<ImageHeader>, dataLen: nat)

  datatype Taken<T> = Short | Took(value: T, size: nat)

  /** A raw image implies its hole from the elided bytes, truncated to 16 bits. */
  function TakeImageHeader(b: Bytes): (r: Taken<ImageHeader>)
    ensures r.Took? ==> 5 <= r.size <= |b|
  {
    if |b| < 5 then Short
    else
      var len, off, info := Get(b[0..2]), Get(b[2..4]), b[4] as nat;
      if !HasHole(info) then Took(ImageHeader(len, off, 0, info), 5)
      else if Compression(info) == 0 then Took(ImageHeader(len, off, (BLOCK_SIZE - len) % 0x1_0000, info), 5)
      else if |b| < 7 then Short
      else Took(ImageHeader(len, off, Get(b[5..7]), info), 7)
  }

  function TakeRel(b: Bytes, same: bool, prev: Option<Rel>): (r: Taken<Rel>)
    ensures r.Took? ==> r.size <= |b|
  {
    if same then (if prev.Some? then Took(prev.value, 0) else Short)
    else if |b| < 12 then Short
    else Took(Rel(Get(b[0..4]), Get(b[4..8]), Get(b[8..12])), 12)
  }

  function TakeImagePart(b: Bytes, flags: nat): (r: Taken<Option<ImageHeader>>)
    ensures r.Took? ==> r.size <= |b|
  {
    if !HasImage(flags) then Took(None, 0)
    else
      var i := TakeImageHeader(b);
      if i.Short? then Short else Took(Some(i.value), i.size)
  }

  /** Which relation and block: the relation is elided when it is the previous block's. */
  function TakeTarget(b: Bytes, flags: nat, prev: Option<Rel>): (r: Taken<(Rel, nat)>)
    ensures r.Took? ==> r.size <= |b|
  {
    var rel := TakeRel(b, SameRel(flags), prev);
    if rel.Short? || |b| < rel.size + 4 then Short
    else Took((rel.value, Get(b[rel.size..rel.size + 4])), rel.size + 4)
  }

  /** A block header after its id byte. */
  function TakeBlockHeader(b: Bytes, id: nat, prev: Option<Rel>): (r: Taken<BlockHeader>)
    ensures r.Took? ==> 3 <= r.size <= |b|
  {
    if |b| < 3 then Short
    else
      var flags := b[0] as nat;
      var image := TakeImagePart(b[3..], flags);
      if image.Short? then Short
      else
        var target := TakeTarget(b[3 + image.size..], flags, prev);
        if target.Short? then Short
        else Took(BlockHeader(id, target.value.0, target.value.1, image.value, if HasData(flags) then Get(b[1..3]) else 0),
                  3 + image.size + target.size)
  }

  function PayloadLen(h: BlockHeader): nat {
    (if h.image.Some? then h.image.value.len else 0) + h.dataLen
  }

  /** `mainHeaders`: how many main-data headers there were; the last one counts. */
  datatype Headers = Headers(blocks: seq<BlockHeader>, mainLen: nat, mainHeaders: nat, rest: Bytes)

  function AddBlock(h: BlockHeader, p: Option<Headers>): Option<Headers> {
    if p.None? then None else Some(p.value.(blocks := [h] + p.value.blocks))
  }

  /** The header section: entries until what is left is no more than the data announced so far. */
  function TakeHeaders(b: Bytes, total: nat, mainLen: nat, mains: nat, prev: Option<Rel>): Option<Headers>
    decreases |b|
  {
    if |b| <= total then Some(Headers([], mainLen, mains, b))
    else
      var id := b[0] as nat;
      if id == DATA_SHORT then
        if |b| < 2 then None else TakeHeaders(b[2..], total + b[1] as nat, b[1] as nat, mains + 1, prev)
      else if id == DATA_LONG then
        if |b| < 5 then None else TakeHeaders(b[5..], total + Get(b[1..5]), Get(b[1..5]), mains + 1, prev)
      else if id == ORIGIN then
        if |b| < 3 then None else TakeHeaders(b[3..], total, mainLen, mains, prev)
      else if id == TOPLEVEL_XID then
        if |b| < 5 then None else TakeHeaders(b[5..], total, mainLen, mains, prev)
      else if id <= MAX_BLOCK_ID then
        var h := TakeBlockHeader(b[1..], id, prev);
        if h.Short? then None
        else AddBlock(h.value, TakeHeaders(b[1 + h.size..], total + PayloadLen(h.value), mainLen, mains, Some(h.value.rel)))
      else None
  }

  // ---- Data section ---------------------------------------------------------------------

  datatype Payload = Payload(blocks: seq<BlockRef>, rest: Bytes)

  function BlockOf(h: BlockHeader, b: Bytes): BlockRef
    requires PayloadLen(h) <= |b|
  {
    if h.image.None? then BlockRef(h.id, h.rel, h.blkno, None, b[..h.dataLen])
    else
      var i := h.image.value;
      BlockRef(h.id, h.rel, h.blkno, Some(PageImage(b[..i.len], i.holeOffset, i.holeLen, i.info)), b[i.len..i.len + h.dataLen])
  }

  function TakePayload(b: Bytes, hs: seq<BlockHeader>): Option<Payload>
    decreases |hs|
  {
    if hs == [] then Some(Payload([], b))
    else if |b| < PayloadLen(hs[0]) then None
    else
      var p := TakePayload(b[PayloadLen(hs[0])..], hs[1..]);
      if p.None? then None else Some(p.value.(blocks := [BlockOf(hs[0], b)] + p.value.blocks))
  }

  function Parsed(rec: Bytes, crc: Crc): Option<Rec> {
    if |rec| < HEADER || crc(rec[HEADER..], rec[0..20]) != rec[20..24] then None
    else
      var h := TakeHeaders(rec[HEADER..], 0, 0, 0, None);
      if h.None? then None
      else
        var p := TakePayload(h.value.rest, h.value.blocks);
        if p.None? || |p.value.rest| < h.value.mainLen then None
        else Some(Rec(Get(rec[4..8]), rec[17] as nat, rec[16] as nat, p.value.blocks, p.value.rest[..h.value.mainLen]))
  }

  // ---- Page images ----------------------------------------------------------------------

  function ImageBody(i: PageImage, codecs: Codecs): Option<Bytes>
    requires i.holeLen <= BLOCK_SIZE
  {
    var raw := BLOCK_SIZE - i.holeLen;
    var c := Compression(i.info);
    if c == 0 then Some(i.data)
    else if c == 1 then Pglz.Decompressed(i.data, raw)
    else if c == 2 then codecs.lz4(i.data, raw)
    else if c == 4 then codecs.zstd(i.data, raw)
    else None
  }

  function Restored(i: PageImage, codecs: Codecs): Option<Bytes> {
    if i.holeLen > BLOCK_SIZE then None
    else
      var body := ImageBody(i, codecs);
      if body.None? || |body.value| + i.holeLen != BLOCK_SIZE || i.holeOffset + i.holeLen > BLOCK_SIZE then None
      else Some(body.value[..i.holeOffset] + Zeros(i.holeLen) + body.value[i.holeOffset..])
  }

  // ---- The methods ----------------------------------------------------------------------

  class Cursor {
    const buf: Bytes
    var off: nat

    ghost predicate Valid()
      reads this
    {
      off <= |buf|
    }

    ghost function Rest(): Bytes
      requires Valid()
      reads this
    {
      buf[off..]
    }

    constructor (buf: Bytes, off: nat)
      requires off <= |buf|
      ensures this.buf == buf && this.off == off && Valid()
    {
      this.buf := buf;
      this.off := off;
    }

    method Take(n: nat) returns (r: Option<Bytes>)
      requires Valid()
      modifies this
      ensures Valid()
      ensures |old(Rest())| < n ==> r == None && off == old(off)
      ensures |old(Rest())| >= n ==> r == Some(old(Rest())[..n]) && off == old(off) + n && Rest() == old(Rest())[n..]
    {
      if off + n > |buf| {
        return None;
      }
      assert buf[off..off + n] == buf[off..][..n];
      r := Some(buf[off..off + n]);
      off := off + n;
    }
  }

  /** Take the image header a block's flags announce. */
  method ReadImageHeader(c: Cursor) returns (r: Option<ImageHeader>)
    requires c.Valid()
    modifies c
    ensures c.Valid()
    ensures match TakeImageHeader(old(c.Rest()))
            case Short => r == None
            case Took(h, n) => r == Some(h) && c.Rest() == old(c.Rest())[n..]
  {
    var b := c.Take(5);
    if b.None? {
      return None;
    }
    ghost var was := old(c.Rest());
    assert b.value[0..2] == was[0..2] && b.value[2..4] == was[2..4];
    var len, off, info := Get(b.value[0..2]), Get(b.value[2..4]), b.value[4] as nat;
    var holeLen := 0;
    if HasHole(info) {
      if Compression(info) == 0 {
        holeLen := (BLOCK_SIZE - len) % 0x1_0000;
      } else {
        var l := c.Take(2);
        if l.None? {
          return None;
        }
        assert l.value == was[5..7];
        holeLen := Get(l.value);
      }
    }
    r := Some(ImageHeader(len, off, holeLen, info));
  }

  method ReadRel(c: Cursor, same: bool, prev: Option<Rel>) returns (r: Option<Rel>)
    requires c.Valid()
    modifies c
    ensures c.Valid()
    ensures match TakeRel(old(c.Rest()), same, prev)
            case Short => r == None
            case Took(v, n) => r == Some(v) && c.Rest() == old(c.Rest())[n..]
  {
    if same {
      return prev;
    }
    var b := c.Take(12);
    if b.None? {
      return None;
    }
    ghost var was := old(c.Rest());
    assert b.value[0..4] == was[0..4] && b.value[4..8] == was[4..8] && b.value[8..12] == was[8..12];
    r := Some(Rel(Get(b.value[0..4]), Get(b.value[4..8]), Get(b.value[8..12])));
  }

  method ReadTarget(c: Cursor, flags: nat, prev: Option<Rel>) returns (r: Option<(Rel, nat)>)
    requires c.Valid()
    modifies c
    ensures c.Valid()
    ensures match TakeTarget(old(c.Rest()), flags, prev)
            case Short => r == None
            case Took(v, n) => r == Some(v) && c.Rest() == old(c.Rest())[n..]
  {
    hide Get, SameRel, TakeRel;
    ghost var was := c.Rest();
    var rel := ReadRel(c, SameRel(flags), prev);
    if rel.None? {
      return None;
    }
    ghost var n := TakeRel(was, SameRel(flags), prev).size;
    var blkno := c.Take(4);
    if blkno.None? {
      return None;
    }
    assert blkno.value == was[n..n + 4] && c.Rest() == was[n + 4..];
    r := Some((rel.value, Get(blkno.value)));
  }

  method ReadImagePart(c: Cursor, flags: nat) returns (r: Option<Option<ImageHeader>>)
    requires c.Valid()
    modifies c
    ensures c.Valid()
    ensures match TakeImagePart(old(c.Rest()), flags)
            case Short => r == None
            case Took(v, n) => r == Some(v) && c.Rest() == old(c.Rest())[n..]
  {
    hide TakeImageHeader, HasImage;
    if !HasImage(flags) {
      return Some(None);
    }
    var i := ReadImageHeader(c);
    r := if i.None? then None else Some(i);
  }

  method ReadBlockHeader(c: Cursor, id: nat, prev: Option<Rel>) returns (r: Option<BlockHeader>)
    requires c.Valid()
    modifies c
    ensures c.Valid()
    ensures match TakeBlockHeader(old(c.Rest()), id, prev)
            case Short => r == None
            case Took(h, n) => r == Some(h) && c.Rest() == old(c.Rest())[n..]
  {
    hide Get, HasData, TakeImagePart, TakeTarget;
    ghost var was := c.Rest();
    var b := c.Take(3);
    if b.None? {
      return None;
    }
    assert b.value[1..3] == was[1..3];
    var flags, dataLen := b.value[0] as nat, Get(b.value[1..3]);
    var image := ReadImagePart(c, flags);
    if image.None? {
      return None;
    }
    ghost var n := TakeImagePart(was[3..], flags).size;
    assert c.Rest() == was[3 + n..];
    var target := ReadTarget(c, flags, prev);
    if target.None? {
      return None;
    }
    assert c.Rest() == was[3 + n + TakeTarget(was[3 + n..], flags, prev).size..];
    r := Some(BlockHeader(id, target.value.0, target.value.1, image.value, if HasData(flags) then dataLen else 0));
  }

  datatype Loop = Loop(blocks: seq<BlockHeader>, total: nat, mainLen: nat, mains: nat, prev: Option<Rel>)

  /** The header loop from here finishes what `l` has so far. */
  function Onward(b: Bytes, l: Loop): Option<Headers> {
    var h := TakeHeaders(b, l.total, l.mainLen, l.mains, l.prev);
    if h.None? then None else Some(h.value.(blocks := l.blocks + h.value.blocks))
  }

  /** The header section from an entry that only announces or carries something small. */
  lemma SmallOnward(b: Bytes, l: Loop)
    requires |b| > l.total
    ensures b[0] as nat == DATA_SHORT && |b| >= 2 ==>
              Onward(b, l) == Onward(b[2..], l.(mainLen := b[1] as nat, total := l.total + b[1] as nat, mains := l.mains + 1))
    ensures b[0] as nat == DATA_LONG && |b| >= 5 ==>
              Onward(b, l) == Onward(b[5..], l.(mainLen := Get(b[1..5]), total := l.total + Get(b[1..5]), mains := l.mains + 1))
    ensures b[0] as nat == ORIGIN && |b| >= 3 ==> Onward(b, l) == Onward(b[3..], l)
    ensures b[0] as nat == TOPLEVEL_XID && |b| >= 5 ==> Onward(b, l) == Onward(b[5..], l)
  {
    hide Get, TakeBlockHeader;
  }

  lemma EndsShort(b: Bytes, l: Loop)
    requires |b| > l.total
    requires var id := b[0] as nat;
             || (id == DATA_SHORT && |b| < 2) || (id == DATA_LONG && |b| < 5) || (id == ORIGIN && |b| < 3)
             || (id == TOPLEVEL_XID && |b| < 5) || MAX_BLOCK_ID < id < TOPLEVEL_XID
             || (id <= MAX_BLOCK_ID && TakeBlockHeader(b[1..], id, l.prev).Short?)
    ensures Onward(b, l) == None
  {
    hide Get, TakeBlockHeader;
  }

  /** One entry of the header section. */
  method ReadEntry(c: Cursor, l: Loop) returns (r: Option<Loop>)
    requires c.Valid() && |c.Rest()| > l.total
    modifies c
    ensures c.Valid()
    ensures r.None? ==> Onward(old(c.Rest()), l) == None
    ensures r.Some? ==> |c.Rest()| < |old(c.Rest())| && Onward(c.Rest(), r.value) == Onward(old(c.Rest()), l)
  {
    hide Get, TakeBlockHeader, Onward;
    ghost var was := c.Rest();
    var first := c.Take(1);
    var id := first.value[0] as nat;
    if id == DATA_SHORT || id == DATA_LONG {
      var b := c.Take(if id == DATA_SHORT then 1 else 4);
      if b.None? {
        EndsShort(was, l);
        return None;
      }
      SmallOnward(was, l);
      if id == DATA_SHORT {
        assert c.Rest() == was[2..] && b.value[0] == was[1];
        return Some(l.(mainLen := b.value[0] as nat, total := l.total + b.value[0] as nat, mains := l.mains + 1));
      }
      assert c.Rest() == was[5..] && b.value == was[1..5];
      r := Some(l.(mainLen := Get(b.value), total := l.total + Get(b.value), mains := l.mains + 1));
    } else if id == ORIGIN || id == TOPLEVEL_XID {
      var n := if id == ORIGIN then 2 else 4;
      var b := c.Take(n);
      if b.None? {
        EndsShort(was, l);
        return None;
      }
      SmallOnward(was, l);
      assert c.Rest() == was[1 + n..];
      r := Some(l);
    } else {
      r := ReadBlockEntry(c, id, l, was);
    }
  }

  method ReadBlockEntry(c: Cursor, id: nat, l: Loop, ghost was: Bytes) returns (r: Option<Loop>)
    requires c.Valid() && |was| > l.total && was[0] as nat == id < TOPLEVEL_XID && c.Rest() == was[1..]
    modifies c
    ensures c.Valid()
    ensures r.None? ==> Onward(was, l) == None
    ensures r.Some? ==> |c.Rest()| < |was| && Onward(c.Rest(), r.value) == Onward(was, l)
  {
    hide Get, TakeBlockHeader, Onward;
    if id > MAX_BLOCK_ID {
      EndsShort(was, l);
      return None;
    }
    var h := ReadBlockHeader(c, id, l.prev);
    if h.None? {
      EndsShort(was, l);
      return None;
    }
    ghost var n := TakeBlockHeader(was[1..], id, l.prev).size;
    assert c.Rest() == was[1 + n..];
    r := Some(Loop(l.blocks + [h.value], l.total + PayloadLen(h.value), l.mainLen, l.mains, Some(h.value.rel)));
    BlockOnward(was, l, h.value, n);
  }

  lemma BlockOnward(b: Bytes, l: Loop, h: BlockHeader, n: nat)
    requires |b| > l.total && b[0] as nat <= MAX_BLOCK_ID && TakeBlockHeader(b[1..], b[0] as nat, l.prev) == Took(h, n)
    ensures Onward(b, l)
         == Onward(b[1 + n..], Loop(l.blocks + [h], l.total + PayloadLen(h), l.mainLen, l.mains, Some(h.rel)))
  {
    hide TakeBlockHeader;
    var t := TakeHeaders(b[1 + n..], l.total + PayloadLen(h), l.mainLen, l.mains, Some(h.rel));
    if t.Some? {
      assert l.blocks + ([h] + t.value.blocks) == l.blocks + [h] + t.value.blocks;
    }
  }

  /** The payload of one block. */
  method ReadBlock(c: Cursor, h: BlockHeader) returns (r: Option<BlockRef>)
    requires c.Valid()
    modifies c
    ensures c.Valid()
    ensures |old(c.Rest())| < PayloadLen(h) ==> r == None
    ensures |old(c.Rest())| >= PayloadLen(h) ==> r == Some(BlockOf(h, old(c.Rest()))) && c.Rest() == old(c.Rest())[PayloadLen(h)..]
  {
    var image := None;
    if h.image.Some? {
      var i := h.image.value;
      var b := c.Take(i.len);
      if b.None? {
        return None;
      }
      image := Some(PageImage(b.value, i.holeOffset, i.holeLen, i.info));
    }
    ghost var n := if h.image.Some? then h.image.value.len else 0;
    assert c.Rest() == old(c.Rest())[n..];
    var data := c.Take(h.dataLen);
    if data.None? {
      return None;
    }
    assert data.value == old(c.Rest())[n..n + h.dataLen] && c.Rest() == old(c.Rest())[n + h.dataLen..];
    r := Some(BlockRef(h.id, h.rel, h.blkno, image, data.value));
  }

  method ReadHeaders(c: Cursor) returns (r: Option<Loop>)
    requires c.Valid()
    modifies c
    ensures c.Valid()
    ensures match TakeHeaders(old(c.Rest()), 0, 0, 0, None)
            case None => r == None
            case Some(h) => r.Some? && r.value.blocks == h.blocks && r.value.mainLen == h.mainLen && c.Rest() == h.rest
  {
    hide TakeBlockHeader, TakeHeaders;
    var l := Loop([], 0, 0, 0, None);
    ghost var headers := TakeHeaders(c.Rest(), 0, 0, 0, None);
    assert headers.Some? ==> [] + headers.value.blocks == headers.value.blocks;
    while |c.buf| - c.off > l.total
      invariant c.Valid() && Onward(c.Rest(), l) == headers
      decreases |c.buf| - c.off
    {
      var next := ReadEntry(c, l);
      if next.None? {
        return None;
      }
      l := next.value;
    }
    HeadersDone(c.Rest(), l);
    r := Some(l);
  }

  method ReadBlocks(c: Cursor, hs: seq<BlockHeader>) returns (r: Option<seq<BlockRef>>)
    requires c.Valid()
    modifies c
    ensures c.Valid()
    ensures match TakePayload(old(c.Rest()), hs)
            case None => r == None
            case Some(p) => r == Some(p.blocks) && c.Rest() == p.rest
  {
    hide BlockOf, PayloadLen;
    ghost var payload := TakePayload(c.Rest(), hs);
    var blocks := [];
    assert hs[0..] == hs;
    assert payload.Some? ==> [] + payload.value.blocks == payload.value.blocks;
    for i := 0 to |hs|
      invariant c.Valid()
      invariant payload == WithBlocks(blocks, TakePayload(c.Rest(), hs[i..]))
    {
      ghost var was := c.Rest();
      var b := ReadBlock(c, hs[i]);
      assert hs[i..][1..] == hs[i + 1..] && hs[i..][0] == hs[i];
      if b.None? {
        return None;
      }
      ghost var rest := TakePayload(c.Rest(), hs[i + 1..]);
      if rest.Some? {
        assert blocks + ([b.value] + rest.value.blocks) == blocks + [b.value] + rest.value.blocks;
      }
      blocks := blocks + [b.value];
    }
    assert hs[|hs|..] == [] && blocks + [] == blocks;
    r := Some(blocks);
  }

  method ParseRecord(rec: Bytes, crc: Crc) returns (r: Option<Rec>)
    ensures r == Parsed(rec, crc)
  {
    hide Get, TakeHeaders, TakePayload;
    if |rec| < HEADER {
      return None;
    }
    var xid, info, rmid := Get(rec[4..8]), rec[16] as nat, rec[17] as nat;
    if crc(rec[HEADER..], rec[0..20]) != rec[20..24] {
      return None;
    }
    var c := new Cursor(rec, HEADER);
    var l := ReadHeaders(c);
    if l.None? {
      return None;
    }
    var blocks := ReadBlocks(c, l.value.blocks);
    if blocks.None? {
      return None;
    }
    var main := c.Take(l.value.mainLen);
    if main.None? {
      return None;
    }
    r := Some(Rec(xid, rmid, info, blocks.value, main.value));
  }

  function WithBlocks(done: seq<BlockRef>, p: Option<Payload>): Option<Payload> {
    if p.None? then None else Some(p.value.(blocks := done + p.value.blocks))
  }

  lemma HeadersDone(b: Bytes, l: Loop)
    requires |b| <= l.total
    ensures Onward(b, l) == Some(Headers(l.blocks, l.mainLen, l.mains, b))
  {
    assert l.blocks + [] == l.blocks;
  }

  method Restore(i: PageImage, codecs: Codecs) returns (r: Option<Bytes>)
    ensures r == Restored(i, codecs)
  {
    if i.holeLen > BLOCK_SIZE {
      return None;
    }
    var body := ImageBody(i, codecs);
    if body.None? || |body.value| + i.holeLen != BLOCK_SIZE || i.holeOffset + i.holeLen > BLOCK_SIZE {
      return None;
    }
    var page := body.value[..i.holeOffset];
    while |page| < i.holeOffset + i.holeLen
      invariant i.holeOffset <= |page| <= i.holeOffset + i.holeLen
      invariant page == body.value[..i.holeOffset] + Zeros(|page| - i.holeOffset)
    {
      page := page + [0];
    }
    r := Some(page + body.value[i.holeOffset..]);
  }
}
