/**
 Building WAL records (tests/common/mod.rs `build_record`, with the optional entries Postgres also writes), and that
 parsing inverts it. Also what any accepted record looks like, whoever built it.
 */
module RecordBuild {
  import opened Base
  import opened LittleEndian
  import opened Record
  import Pglz

  datatype ImageSpec = ImageSpec(page: Bytes, holeOffset: nat, holeLen: nat, pglz: bool)

  /** `sameRel`: the relation is elided because it is the previous block's. */
  datatype BlockSpec =
    BlockSpec(id: nat, fork: nat, rel: Rel, blkno: nat, image: Option<ImageSpec>, data: Bytes, sameRel: bool)

  datatype Spec = Spec(xid: nat, rmid: nat, info: nat, blocks: seq<BlockSpec>, origin: Option<Bytes>, topXid: Option<Bytes>,
                       main: Bytes)

  // ---- Page images ----------------------------------------------------------------------

  function Literals(b: Bytes): (ts: seq<Pglz.Token>)
    ensures |ts| == |b| && Pglz.Encodable(ts)
  {
    seq(|b|, i requires 0 <= i < |b| => Pglz.Literal(b[i]))
  }

  /** All-literal pglz: a zero control byte before every eight bytes. */
  function PglzLiterals(b: Bytes): Bytes {
    Pglz.Encode(Literals(b))
  }

  function Elided(i: ImageSpec): Bytes
    requires i.holeOffset + i.holeLen <= |i.page|
  {
    i.page[..i.holeOffset] + i.page[i.holeOffset + i.holeLen..]
  }

  predicate ImageOk(i: ImageSpec) {
    && |i.page| == BLOCK_SIZE && i.holeOffset + i.holeLen <= BLOCK_SIZE
    && i.page[i.holeOffset..i.holeOffset + i.holeLen] == Zeros(i.holeLen)
    && |ImageBytes(i)| < 0x1_0000
  }

  function ImageBytes(i: ImageSpec): Bytes
    requires i.holeOffset + i.holeLen <= |i.page|
  {
    if i.pglz then PglzLiterals(Elided(i)) else Elided(i)
  }

  function ImageInfo(i: ImageSpec): nat {
    (if i.holeLen > 0 then 1 else 0) + (if i.pglz then 4 else 0)
  }

  function StoredImage(i: ImageSpec): PageImage
    requires i.holeOffset + i.holeLen <= |i.page|
  {
    PageImage(ImageBytes(i), i.holeOffset, i.holeLen, ImageInfo(i))
  }

  lemma {:induction false} ExpandLiterals(out: Bytes, b: Bytes)
    ensures Pglz.Valid(out, Literals(b)) && Pglz.Expand(out, Literals(b)) == out + b
    decreases |b|
  {
    if b == [] {
      assert out + b == out;
    } else {
      assert Literals(b)[0] == Pglz.Literal(b[0]) && Literals(b)[1..] == Literals(b[1..]);
      ExpandLiterals(out + [b[0]], b[1..]);
      assert out + [b[0]] + b[1..] == out + b;
    }
  }

  lemma BodyIsElided(i: ImageSpec, codecs: Codecs)
    requires ImageOk(i)
    ensures ImageBody(StoredImage(i), codecs) == Some(Elided(i))
  {
    hide Zeros, Pglz.Run;
    assert Compression(ImageInfo(i)) == if i.pglz then 1 else 0;
    if i.pglz {
      var e := Elided(i);
      ExpandLiterals([], e);
      assert [] + e == e && e[..|e|] == e;
      Pglz.DecompressIsExpansion(Literals(e), |e|);
    }
  }

  /** Restoring a stored page image gives the page back: hole elision and compression are undone. */
  lemma RestoreUndoesElision(i: ImageSpec, codecs: Codecs)
    requires ImageOk(i)
    ensures Restored(StoredImage(i), codecs) == Some(i.page)
  {
    hide ImageBytes, ImageBody, ImageInfo;
    BodyIsElided(i, codecs);
    var e, at, end := Elided(i), i.holeOffset, i.holeOffset + i.holeLen;
    assert e[..at] == i.page[..at] && e[at..] == i.page[end..];
    assert i.page == i.page[..at] + i.page[at..end] + i.page[end..];
  }

  // ---- Bytes of a record ----------------------------------------------------------------

  function Bit(b: bool): nat { if b then 1 else 0 }

  function Flags(b: BlockSpec): nat {
    b.fork + 0x10 * Bit(b.image.Some?) + 0x20 * Bit(b.data != []) + 0x80 * Bit(b.sameRel)
  }

  function ImageHeaderBytes(i: ImageSpec): Bytes
    requires ImageOk(i)
  {
    Put(|ImageBytes(i)|, 2) + Put(i.holeOffset, 2) + [ImageInfo(i) as byte]
    + (if i.pglz && i.holeLen > 0 then Put(i.holeLen, 2) else [])
  }

  function RelBytes(r: Rel): (b: Bytes)
    ensures |b| == 12
  {
    Put(r.spc, 4) + Put(r.db, 4) + Put(r.rel, 4)
  }

  predicate BlockOk(b: BlockSpec, prev: Option<Rel>) {
    && b.id <= MAX_BLOCK_ID && b.fork < 0x10 && |b.data| < 0x1_0000
    && b.rel.spc < 0x1_0000_0000 && b.rel.db < 0x1_0000_0000 && b.rel.rel < 0x1_0000_0000 && b.blkno < 0x1_0000_0000
    && (b.image.Some? ==> ImageOk(b.image.value))
    && (b.sameRel ==> prev == Some(b.rel))
  }

  function TargetBytes(b: BlockSpec): Bytes {
    (if b.sameRel then [] else RelBytes(b.rel)) + Put(b.blkno, 4)
  }

  function ImagePartBytes(b: BlockSpec): Bytes
    requires b.image.Some? ==> ImageOk(b.image.value)
  {
    if b.image.Some? then ImageHeaderBytes(b.image.value) else []
  }

  /** A block header after its id byte. */
  function BlockHeaderBytes(b: BlockSpec, prev: Option<Rel>): Bytes
    requires BlockOk(b, prev)
  {
    FlagBits(b);
    [Flags(b) as byte] + Put(|b.data|, 2) + ImagePartBytes(b) + TargetBytes(b)
  }

  predicate BlocksOk(bs: seq<BlockSpec>, prev: Option<Rel>)
    decreases |bs|
  {
    bs == [] || (BlockOk(bs[0], prev) && BlocksOk(bs[1..], Some(bs[0].rel)))
  }

  function HeaderSection(bs: seq<BlockSpec>, prev: Option<Rel>): Bytes
    requires BlocksOk(bs, prev)
    decreases |bs|
  {
    if bs == [] then [] else [bs[0].id as byte] + BlockHeaderBytes(bs[0], prev) + HeaderSection(bs[1..], Some(bs[0].rel))
  }

  function BlockPayload(b: BlockSpec): Bytes
    requires b.image.Some? ==> ImageOk(b.image.value)
  {
    (if b.image.Some? then ImageBytes(b.image.value) else []) + b.data
  }

  function DataSection(bs: seq<BlockSpec>, prev: Option<Rel>): Bytes
    requires BlocksOk(bs, prev)
    decreases |bs|
  {
    if bs == [] then [] else BlockPayload(bs[0]) + DataSection(bs[1..], Some(bs[0].rel))
  }

  function MainHeader(main: Bytes): Bytes
    requires |main| < 0x1_0000_0000
  {
    if main == [] then []
    else if |main| > 255 then [DATA_LONG as byte] + Put(|main|, 4)
    else [DATA_SHORT as byte, |main| as byte]
  }

  function Extras(s: Spec): Bytes {
    (if s.origin.Some? then [ORIGIN as byte] + s.origin.value else [])
    + (if s.topXid.Some? then [TOPLEVEL_XID as byte] + s.topXid.value else [])
  }

  predicate SpecOk(s: Spec) {
    && s.xid < 0x1_0000_0000 && s.rmid < 256 && s.info < 256 && |s.main| < 0x1_0000_0000
    && BlocksOk(s.blocks, None)
    && (s.origin.Some? ==> |s.origin.value| == 2) && (s.topXid.Some? ==> |s.topXid.value| == 4)
  }

  function Body(s: Spec): Bytes
    requires SpecOk(s)
  {
    HeaderSection(s.blocks, None) + (Extras(s) + (MainHeader(s.main) + (DataSection(s.blocks, None) + s.main)))
  }

  function Fixed(s: Spec, total: nat): (b: Bytes)
    requires s.rmid < 256 && s.info < 256
    ensures |b| == 20
  {
    Put(total, 4) + Put(s.xid, 4) + Zeros(8) + [s.info as byte, s.rmid as byte] + Zeros(2)
  }

  function Build(s: Spec, crc: Crc): Bytes
    requires SpecOk(s)
  {
    var body := Body(s);
    var fixed := Fixed(s, HEADER + |body|);
    fixed + crc(body, fixed) + body
  }

  function ParsedBlock(b: BlockSpec): BlockRef
    requires b.image.Some? ==> ImageOk(b.image.value)
  {
    BlockRef(b.id, b.rel, b.blkno, if b.image.Some? then Some(StoredImage(b.image.value)) else None, b.data)
  }

  function ParsedBlocks(bs: seq<BlockSpec>, prev: Option<Rel>): seq<BlockRef>
    requires BlocksOk(bs, prev)
    decreases |bs|
  {
    if bs == [] then [] else [ParsedBlock(bs[0])] + ParsedBlocks(bs[1..], Some(bs[0].rel))
  }

  // ---- Parsing what was built -----------------------------------------------------------

  lemma FlagBits(b: BlockSpec)
    requires b.fork < 0x10
    ensures Flags(b) < 256
    ensures HasImage(Flags(b)) <==> b.image.Some?
    ensures HasData(Flags(b)) <==> b.data != []
    ensures SameRel(Flags(b)) <==> b.sameRel
  {
  }

  function StoredHeader(i: ImageSpec): ImageHeader
    requires ImageOk(i)
  {
    ImageHeader(|ImageBytes(i)|, i.holeOffset, i.holeLen, ImageInfo(i))
  }

  lemma ImageHeaderTaken(i: ImageSpec, more: Bytes)
    requires ImageOk(i)
    ensures TakeImageHeader(ImageHeaderBytes(i) + more) == Took(StoredHeader(i), |ImageHeaderBytes(i)|)
  {
    hide Get, Put, ImageBytes, Zeros;
    Widths();
    var len, info := |ImageBytes(i)|, ImageInfo(i);
    GetPut(len, 2);
    GetPut(i.holeOffset, 2);
    GetPut(i.holeLen, 2);
    var b := ImageHeaderBytes(i) + more;
    assert b[0..2] == Put(len, 2) && b[2..4] == Put(i.holeOffset, 2) && b[4] as nat == info;
    assert HasHole(info) <==> i.holeLen > 0;
    assert Compression(info) == Bit(i.pglz);
    if i.pglz && i.holeLen > 0 {
      assert b[5..7] == Put(i.holeLen, 2);
    }
    if !i.pglz { RawLength(i); }
  }

  lemma RawLength(i: ImageSpec)
    requires ImageOk(i) && !i.pglz
    ensures |ImageBytes(i)| == BLOCK_SIZE - i.holeLen
  {
  }

  lemma TargetTaken(b: BlockSpec, prev: Option<Rel>, more: Bytes)
    requires BlockOk(b, prev)
    ensures TakeTarget(TargetBytes(b) + more, Flags(b), prev) == Took((b.rel, b.blkno), |TargetBytes(b)|)
  {
    hide Get, Put, Flags, SameRel, HasImage, HasData, ImageOk;
    FlagBits(b);
    Widths();
    GetPut(b.rel.spc, 4);
    GetPut(b.rel.db, 4);
    GetPut(b.rel.rel, 4);
    GetPut(b.blkno, 4);
    var t := TargetBytes(b) + more;
    if b.sameRel {
      assert t[0..4] == Put(b.blkno, 4);
    } else {
      assert t[0..4] == Put(b.rel.spc, 4) && t[4..8] == Put(b.rel.db, 4) && t[8..12] == Put(b.rel.rel, 4);
      assert t[12..16] == Put(b.blkno, 4);
    }
  }

  function HeaderOf(b: BlockSpec): BlockHeader
    requires b.image.Some? ==> ImageOk(b.image.value)
  {
    BlockHeader(b.id, b.rel, b.blkno, if b.image.Some? then Some(StoredHeader(b.image.value)) else None, |b.data|)
  }

  lemma BlockHeaderTaken(b: BlockSpec, prev: Option<Rel>, more: Bytes)
    requires BlockOk(b, prev)
    ensures TakeBlockHeader(BlockHeaderBytes(b, prev) + more, b.id, prev) == Took(HeaderOf(b), |BlockHeaderBytes(b, prev)|)
  {
    hide Get, Put, Flags, SameRel, HasImage, HasData, ImageOk, TakeImageHeader, TakeTarget, TargetBytes, ImageHeaderBytes, StoredHeader;
    FlagBits(b);
    Widths();
    GetPut(|b.data|, 2);
    var image, target := ImagePartBytes(b), TargetBytes(b);
    var h := BlockHeaderBytes(b, prev) + more;
    assert h[0] as nat == Flags(b) && h[1..3] == Put(|b.data|, 2);
    assert h[3..] == image + (target + more);
    assert h[3 + |image|..] == target + more;
    if b.image.Some? {
      ImageHeaderTaken(b.image.value, target + more);
    }
    TargetTaken(b, prev, more);
  }

  // ---- Sections -------------------------------------------------------------------------

  function LastRel(bs: seq<BlockSpec>, prev: Option<Rel>): Option<Rel> {
    if bs == [] then prev else Some(bs[|bs| - 1].rel)
  }

  function HeadersOf(bs: seq<BlockSpec>, prev: Option<Rel>): (hs: seq<BlockHeader>)
    requires BlocksOk(bs, prev)
    ensures |hs| == |bs|
    decreases |bs|
  {
    if bs == [] then [] else [HeaderOf(bs[0])] + HeadersOf(bs[1..], Some(bs[0].rel))
  }

  function Prepend(hs: seq<BlockHeader>, h: Option<Headers>): Option<Headers> {
    if h.None? then None else Some(h.value.(blocks := hs + h.value.blocks))
  }

  lemma PayloadSize(b: BlockSpec)
    requires b.image.Some? ==> ImageOk(b.image.value)
    ensures PayloadLen(HeaderOf(b)) == |BlockPayload(b)|
  {
    hide ImageBytes, ImageOk;
  }

  lemma BlockUnfolds(b: Bytes, total: nat, prev: Option<Rel>, h: BlockHeader, n: nat)
    requires |b| > total && b[0] as nat <= MAX_BLOCK_ID && TakeBlockHeader(b[1..], b[0] as nat, prev) == Took(h, n)
    ensures TakeHeaders(b, total, 0, 0, prev) == AddBlock(h, TakeHeaders(b[1 + n..], total + PayloadLen(h), 0, 0, Some(h.rel)))
  {
    hide TakeBlockHeader, PayloadLen, Get;
  }

  lemma HeaderRel(b: BlockSpec)
    requires b.image.Some? ==> ImageOk(b.image.value)
    ensures HeaderOf(b).rel == b.rel
  {
  }

  /** One block's header at the front of the section. */
  lemma OneHeaderTaken(b: BlockSpec, prev: Option<Rel>, tail: Bytes, total: nat)
    requires BlockOk(b, prev) && |tail| >= total
    ensures TakeHeaders([b.id as byte] + BlockHeaderBytes(b, prev) + tail, total, 0, 0, prev)
         == AddBlock(HeaderOf(b), TakeHeaders(tail, total + |BlockPayload(b)|, 0, 0, Some(b.rel)))
  {
    hide BlockHeaderBytes, TakeBlockHeader, TakeHeaders, ImageOk, BlockPayload, HeaderOf, PayloadLen;
    var h := BlockHeaderBytes(b, prev);
    var all := [b.id as byte] + h + tail;
    BlockHeaderTaken(b, prev, tail);
    PayloadSize(b);
    assert all[1..] == h + tail && all[1 + |h|..] == tail;
    BlockUnfolds(all, total, prev, HeaderOf(b), |h|);
    assert HeaderOf(b).rel == b.rel by { HeaderRel(b); }
  }

  lemma {:induction false} HeadersTaken(bs: seq<BlockSpec>, prev: Option<Rel>, tail: Bytes, total: nat)
    requires BlocksOk(bs, prev) && |tail| >= total + |DataSection(bs, prev)|
    ensures TakeHeaders(HeaderSection(bs, prev) + tail, total, 0, 0, prev)
         == Prepend(HeadersOf(bs, prev), TakeHeaders(tail, total + |DataSection(bs, prev)|, 0, 0, LastRel(bs, prev)))
    decreases |bs|
  {
    hide BlocksOk, TakeHeaders, HeaderSection, DataSection, HeadersOf, BlockHeaderBytes, BlockPayload, ImageOk, HeaderOf, Prepend, AddBlock;
    if bs == [] {
      NoSections(prev);
      assert HeaderSection(bs, prev) + tail == tail;
      PrependNothing(TakeHeaders(tail, total, 0, 0, prev));
    } else {
      SectionsUnfold(bs, prev);
      var b, next := bs[0], Some(bs[0].rel);
      var first, rest := [b.id as byte] + BlockHeaderBytes(b, prev), HeaderSection(bs[1..], next);
      assert HeaderSection(bs, prev) + tail == first + (rest + tail);
      OneHeaderTaken(b, prev, rest + tail, total);
      HeadersTaken(bs[1..], next, tail, total + |BlockPayload(b)|);
      assert LastRel(bs, prev) == LastRel(bs[1..], next);
      PrependMore(HeaderOf(b), HeadersOf(bs[1..], next),
                  TakeHeaders(tail, total + |DataSection(bs, prev)|, 0, 0, LastRel(bs, prev)));
    }
  }

  lemma PrependMore(h: BlockHeader, hs: seq<BlockHeader>, t: Option<Headers>)
    ensures AddBlock(h, Prepend(hs, t)) == Prepend([h] + hs, t)
  {
    if t.Some? {
      assert [h] + (hs + t.value.blocks) == [h] + hs + t.value.blocks;
    }
  }

  lemma NoSections(prev: Option<Rel>)
    ensures BlocksOk([], prev) && HeaderSection([], prev) == [] && DataSection([], prev) == [] && HeadersOf([], prev) == []
    ensures ParsedBlocks([], prev) == []
  {
  }

  lemma PrependNothing(h: Option<Headers>)
    ensures Prepend([], h) == h
  {
    assert h.Some? ==> [] + h.value.blocks == h.value.blocks;
  }

  lemma SectionsUnfold(bs: seq<BlockSpec>, prev: Option<Rel>)
    requires BlocksOk(bs, prev) && bs != []
    ensures BlockOk(bs[0], prev) && BlocksOk(bs[1..], Some(bs[0].rel))
    ensures var b, next := bs[0], Some(bs[0].rel);
            && HeaderSection(bs, prev) == [b.id as byte] + BlockHeaderBytes(b, prev) + HeaderSection(bs[1..], next)
            && DataSection(bs, prev) == BlockPayload(b) + DataSection(bs[1..], next)
            && HeadersOf(bs, prev) == [HeaderOf(b)] + HeadersOf(bs[1..], next)
            && ParsedBlocks(bs, prev) == [ParsedBlock(b)] + ParsedBlocks(bs[1..], next)
  {
    hide BlockHeaderBytes, BlockPayload, ImageOk, HeaderOf, ParsedBlock;
  }

  /** What follows the block headers: the optional entries and the main-data header, up to the data section. */
  lemma TailTaken(s: Spec, data: Bytes, prev: Option<Rel>)
    requires SpecOk(s)
    ensures exists mains :: TakeHeaders(Extras(s) + (MainHeader(s.main) + (data + s.main)), |data|, 0, 0, prev)
                         == Some(Headers([], |s.main|, mains, data + s.main))
  {
    hide BlocksOk;
    var end := data + s.main;
    var main := MainHeader(s.main) + end;
    var top := (if s.topXid.Some? then [TOPLEVEL_XID as byte] + s.topXid.value else []) + main;
    MainTaken(s.main, data, prev);
    assert Extras(s) + main == (if s.origin.Some? then [ORIGIN as byte] + s.origin.value + top else top);
    if s.main == [] && s.origin.None? && s.topXid.None? {
    } else {
      SkipEntry(TOPLEVEL_XID, s.topXid, 4, main, |data|, prev);
      SkipEntry(ORIGIN, s.origin, 2, top, |data|, prev);
    }
  }

  lemma SkipEntry(id: nat, entry: Option<Bytes>, n: nat, more: Bytes, total: nat, prev: Option<Rel>)
    requires (id == TOPLEVEL_XID && n == 4) || (id == ORIGIN && n == 2)
    requires |more| >= total && (entry.Some? ==> |entry.value| == n)
    ensures var b := (if entry.Some? then [id as byte] + entry.value else []) + more;
            TakeHeaders(b, total, 0, 0, prev) == TakeHeaders(more, total, 0, 0, prev)
  {
    hide TakeBlockHeader, Get;
    if entry.Some? {
      var b := [id as byte] + entry.value + more;
      assert b[1 + n..] == more;
    } else {
      assert [] + more == more;
    }
  }

  lemma MainTaken(main: Bytes, data: Bytes, prev: Option<Rel>)
    requires |main| < 0x1_0000_0000
    ensures exists mains :: TakeHeaders(MainHeader(main) + (data + main), |data|, 0, 0, prev)
                         == Some(Headers([], |main|, mains, data + main))
  {
    hide TakeBlockHeader, Get, Put;
    var end := data + main;
    var b := MainHeader(main) + end;
    if main == [] {
      assert b == end && |end| == |data|;
      assert TakeHeaders(b, |data|, 0, 0, prev) == Some(Headers([], |main|, 0, end));
    } else if |main| > 255 {
      Widths();
      GetPut(|main|, 4);
      assert b[1..5] == Put(|main|, 4) && b[5..] == end;
      assert TakeHeaders(b, |data|, 0, 0, prev) == TakeHeaders(end, |data| + |main|, |main|, 1, prev);
    } else {
      assert b[2..] == end && b[1] as nat == |main|;
      assert TakeHeaders(b, |data|, 0, 0, prev) == TakeHeaders(end, |data| + |main|, |main|, 1, prev);
    }
  }

  lemma BlockTaken(b: BlockSpec, more: Bytes)
    requires b.image.Some? ==> ImageOk(b.image.value)
    ensures PayloadLen(HeaderOf(b)) == |BlockPayload(b)|
    ensures BlockOf(HeaderOf(b), BlockPayload(b) + more) == ParsedBlock(b)
  {
    hide ImageBytes, ImageInfo;
    PayloadSize(b);
    var all := BlockPayload(b) + more;
    if b.image.Some? {
      var i := ImageBytes(b.image.value);
      assert all[..|i|] == i && all[|i|..|i| + |b.data|] == b.data;
    } else {
      assert all[..|b.data|] == b.data;
    }
  }

  lemma PayloadUnfolds(b: Bytes, h: BlockHeader, hs: seq<BlockHeader>)
    requires PayloadLen(h) <= |b|
    ensures var p := TakePayload(b[PayloadLen(h)..], hs);
            TakePayload(b, [h] + hs) == if p.None? then None else Some(p.value.(blocks := [BlockOf(h, b)] + p.value.blocks))
  {
    hide BlockOf, PayloadLen;
    assert ([h] + hs)[1..] == hs;
  }

  lemma {:induction false} PayloadTaken(bs: seq<BlockSpec>, prev: Option<Rel>, more: Bytes)
    requires BlocksOk(bs, prev)
    ensures TakePayload(DataSection(bs, prev) + more, HeadersOf(bs, prev)) == Some(Payload(ParsedBlocks(bs, prev), more))
    decreases |bs|
  {
    hide BlockPayload, HeaderOf, ParsedBlock, BlockOf, PayloadLen, ImageOk;
    if bs == [] {
      assert DataSection(bs, prev) + more == more;
    } else {
      SectionsUnfold(bs, prev);
      PayloadTaken(bs[1..], Some(bs[0].rel), more);
      PayloadStep(bs[0], DataSection(bs[1..], Some(bs[0].rel)), HeadersOf(bs[1..], Some(bs[0].rel)),
                  ParsedBlocks(bs[1..], Some(bs[0].rel)), more);
    }
  }

  lemma PayloadStep(b: BlockSpec, data: Bytes, hs: seq<BlockHeader>, ps: seq<BlockRef>, more: Bytes)
    requires b.image.Some? ==> ImageOk(b.image.value)
    requires TakePayload(data + more, hs) == Some(Payload(ps, more))
    ensures TakePayload(BlockPayload(b) + data + more, [HeaderOf(b)] + hs) == Some(Payload([ParsedBlock(b)] + ps, more))
  {
    hide TakePayload, BlockPayload, HeaderOf, ParsedBlock, BlockOf, PayloadLen, ImageOk;
    BlockTaken(b, data + more);
    var all := BlockPayload(b) + data + more;
    assert all == BlockPayload(b) + (data + more);
    assert all[|BlockPayload(b)|..] == data + more;
    PayloadUnfolds(all, HeaderOf(b), hs);
  }

  lemma FixedFields(s: Spec, total: nat, crc: Bytes, body: Bytes)
    requires s.xid < 0x1_0000_0000 && s.rmid < 256 && s.info < 256 && |crc| == 4
    ensures var rec := Fixed(s, total) + crc + body;
            && |rec| >= HEADER && rec[HEADER..] == body && rec[0..20] == Fixed(s, total) && rec[20..24] == crc
            && Get(rec[4..8]) == s.xid && rec[16] as nat == s.info && rec[17] as nat == s.rmid
  {
    hide Get, Put;
    Widths();
    GetPut(s.xid, 4);
    var rec := Fixed(s, total) + crc + body;
    assert rec[4..8] == Put(s.xid, 4);
  }

  /** Parsing a built record returns exactly its fields: every block's relation, image and data, and the main data. */
  lemma ParseInvertsBuild(s: Spec, crc: Crc)
    requires SpecOk(s) && forall b, h :: |crc(b, h)| == 4
    ensures Parsed(Build(s, crc), crc) == Some(Rec(s.xid, s.rmid, s.info, ParsedBlocks(s.blocks, None), s.main))
  {
    hide Get, Put, Fixed, TakeHeaders, TakePayload, HeaderSection, DataSection, HeadersOf, ParsedBlocks, BlocksOk, Extras, MainHeader;
    var body, data := Body(s), DataSection(s.blocks, None);
    var fixed := Fixed(s, HEADER + |body|);
    FixedFields(s, HEADER + |body|, crc(body, fixed), body);
    var tail := Extras(s) + (MainHeader(s.main) + (data + s.main));
    HeadersTaken(s.blocks, None, tail, 0);
    TailTaken(s, data, LastRel(s.blocks, None));
    var mains :| TakeHeaders(tail, |data|, 0, 0, LastRel(s.blocks, None)) == Some(Headers([], |s.main|, mains, data + s.main));
    assert HeadersOf(s.blocks, None) + [] == HeadersOf(s.blocks, None);
    PayloadTaken(s.blocks, None, s.main);
    assert s.main[..|s.main|] == s.main;
  }

  // ---- Any accepted record --------------------------------------------------------------

  function Announced(hs: seq<BlockHeader>): nat
    decreases |hs|
  {
    if hs == [] then 0 else PayloadLen(hs[0]) + Announced(hs[1..])
  }

  /** The lengths the main-data headers of a header section announce, in order. */
  function MainsOf(b: Bytes, total: nat, prev: Option<Rel>): seq<nat>
    decreases |b|
  {
    if |b| <= total then []
    else if b[0] as nat == DATA_SHORT then if |b| < 2 then [] else [b[1] as nat] + MainsOf(b[2..], total + b[1] as nat, prev)
    else if b[0] as nat == DATA_LONG then if |b| < 5 then [] else [Get(b[1..5])] + MainsOf(b[5..], total + Get(b[1..5]), prev)
    else if b[0] as nat == ORIGIN then if |b| < 3 then [] else MainsOf(b[3..], total, prev)
    else if b[0] as nat == TOPLEVEL_XID then if |b| < 5 then [] else MainsOf(b[5..], total, prev)
    else
      var t := TakeBlockHeader(b[1..], b[0] as nat, prev);
      if t.Short? then [] else MainsOf(b[1 + t.size..], total + PayloadLen(t.value), Some(t.value.rel))
  }

  function Sum(ns: seq<nat>): nat
    decreases |ns|
  {
    if ns == [] then 0 else ns[0] + Sum(ns[1..])
  }

  /** What is left for the data section, against what the headers from here on, with main lengths `ms`, announced. */
  ghost predicate Accounts(b: Bytes, total: nat, mainLen: nat, ms: seq<nat>, h: Headers) {
    && |h.rest| <= |b| && h.rest == b[|b| - |h.rest|..]
    && h.mainLen == (if ms == [] then mainLen else ms[|ms| - 1])
    && |h.rest| <= total + Announced(h.blocks) + Sum(ms)
  }

  lemma AccountsMain(b: Bytes, n: nat, total: nat, mainLen: nat, ms: seq<nat>, len: nat, h: Headers)
    requires n <= |b| && Accounts(b[n..], total + len, len, ms, h)
    ensures Accounts(b, total, mainLen, [len] + ms, h)
  {
    assert ([len] + ms)[1..] == ms;
  }

  lemma AccountsSkip(b: Bytes, n: nat, total: nat, mainLen: nat, ms: seq<nat>, h: Headers)
    requires n <= |b| && Accounts(b[n..], total, mainLen, ms, h)
    ensures Accounts(b, total, mainLen, ms, h)
  {
  }

  lemma AccountsBlock(b: Bytes, n: nat, total: nat, mainLen: nat, ms: seq<nat>, t: BlockHeader, h: Headers)
    requires n <= |b| && Accounts(b[n..], total + PayloadLen(t), mainLen, ms, h)
    ensures Accounts(b, total, mainLen, ms, h.(blocks := [t] + h.blocks))
  {
    hide PayloadLen;
    assert ([t] + h.blocks)[1..] == h.blocks;
  }

  /** The header section by the kind of its first entry. */
  lemma HeadersUnfold(b: Bytes, total: nat, mainLen: nat, mains: nat, prev: Option<Rel>)
    requires TakeHeaders(b, total, mainLen, mains, prev).Some?
    ensures var h := TakeHeaders(b, total, mainLen, mains, prev);
            if |b| <= total then h == Some(Headers([], mainLen, mains, b))
            else if b[0] as nat == DATA_SHORT then |b| >= 2 && h == TakeHeaders(b[2..], total + b[1] as nat, b[1] as nat, mains + 1, prev)
            else if b[0] as nat == DATA_LONG then
              |b| >= 5 && h == TakeHeaders(b[5..], total + Get(b[1..5]), Get(b[1..5]), mains + 1, prev)
            else if b[0] as nat == ORIGIN then |b| >= 3 && h == TakeHeaders(b[3..], total, mainLen, mains, prev)
            else if b[0] as nat == TOPLEVEL_XID then |b| >= 5 && h == TakeHeaders(b[5..], total, mainLen, mains, prev)
            else
              var t := TakeBlockHeader(b[1..], b[0] as nat, prev);
              t.Took? && var r := TakeHeaders(b[1 + t.size..], total + PayloadLen(t.value), mainLen, mains, Some(t.value.rel));
                         r.Some? && h == Some(r.value.(blocks := [t.value] + r.value.blocks))
  {
    hide TakeBlockHeader, Get, PayloadLen;
  }

  lemma MainsUnfold(b: Bytes, total: nat, prev: Option<Rel>)
    requires |b| > total
    ensures b[0] as nat == DATA_SHORT && |b| >= 2 ==> MainsOf(b, total, prev) == [b[1] as nat] + MainsOf(b[2..], total + b[1] as nat, prev)
    ensures b[0] as nat == DATA_LONG && |b| >= 5 ==>
              MainsOf(b, total, prev) == [Get(b[1..5])] + MainsOf(b[5..], total + Get(b[1..5]), prev)
    ensures b[0] as nat == ORIGIN && |b| >= 3 ==> MainsOf(b, total, prev) == MainsOf(b[3..], total, prev)
    ensures b[0] as nat == TOPLEVEL_XID && |b| >= 5 ==> MainsOf(b, total, prev) == MainsOf(b[5..], total, prev)
    ensures var t := TakeBlockHeader(b[1..], b[0] as nat, prev);
            b[0] as nat !in {DATA_SHORT, DATA_LONG, ORIGIN, TOPLEVEL_XID} && t.Took? ==>
              MainsOf(b, total, prev) == MainsOf(b[1 + t.size..], total + PayloadLen(t.value), Some(t.value.rel))
  {
    hide TakeBlockHeader, Get, PayloadLen;
  }

  lemma {:induction false} HeadersAccount(b: Bytes, total: nat, mainLen: nat, mains: nat, prev: Option<Rel>)
    requires TakeHeaders(b, total, mainLen, mains, prev).Some?
    ensures Accounts(b, total, mainLen, MainsOf(b, total, prev), TakeHeaders(b, total, mainLen, mains, prev).value)
    decreases |b|
  {
    hide TakeBlockHeader, TakeHeaders, Get, PayloadLen, Accounts, MainsOf;
    HeadersUnfold(b, total, mainLen, mains, prev);
    var h := TakeHeaders(b, total, mainLen, mains, prev).value;
    if |b| <= total {
      AccountsDone(b, total, mainLen, mains, prev);
    } else {
      MainsUnfold(b, total, prev);
      if b[0] as nat == DATA_SHORT {
        HeadersAccount(b[2..], total + b[1] as nat, b[1] as nat, mains + 1, prev);
        AccountsMain(b, 2, total, mainLen, MainsOf(b[2..], total + b[1] as nat, prev), b[1] as nat, h);
      } else if b[0] as nat == DATA_LONG {
        HeadersAccount(b[5..], total + Get(b[1..5]), Get(b[1..5]), mains + 1, prev);
        AccountsMain(b, 5, total, mainLen, MainsOf(b[5..], total + Get(b[1..5]), prev), Get(b[1..5]), h);
      } else if b[0] as nat == ORIGIN {
        HeadersAccount(b[3..], total, mainLen, mains, prev);
        AccountsSkip(b, 3, total, mainLen, MainsOf(b, total, prev), h);
      } else if b[0] as nat == TOPLEVEL_XID {
        HeadersAccount(b[5..], total, mainLen, mains, prev);
        AccountsSkip(b, 5, total, mainLen, MainsOf(b, total, prev), h);
      } else {
        var t := TakeBlockHeader(b[1..], b[0] as nat, prev);
        var rest, n := b[1 + t.size..], total + PayloadLen(t.value);
        HeadersAccount(rest, n, mainLen, mains, Some(t.value.rel));
        AccountsBlock(b, 1 + t.size, total, mainLen, MainsOf(b, total, prev), t.value, TakeHeaders(rest, n, mainLen, mains, Some(t.value.rel)).value);
      }
    }
  }

  lemma AccountsDone(b: Bytes, total: nat, mainLen: nat, mains: nat, prev: Option<Rel>)
    requires |b| <= total
    ensures MainsOf(b, total, prev) == [] && Accounts(b, total, mainLen, [], Headers([], mainLen, mains, b))
  {
  }

  function ImageData(b: BlockRef): Bytes {
    if b.image.Some? then b.image.value.data else []
  }

  function SectionsOf(bs: seq<BlockRef>): Bytes
    decreases |bs|
  {
    if bs == [] then [] else ImageData(bs[0]) + bs[0].data + SectionsOf(bs[1..])
  }

  lemma BlockSections(h: BlockHeader, b: Bytes)
    requires PayloadLen(h) <= |b|
    ensures ImageData(BlockOf(h, b)) + BlockOf(h, b).data == b[..PayloadLen(h)]
  {
  }

  lemma NoBlocks()
    ensures SectionsOf([]) == []
  {
  }

  lemma MoreSections(b: BlockRef, bs: seq<BlockRef>)
    ensures SectionsOf([b] + bs) == ImageData(b) + b.data + SectionsOf(bs)
  {
    assert ([b] + bs)[1..] == bs;
  }

  lemma {:induction false} PayloadPartition(b: Bytes, hs: seq<BlockHeader>)
    requires TakePayload(b, hs).Some?
    ensures var p := TakePayload(b, hs).value;
            b == SectionsOf(p.blocks) + p.rest && |p.blocks| == |hs| && |b| == Announced(hs) + |p.rest|
    decreases |hs|
  {
    hide BlockOf, PayloadLen, ImageData, SectionsOf;
    NoBlocks();
    if hs != [] {
      var n := PayloadLen(hs[0]);
      PayloadPartition(b[n..], hs[1..]);
      BlockSections(hs[0], b);
      var first, q := BlockOf(hs[0], b), TakePayload(b[n..], hs[1..]).value;
      MoreSections(first, q.blocks);
      Rejoined(b, n, ImageData(first) + first.data, SectionsOf(q.blocks), q.rest);
    }
  }

  lemma Rejoined(b: Bytes, n: nat, first: Bytes, more: Bytes, rest: Bytes)
    requires n <= |b| && b[..n] == first && b[n..] == more + rest
    ensures b == first + more + rest && |b| == n + |more| + |rest|
  {
    assert b == b[..n] + b[n..];
  }

  /** A record's header section, as the parser takes it. */
  function SectionOf(rec: Bytes): (h: Option<Headers>)
    requires |rec| >= HEADER
    ensures h.Some? ==> |h.value.rest| <= |rec| - HEADER
  {
    var h := TakeHeaders(rec[HEADER..], 0, 0, 0, None);
    if h.Some? then
      HeadersAccount(rec[HEADER..], 0, 0, 0, None);
      h
    else h
  }

  function MainLengths(rec: Bytes): seq<nat>
    requires |rec| >= HEADER
  {
    MainsOf(rec[HEADER..], 0, None)
  }

  /** What the main-data headers before the last one announce. */
  function Superseded(ms: seq<nat>): nat {
    if ms == [] then 0 else Sum(ms[..|ms| - 1])
  }

  /** How far the last header reaches into the bytes announced as data. */
  function Overrun(rec: Bytes): int
    requires |rec| >= HEADER && SectionOf(rec).Some?
  {
    Announced(SectionOf(rec).value.blocks) + Sum(MainLengths(rec)) - |SectionOf(rec).value.rest|
  }

  lemma {:induction false} SumSplits(ms: seq<nat>)
    requires ms != []
    ensures Sum(ms) == Sum(ms[..|ms| - 1]) + ms[|ms| - 1]
    decreases |ms|
  {
    if |ms| > 1 {
      SumSplits(ms[1..]);
      assert ms[..|ms| - 1][1..] == ms[1..][..|ms| - 2];
    } else {
      assert ms[..0] == [] && ms[1..] == [];
    }
  }

  lemma {:induction false} SumOfZeros(ms: seq<nat>)
    ensures Sum(ms) == 0 <==> forall i :: 0 <= i < |ms| ==> ms[i] == 0
    decreases |ms|
  {
    if ms != [] {
      SumOfZeros(ms[1..]);
      assert forall i :: 0 < i < |ms| ==> ms[i] == ms[1..][i - 1];
    }
  }

  /**
   Every accepted record is its header section, then the blocks' images and data in order, then the main data, then
   what no section reads: exactly the bytes announced by main-data headers before the last one, less those the header
   section itself ran over. So the sections cover the record if and only if those two are equal.
   */
  lemma AcceptedIsPartition(rec: Bytes, crc: Crc)
    requires Parsed(rec, crc).Some?
    ensures |rec| >= HEADER && SectionOf(rec).Some? && 0 <= Overrun(rec) <= Superseded(MainLengths(rec))
    ensures var r, h := Parsed(rec, crc).value, SectionOf(rec).value;
            var front := |rec| - |h.rest|;
            var read := rec[..front] + SectionsOf(r.blocks) + r.mainData;
            && HEADER <= front && |r.blocks| == |h.blocks| && read <= rec
            && |rec| - |read| == Superseded(MainLengths(rec)) - Overrun(rec)
            && (read == rec <==> Superseded(MainLengths(rec)) == Overrun(rec))
  {
    hide TakeHeaders, TakePayload, Get, MainsOf, Sum, Announced;
    var body, ms := rec[HEADER..], MainLengths(rec);
    HeadersAccount(body, 0, 0, 0, None);
    var h := SectionOf(rec).value;
    PayloadPartition(h.rest, h.blocks);
    var p := TakePayload(h.rest, h.blocks).value;
    SumOf(ms);
    var main := p.rest[..h.mainLen];
    assert h.rest == rec[|rec| - |h.rest|..];
    assert rec == rec[..|rec| - |h.rest|] + h.rest;
    assert h.rest == SectionsOf(p.blocks) + (main + p.rest[h.mainLen..]);
    var read := rec[..|rec| - |h.rest|] + SectionsOf(p.blocks) + main;
    assert rec == read + p.rest[h.mainLen..];
  }

  lemma SumOf(ms: seq<nat>)
    ensures Sum(ms) == Superseded(ms) + if ms == [] then 0 else ms[|ms| - 1]
  {
    if ms != [] {
      SumSplits(ms);
    }
  }

  /**
   In particular, where the header section ends exactly at the announced data, the sections cover the record if and
   only if every main-data header but the last announces nothing.
   */
  lemma CoveredExactlyWhen(rec: Bytes, crc: Crc)
    requires Parsed(rec, crc).Some? && |rec| >= HEADER && SectionOf(rec).Some? && Overrun(rec) == 0
    ensures var r, ms := Parsed(rec, crc).value, MainLengths(rec);
            rec[..|rec| - |SectionOf(rec).value.rest|] + SectionsOf(r.blocks) + r.mainData == rec
            <==> forall i :: 0 <= i < |ms| - 1 ==> ms[i] == 0
  {
    AcceptedIsPartition(rec, crc);
    var ms := MainLengths(rec);
    if ms != [] {
      SumOfZeros(ms[..|ms| - 1]);
      assert forall i :: 0 <= i < |ms| - 1 ==> ms[..|ms| - 1][i] == ms[i];
    }
  }

  /** A record of this body alone, with its checksum. */
  function Sealed(body: Bytes, crc: Crc): Bytes {
    var head := Zeros(20);
    head + crc(body, head) + body
  }

  lemma TwoHeaders()
    ensures var body: Bytes := [255, 1, 255, 1, 7, 8];
            TakeHeaders(body, 0, 0, 0, None) == Some(Headers([], 1, 2, [7, 8])) && MainsOf(body, 0, None) == [1, 1]
  {
    var body: Bytes := [255, 1, 255, 1, 7, 8];
    var mid: Bytes := [255, 1, 7, 8];
    var end: Bytes := [7, 8];
    assert body[2..] == mid && mid[2..] == end;
    assert TakeHeaders(end, 2, 1, 2, None) == Some(Headers([], 1, 2, end));
    assert TakeHeaders(mid, 1, 1, 1, None) == TakeHeaders(end, 2, 1, 2, None);
    assert TakeHeaders(body, 0, 0, 0, None) == TakeHeaders(mid, 1, 1, 1, None);
    assert MainsOf(end, 2, None) == [] && MainsOf(mid, 1, None) == [1] && MainsOf(body, 0, None) == [1] + [1];
  }

  /** Such a record, whatever the checksum function: accepted, with two main-data headers of one byte and one byte unread. */
  lemma TwoMainsLoseBytes(crc: Crc)
    requires forall b, h :: |crc(b, h)| == 4
    ensures var rec := Sealed([255, 1, 255, 1, 7, 8], crc);
            && Parsed(rec, crc).Some? && |rec| >= HEADER && SectionOf(rec).Some? && Overrun(rec) == 0
            && MainLengths(rec) == [1, 1] && Parsed(rec, crc).value.mainData == [7]
  {
    hide TakeHeaders, MainsOf, Get;
    var body: Bytes := [255, 1, 255, 1, 7, 8];
    var rec := Sealed(body, crc);
    assert rec[HEADER..] == body && rec[0..20] == Zeros(20) && rec[20..24] == crc(body, Zeros(20));
    TwoHeaders();
    assert TakePayload([7, 8], []) == Some(Payload([], [7, 8]));
    assert Sum([1, 1]) == 2 by { assert [1, 1][1..] == [1] && [1][1..] == []; }
  }

  lemma OverrunningHeaders()
    ensures var body: Bytes := [255, 1, 255, 1, 7];
            TakeHeaders(body, 0, 0, 0, None) == Some(Headers([], 1, 2, [7])) && MainsOf(body, 0, None) == [1, 1]
  {
    var body: Bytes := [255, 1, 255, 1, 7];
    var mid: Bytes := [255, 1, 7];
    var end: Bytes := [7];
    assert body[2..] == mid && mid[2..] == end;
    assert TakeHeaders(end, 2, 1, 2, None) == Some(Headers([], 1, 2, end));
    assert TakeHeaders(mid, 1, 1, 1, None) == TakeHeaders(end, 2, 1, 2, None);
    assert TakeHeaders(body, 0, 0, 0, None) == TakeHeaders(mid, 1, 1, 1, None);
    assert MainsOf(end, 2, None) == [] && MainsOf(mid, 1, None) == [1] && MainsOf(body, 0, None) == [1] + [1];
  }

  /** And one whose second header takes up the byte the first announced: accepted, and every byte is read. */
  lemma OverrunCovers(crc: Crc)
    requires forall b, h :: |crc(b, h)| == 4
    ensures var rec := Sealed([255, 1, 255, 1, 7], crc);
            && Parsed(rec, crc).Some? && |rec| >= HEADER && SectionOf(rec).Some? && Overrun(rec) == 1
            && MainLengths(rec) == [1, 1] && Parsed(rec, crc).value.mainData == [7]
            && rec[..|rec| - |SectionOf(rec).value.rest|] + SectionsOf(Parsed(rec, crc).value.blocks) + [7] == rec
  {
    hide TakeHeaders, MainsOf, Get;
    var body: Bytes := [255, 1, 255, 1, 7];
    var rec := Sealed(body, crc);
    assert rec[HEADER..] == body && rec[0..20] == Zeros(20) && rec[20..24] == crc(body, Zeros(20));
    OverrunningHeaders();
    assert TakePayload([7], []) == Some(Payload([], [7]));
    assert Sum([1, 1]) == 2 by { assert [1, 1][1..] == [1] && [1][1..] == []; }
  }
}
