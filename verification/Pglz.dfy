/**
 PGLZ decompression (src/wal/heap.rs `pglz_decompress`): control bytes, literals and back-references that may overlap
 their own output.
 */
module Pglz {
  import opened Base

  // ---- LZ77 -----------------------------------------------------------------------------

  datatype Token = Literal(b: byte) | Back(off: nat, len: nat)

  /** Append `n` bytes, each equal to the one `off` earlier. */
  function CopyBack(out: Bytes, off: nat, n: nat): (r: Bytes)
    requires 0 < off <= |out|
    ensures |r| == |out| + n && r[..|out|] == out
    ensures forall k :: |out| <= k < |r| ==> r[k] == r[k - off]
    decreases n
  {
    if n == 0 then out else CopyBack(out + [out[|out| - off]], off, n - 1)
  }

  predicate Fits(t: Token, have: nat) {
    t.Back? ==> 1 <= t.off <= 4095 && t.off <= have && 3 <= t.len <= 273
  }

  function Grow(out: Bytes, t: Token): (r: Bytes)
    requires Fits(t, |out|)
    ensures |out| < |r| && r[..|out|] == out
  {
    match t
    case Literal(b) => out + [b]
    case Back(off, len) => CopyBack(out, off, len)
  }

  predicate Valid(out: Bytes, ts: seq<Token>)
    decreases |ts|
  {
    ts == [] || (Fits(ts[0], |out|) && Valid(Grow(out, ts[0]), ts[1..]))
  }

  /** The LZ77 expansion of `ts` after `out`. */
  function Expand(out: Bytes, ts: seq<Token>): (r: Bytes)
    requires Valid(out, ts)
    ensures |out| <= |r| && r[..|out|] == out
    decreases |ts|
  {
    if ts == [] then out
    else
      var next := Grow(out, ts[0]);
      var r := Expand(next, ts[1..]);
      assert r[..|out|] == r[..|next|][..|out|];
      r
  }

  // ---- The wire form --------------------------------------------------------------------

  function Item(t: Token): Bytes
    requires Fits(t, 4095)
  {
    match t
    case Literal(b) => [b]
    case Back(off, len) =>
      if len < 18 then [((off / 256) * 16 + len - 3) as byte, (off % 256) as byte]
      else [((off / 256) * 16 + 15) as byte, (off % 256) as byte, (len - 18) as byte]
  }

  predicate Encodable(ts: seq<Token>) {
    forall i :: 0 <= i < |ts| ==> Fits(ts[i], 4095)
  }

  function Items(ts: seq<Token>): Bytes
    requires Encodable(ts)
    decreases |ts|
  {
    if ts == [] then [] else Item(ts[0]) + Items(ts[1..])
  }

  function Pow2(n: nat): (p: nat)
    ensures p > 0
  {
    if n == 0 then 1 else 2 * Pow2(n - 1)
  }

  /** Bit `i` says whether item `i` is a back-reference. */
  function Control(ts: seq<Token>): (c: nat)
    ensures c < Pow2(|ts|)
    decreases |ts|
  {
    if ts == [] then 0 else (if ts[0].Back? then 1 else 0) + 2 * Control(ts[1..])
  }

  lemma Pow2Mono(a: nat, b: nat)
    requires a <= b
    ensures Pow2(a) <= Pow2(b)
    decreases b - a
  {
    if a < b { Pow2Mono(a, b - 1); }
  }

  function ControlByte(g: seq<Token>): (b: byte)
    requires |g| <= 8
    ensures b as nat == Control(g)
  {
    Pow2Mono(|g|, 8);
    assert Pow2(8) == 256 by { assert Pow2(4) == 16; }
    Control(g) as byte
  }

  /** A control byte before every eight items. */
  function Encode(ts: seq<Token>): Bytes
    requires Encodable(ts)
    decreases |ts|
  {
    if ts == [] then []
    else
      var g := ts[..Min(8, |ts|)];
      [ControlByte(g)] + (Items(g) + Encode(ts[|g|..]))
  }

  // ---- Decompression --------------------------------------------------------------------

  predicate Bit(ctrl: nat, i: nat) {
    if i == 0 then ctrl % 2 == 1 else Bit(ctrl / 2, i - 1)
  }

  datatype Read = Truncated | Read(off: nat, len: nat, size: nat)

  /** The back-reference at the front of `rest`. */
  function ReadBack(rest: Bytes): (r: Read)
    ensures r.Read? ==> 2 <= r.size <= |rest| && 3 <= r.len <= 273 && r.off <= 4095
  {
    if |rest| < 2 then Truncated
    else
      var len, off := rest[0] as nat % 16 + 3, (rest[0] as nat / 16) * 256 + rest[1] as nat;
      if len != 18 then Read(off, len, 2)
      else if |rest| < 3 then Truncated
      else Read(off, 18 + rest[2] as nat, 3)
  }

  function Finish(out: Bytes, rawsize: nat): Option<Bytes> {
    if |out| == rawsize then Some(out) else None
  }

  /** What both loops do from item `bit` of a group on; `bit == 8` stands between groups. */
  function Run(rest: Bytes, ctrl: nat, bit: nat, out: Bytes, rawsize: nat): Option<Bytes>
    requires bit <= 8
    decreases |rest|
  {
    if rest == [] || |out| >= rawsize then Finish(out, rawsize)
    else if bit == 8 then Run(rest[1..], rest[0] as nat, 0, out, rawsize)
    else if Bit(ctrl, bit) then
      var b := ReadBack(rest);
      if b.Truncated? || b.off == 0 || b.off > |out| then None
      else Run(rest[b.size..], ctrl, bit + 1, CopyBack(out, b.off, Min(b.len, rawsize - |out|)), rawsize)
    else Run(rest[1..], ctrl, bit + 1, out + [rest[0]], rawsize)
  }

  function Decompressed(src: Bytes, rawsize: nat): Option<Bytes> {
    Run(src, 0, 8, [], rawsize)
  }

  /** Where the item loop stops, the control byte no longer matters. */
  lemma BetweenGroups(rest: Bytes, ctrl: nat, bit: nat, out: Bytes, rawsize: nat)
    requires bit <= 8 && (bit == 8 || rest == [] || |out| >= rawsize)
    ensures Run(rest, ctrl, bit, out, rawsize) == Run(rest, 0, 8, out, rawsize)
  {
  }

  method CopyLoop(start: Bytes, off: nat, len: nat, rawsize: nat) returns (out: Bytes)
    requires 0 < off <= |start| < rawsize
    ensures out == CopyBack(start, off, Min(len, rawsize - |start|))
  {
    out := start;
    for i := 0 to len
      invariant |start| <= |out| && off <= |out|
      invariant |out| == |start| + Min(i, rawsize - |start|)
      invariant CopyBack(start, off, Min(len, rawsize - |start|)) == CopyBack(out, off, Min(len - i, rawsize - |out|))
    {
      if |out| >= rawsize {
        break;
      }
      out := out + [out[|out| - off]];
    }
  }

  method Decompress(src: Bytes, rawsize: nat) returns (r: Option<Bytes>)
    ensures r == Decompressed(src, rawsize)
  {
    hide CopyBack, Bit;
    var out: Bytes := [];
    var sp := 0;
    ghost var want := Decompressed(src, rawsize);
    assert src[0..] == src;
    while sp < |src| && |out| < rawsize
      invariant 0 <= sp <= |src|
      invariant Run(src[sp..], 0, 8, out, rawsize) == want
      decreases |src| - sp
    {
      ghost var sp0 := sp;
      var ctrl := src[sp] as nat;
      assert src[sp..][1..] == src[sp + 1..];
      sp := sp + 1;
      var bit := 0;
      while bit < 8
        invariant 0 <= bit <= 8 && sp0 < sp <= |src|
        invariant Run(src[sp..], ctrl, bit, out, rawsize) == want
        decreases 8 - bit
      {
        if sp >= |src| || |out| >= rawsize {
          break;
        }
        ghost var rest := src[sp..];
        if Bit(ctrl, bit) {
          if sp + 1 >= |src| {
            return None;
          }
          var len := src[sp] as nat % 16 + 3;
          var off := (src[sp] as nat / 16) * 256 + src[sp + 1] as nat;
          sp := sp + 2;
          if len == 18 {
            if sp >= |src| {
              return None;
            }
            len := len + src[sp] as nat;
            sp := sp + 1;
          }
          assert ReadBack(rest) == Read(off, len, |rest| - (|src| - sp));
          assert rest[ReadBack(rest).size..] == src[sp..];
          if off == 0 || off > |out| {
            return None;
          }
          out := CopyLoop(out, off, len, rawsize);
        } else {
          out := out + [src[sp]];
          sp := sp + 1;
          assert rest[1..] == src[sp..];
        }
        bit := bit + 1;
      }
      BetweenGroups(src[sp..], ctrl, bit, out, rawsize);
    }
    r := Finish(out, rawsize);
  }

  // ---- Decompressing an encoding --------------------------------------------------------

  lemma {:induction false} ControlBit(ts: seq<Token>, i: nat)
    requires i < |ts|
    ensures Bit(Control(ts), i) <==> ts[i].Back?
    decreases |ts|
  {
    var rest := Control(ts[1..]);
    assert Control(ts) / 2 == rest && Control(ts) % 2 == if ts[0].Back? then 1 else 0;
    if i > 0 {
      ControlBit(ts[1..], i - 1);
    }
  }

  lemma ReadItem(t: Token, more: Bytes)
    requires t.Back? && Fits(t, 4095)
    ensures ReadBack(Item(t) + more) == Read(t.off, t.len, |Item(t)|)
  {
    var b := Item(t) + more;
    var hi := t.off / 256;
    assert hi < 16 && t.off == hi * 256 + t.off % 256;
    if t.len < 18 {
      assert b[0] as nat == hi * 16 + (t.len - 3) && b[0] as nat / 16 == hi && b[0] as nat % 16 == t.len - 3;
    } else {
      assert b[0] as nat == hi * 16 + 15 && b[0] as nat / 16 == hi && b[0] as nat % 16 == 15;
    }
  }

  lemma {:induction false} CopyPrefix(out: Bytes, off: nat, n: nat, m: nat)
    requires 0 < off <= |out| && n <= m
    ensures CopyBack(out, off, n) == CopyBack(out, off, m)[..|out| + n]
    decreases n
  {
    if n > 0 {
      CopyPrefix(out + [out[|out| - off]], off, n - 1, m - 1);
    } else {
      assert CopyBack(out, off, m)[..|out|] == out;
    }
  }

  /** A back-reference clipped at `rawsize`: what is left of the expansion starts with the clipped output. */
  lemma Clipped(out: Bytes, t: Token, ts: seq<Token>, rawsize: nat)
    requires t.Back? && Fits(t, |out|) && |out| < rawsize <= |out| + t.len && Valid(Grow(out, t), ts)
    ensures CopyBack(out, t.off, rawsize - |out|) == Expand(Grow(out, t), ts)[..rawsize]
  {
    CopyPrefix(out, t.off, rawsize - |out|, t.len);
    var g, e := Grow(out, t), Expand(Grow(out, t), ts);
    assert e[..rawsize] == e[..|g|][..rawsize];
  }

  /** The bytes are the items of `g`, then the encoding of `later`; the control byte describes `g` from `bit` on. */
  ghost predicate InGroup(rest: Bytes, ctrl: nat, bit: nat, g: seq<Token>, later: seq<Token>) {
    && Encodable(g) && Encodable(later) && rest == Items(g) + Encode(later)
    && bit + |g| <= 8 && (bit + |g| == 8 || later == [])
    && forall i :: 0 <= i < |g| ==> (Bit(ctrl, bit + i) <==> g[i].Back?)
  }

  lemma EncodeUnfolds(ts: seq<Token>)
    requires Encodable(ts) && ts != []
    ensures var g := ts[..Min(8, |ts|)];
            |Encode(ts)| > 0 && Encode(ts)[0] as nat == Control(g) && Encode(ts)[1..] == Items(g) + Encode(ts[|g|..])
  {
    hide Items, Control, ControlByte;
  }

  lemma NextGroup(rest: Bytes, later: seq<Token>)
    requires Encodable(later) && later != [] && rest == Encode(later)
    ensures var g := later[..Min(8, |later|)];
            rest != [] && InGroup(rest[1..], rest[0] as nat, 0, g, later[|g|..])
  {
    hide Encode, Items, Bit, Control;
    EncodeUnfolds(later);
    var g := later[..Min(8, |later|)];
    forall i | 0 <= i < |g| ensures Bit(rest[0] as nat, i) <==> g[i].Back? {
      ControlBit(g, i);
    }
  }

  lemma NextItem(rest: Bytes, ctrl: nat, bit: nat, g: seq<Token>, later: seq<Token>)
    requires InGroup(rest, ctrl, bit, g, later) && g != []
    ensures |Item(g[0])| <= |rest| && rest[..|Item(g[0])|] == Item(g[0])
    ensures InGroup(rest[|Item(g[0])|..], ctrl, bit + 1, g[1..], later)
  {
    hide Encode, Bit, Item;
    assert Items(g) == Item(g[0]) + Items(g[1..]);
    hide Items;
    assert rest == Item(g[0]) + (Items(g[1..]) + Encode(later));
    assert rest[|Item(g[0])|..] == Items(g[1..]) + Encode(later);
    forall i | 0 <= i < |g[1..]| ensures Bit(ctrl, bit + 1 + i) <==> g[1..][i].Back? {
      assert Bit(ctrl, bit + (i + 1)) <==> g[i + 1].Back?;
    }
  }

  /** The items of `rest`, read under the control bits from item `bit` of a group on, up to the first truncated one. */
  function Scan(rest: Bytes, ctrl: nat, bit: nat): seq<Token>
    requires bit <= 8
    decreases |rest|
  {
    if rest == [] then []
    else if bit == 8 then Scan(rest[1..], rest[0] as nat, 0)
    else if Bit(ctrl, bit) then
      var b := ReadBack(rest);
      if b.Truncated? then [] else [Back(b.off, b.len)] + Scan(rest[b.size..], ctrl, bit + 1)
    else [Literal(rest[0])] + Scan(rest[1..], ctrl, bit + 1)
  }

  function TokensOf(src: Bytes): seq<Token> {
    Scan(src, 0, 8)
  }

  lemma ScanUnfolds(rest: Bytes, ctrl: nat, bit: nat)
    requires bit <= 8 && rest != []
    ensures bit == 8 ==> Scan(rest, ctrl, bit) == Scan(rest[1..], rest[0] as nat, 0)
    ensures bit < 8 && !Bit(ctrl, bit) ==> Scan(rest, ctrl, bit) == [Literal(rest[0])] + Scan(rest[1..], ctrl, bit + 1)
    ensures var b := ReadBack(rest);
            bit < 8 && Bit(ctrl, bit) && b.Read? ==> Scan(rest, ctrl, bit) == [Back(b.off, b.len)] + Scan(rest[b.size..], ctrl, bit + 1)
  {
    hide Bit, ReadBack;
  }

  lemma {:induction false} ScanItems(rest: Bytes, ctrl: nat, bit: nat, g: seq<Token>, later: seq<Token>)
    requires bit <= 8 && InGroup(rest, ctrl, bit, g, later)
    ensures Scan(rest, ctrl, bit) == g + later
    decreases |g| + |later|, if g == [] then 1 else 0
  {
    hide Bit, Control, Items, Encode, Scan, ReadBack, Item;
    if g == [] {
      NoItems();
      assert rest == Encode(later);
      if later == [] {
        assert rest == [] by { EncodeNothing(); }
        ScanNothing(ctrl, bit);
      } else {
        NextGroup(rest, later);
        ScanUnfolds(rest, ctrl, bit);
        var h := later[..Min(8, |later|)];
        ScanItems(rest[1..], rest[0] as nat, 0, h, later[|h|..]);
        assert h + later[|h|..] == later;
      }
    } else {
      NextItem(rest, ctrl, bit, g, later);
      var n := |Item(g[0])|;
      ScanItems(rest[n..], ctrl, bit + 1, g[1..], later);
      assert Bit(ctrl, bit + 0) <==> g[0].Back?;
      FirstItem(g[0], rest, ctrl, bit);
      assert g == [g[0]] + g[1..];
    }
  }

  lemma NoItems()
    ensures Items([]) == []
  {
  }

  lemma EncodeNothing()
    ensures Encode([]) == []
  {
  }

  lemma ScanNothing(ctrl: nat, bit: nat)
    requires bit <= 8
    ensures Scan([], ctrl, bit) == []
  {
  }

  lemma FirstItem(t: Token, rest: Bytes, ctrl: nat, bit: nat)
    requires bit < 8 && Fits(t, 4095) && |Item(t)| <= |rest| && rest[..|Item(t)|] == Item(t) && (Bit(ctrl, bit) <==> t.Back?)
    ensures Scan(rest, ctrl, bit) == [t] + Scan(rest[|Item(t)|..], ctrl, bit + 1)
  {
    hide Bit, Scan;
    ScanUnfolds(rest, ctrl, bit);
    if t.Back? {
      ReadItem(t, rest[|Item(t)|..]);
      assert rest == Item(t) + rest[|Item(t)|..];
    }
  }

  /** The wire form reads back as its items. */
  lemma EncodeReadsBack(ts: seq<Token>)
    requires Encodable(ts)
    ensures TokensOf(Encode(ts)) == ts
  {
    var e := Encode(ts);
    assert [] + ts == ts && Items([]) + e == e;
    assert InGroup(e, 0, 8, [], ts);
    ScanItems(e, 0, 8, [], ts);
  }

  // ---- Decompression is the expansion of the items --------------------------------------

  /** The items up to the first that refers back past the start. */
  function ValidPart(out: Bytes, ts: seq<Token>): (r: seq<Token>)
    ensures Valid(out, r) && r <= ts
    ensures Valid(out, ts) ==> r == ts
    decreases |ts|
  {
    if ts == [] || !Fits(ts[0], |out|) then []
    else
      var more := ValidPart(Grow(out, ts[0]), ts[1..]);
      assert ([ts[0]] + more)[1..] == more;
      [ts[0]] + more
  }

  /** What is asked of an expansion: its first `rawsize` bytes, if it has that many. */
  function Want(e: Bytes, rawsize: nat): Option<Bytes> {
    if rawsize <= |e| then Some(e[..rawsize]) else None
  }

  function Expansion(out: Bytes, ts: seq<Token>): (r: Bytes)
    ensures |out| <= |r| && r[..|out|] == out
  {
    Expand(out, ValidPart(out, ts))
  }

  lemma ExpansionUnfolds(out: Bytes, t: Token, ts: seq<Token>)
    ensures Expansion(out, [t] + ts) == if Fits(t, |out|) then Expansion(Grow(out, t), ts) else out
  {
    hide Fits, Grow;
    var all := [t] + ts;
    assert all[0] == t && all[1..] == ts;
    if Fits(t, |out|) {
      var more := ValidPart(Grow(out, t), ts);
      assert ValidPart(out, all) == [t] + more;
      assert ([t] + more)[1..] == more;
    }
  }

  lemma ExpansionOfNothing(out: Bytes)
    ensures Expansion(out, []) == out
  {
  }

  lemma RunUnfolds(rest: Bytes, ctrl: nat, bit: nat, out: Bytes, rawsize: nat)
    requires bit <= 8 && rest != [] && |out| < rawsize
    ensures bit == 8 ==> Run(rest, ctrl, bit, out, rawsize) == Run(rest[1..], rest[0] as nat, 0, out, rawsize)
    ensures bit < 8 && !Bit(ctrl, bit) ==>
              Run(rest, ctrl, bit, out, rawsize) == Run(rest[1..], ctrl, bit + 1, out + [rest[0]], rawsize)
    ensures var b := ReadBack(rest);
            bit < 8 && Bit(ctrl, bit) ==>
              (Run(rest, ctrl, bit, out, rawsize)
               == if b.Truncated? || b.off == 0 || b.off > |out| then None
                  else Run(rest[b.size..], ctrl, bit + 1, CopyBack(out, b.off, Min(b.len, rawsize - |out|)), rawsize))
  {
    hide Bit, CopyBack, ReadBack;
  }

  lemma RunStops(rest: Bytes, ctrl: nat, bit: nat, out: Bytes, rawsize: nat)
    requires bit <= 8 && |out| <= rawsize && (rest == [] || |out| == rawsize)
    ensures Run(rest, ctrl, bit, out, rawsize) == Finish(out, rawsize)
  {
  }

  lemma {:induction false} RunIsExpansion(rest: Bytes, ctrl: nat, bit: nat, out: Bytes, rawsize: nat)
    requires bit <= 8 && |out| <= rawsize
    ensures Run(rest, ctrl, bit, out, rawsize) == Want(Expansion(out, Scan(rest, ctrl, bit)), rawsize)
    decreases |rest|
  {
    hide Run, Scan, Expansion, Bit, ReadBack, CopyBack, Expand, Valid, ValidPart;
    if rest == [] || |out| == rawsize {
      RunStops(rest, ctrl, bit, out, rawsize);
      if |out| < rawsize {
        ScanNothing(ctrl, bit);
        ExpansionOfNothing(out);
      }
    } else {
      RunUnfolds(rest, ctrl, bit, out, rawsize);
      ScanUnfolds(rest, ctrl, bit);
      if bit == 8 {
        RunIsExpansion(rest[1..], rest[0] as nat, 0, out, rawsize);
      } else if Bit(ctrl, bit) {
        RunReference(rest, ctrl, bit, out, rawsize);
      } else {
        RunIsExpansion(rest[1..], ctrl, bit + 1, out + [rest[0]], rawsize);
        ExpansionUnfolds(out, Literal(rest[0]), Scan(rest[1..], ctrl, bit + 1));
      }
    }
  }

  lemma {:induction false} RunReference(rest: Bytes, ctrl: nat, bit: nat, out: Bytes, rawsize: nat)
    requires bit < 8 && rest != [] && |out| < rawsize && Bit(ctrl, bit)
    ensures Run(rest, ctrl, bit, out, rawsize) == Want(Expansion(out, Scan(rest, ctrl, bit)), rawsize)
    decreases |rest|, 0
  {
    hide Run, Scan, Expansion, Bit, ReadBack, CopyBack, Expand, Valid, ValidPart;
    RunUnfolds(rest, ctrl, bit, out, rawsize);
    var b := ReadBack(rest);
    if b.Truncated? {
      ScanTruncated(rest, ctrl, bit);
      ExpansionOfNothing(out);
    } else {
      ScanUnfolds(rest, ctrl, bit);
      var t, more := Back(b.off, b.len), Scan(rest[b.size..], ctrl, bit + 1);
      ExpansionUnfolds(out, t, more);
      if Fits(t, |out|) {
        if |out| + b.len <= rawsize {
          RunIsExpansion(rest[b.size..], ctrl, bit + 1, Grow(out, t), rawsize);
        } else {
          ClippedExpansion(out, t, more, rawsize);
          RunStops(rest[b.size..], ctrl, bit + 1, CopyBack(out, t.off, rawsize - |out|), rawsize);
        }
      }
    }
  }

  lemma ScanTruncated(rest: Bytes, ctrl: nat, bit: nat)
    requires bit < 8 && rest != [] && Bit(ctrl, bit) && ReadBack(rest).Truncated?
    ensures Scan(rest, ctrl, bit) == []
  {
    hide Bit, ReadBack;
  }

  lemma ClippedExpansion(out: Bytes, t: Token, ts: seq<Token>, rawsize: nat)
    requires t.Back? && Fits(t, |out|) && |out| < rawsize <= |out| + t.len
    ensures rawsize <= |Expansion(Grow(out, t), ts)|
    ensures CopyBack(out, t.off, rawsize - |out|) == Expansion(Grow(out, t), ts)[..rawsize]
  {
    Clipped(out, t, ValidPart(Grow(out, t), ts), rawsize);
  }

  /**
   On all bytes: decompression gives the first `rawsize` bytes of the expansion of the items in `src`, as far as they
   refer to bytes already out, and refuses exactly when those are too few.
   */
  lemma DecompressedIsExpansion(src: Bytes, rawsize: nat)
    ensures Decompressed(src, rawsize) == Want(Expansion([], TokensOf(src)), rawsize)
  {
    RunIsExpansion(src, 0, 8, [], rawsize);
  }

  /** Decompressing the wire form of any token list gives its LZ77 expansion, cut at `rawsize`. */
  lemma DecompressIsExpansion(ts: seq<Token>, rawsize: nat)
    requires Encodable(ts) && Valid([], ts)
    ensures Decompressed(Encode(ts), rawsize) == Want(Expand([], ts), rawsize)
  {
    EncodeReadsBack(ts);
    DecompressedIsExpansion(Encode(ts), rawsize);
  }

  // ---- Byte by byte ---------------------------------------------------------------------

  /** Where item `j` starts in the output. */
  function StartOf(out: Bytes, ts: seq<Token>, j: nat): nat
    requires Valid(out, ts) && j <= |ts|
    decreases j
  {
    if j == 0 then |out| else StartOf(Grow(out, ts[0]), ts[1..], j - 1)
  }

  function SizeOf(t: Token): nat {
    if t.Back? then t.len else 1
  }

  ghost predicate Copied(r: Bytes, k: nat, off: nat)
    requires k < |r|
  {
    off <= k && r[k] == r[k - off]
  }

  /** An item's stretch of the output: the literal itself, or bytes each equal to the one `off` earlier. */
  ghost predicate Written(r: Bytes, at: nat, t: Token) {
    && (t.Literal? && at < |r| ==> r[at] == t.b)
    && (t.Back? ==> forall k :: at <= k < at + t.len && k < |r| ==> Copied(r, k, t.off))
  }

  lemma WrittenPrefix(r: Bytes, e: Bytes, at: nat, t: Token)
    requires r <= e && Written(e, at, t)
    ensures Written(r, at, t)
  {
    if t.Back? {
      forall k | at <= k < at + t.len && k < |r| ensures Copied(r, k, t.off) {
        assert Copied(e, k, t.off);
      }
    }
  }

  lemma FirstWritten(out: Bytes, t: Token, e: Bytes)
    requires Fits(t, |out|) && Grow(out, t) <= e
    ensures |out| + SizeOf(t) == |Grow(out, t)| <= |e| && Written(e, |out|, t)
  {
    hide CopyBack;
    var g := Grow(out, t);
    if t.Back? {
      forall k | |out| <= k < |out| + t.len && k < |e| ensures Copied(e, k, t.off) {
        assert g[k] == g[k - t.off];
        assert e[k] == g[k] && e[k - t.off] == g[k - t.off];
      }
    }
  }

  lemma ExpandUnfolds(out: Bytes, ts: seq<Token>)
    requires Valid(out, ts) && ts != []
    ensures Fits(ts[0], |out|) && Valid(Grow(out, ts[0]), ts[1..])
    ensures Expand(out, ts) == Expand(Grow(out, ts[0]), ts[1..]) && Grow(out, ts[0]) <= Expand(out, ts)
  {
  }

  lemma {:induction false} ItemWritten(out: Bytes, ts: seq<Token>, j: nat)
    requires Valid(out, ts) && j < |ts|
    ensures var at := StartOf(out, ts, j);
            at + SizeOf(ts[j]) <= |Expand(out, ts)| && Written(Expand(out, ts), at, ts[j])
    ensures StartOf(out, ts, j + 1) == StartOf(out, ts, j) + SizeOf(ts[j])
    decreases j
  {
    hide Expand, Valid, Grow, Fits, Written, SizeOf;
    ExpandUnfolds(out, ts);
    if j == 0 {
      FirstWritten(out, ts[0], Expand(out, ts));
    } else {
      ItemWritten(Grow(out, ts[0]), ts[1..], j - 1);
    }
  }

  /**
   Hence on success: the output has exactly `rawsize` bytes, the items cover it from the start without a gap, and each
   literal stands at its place and each copied byte equals the one its reference says.
   */
  lemma SuccessIsExpansion(src: Bytes, rawsize: nat, j: nat)
    requires Decompressed(src, rawsize).Some? && j < |ValidPart([], TokensOf(src))|
    ensures |Decompressed(src, rawsize).value| == rawsize
    ensures var ts := ValidPart([], TokensOf(src));
            && StartOf([], ts, 0) == 0 && StartOf([], ts, j + 1) == StartOf([], ts, j) + SizeOf(ts[j])
            && StartOf([], ts, |ts|) >= rawsize
            && Written(Decompressed(src, rawsize).value, StartOf([], ts, j), ts[j])
  {
    hide TokensOf, ValidPart, Decompressed;
    DecompressedIsExpansion(src, rawsize);
    var ts := ValidPart([], TokensOf(src));
    ItemWritten([], ts, j);
    EndOfLast([], ts);
    WrittenPrefix(Decompressed(src, rawsize).value, Expand([], ts), StartOf([], ts, j), ts[j]);
  }

  lemma {:induction false} EndOfLast(out: Bytes, ts: seq<Token>)
    requires Valid(out, ts)
    ensures StartOf(out, ts, |ts|) == |Expand(out, ts)|
    decreases |ts|
  {
    if ts != [] {
      EndOfLast(Grow(out, ts[0]), ts[1..]);
    }
  }
}
