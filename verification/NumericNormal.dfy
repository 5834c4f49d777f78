/**
 When a numeric's stored bytes survive being rendered and encoded again (src/wal/heap.rs `numeric_to_string`, then
 `numeric_from_string`): only the long form does, and only with its groups trimmed.
 */
module NumericNormal {
  import opened Base
  import opened LittleEndian
  import opened Numeric
  import opened NumericValue

  /** The group at base-10000 exponent `q`. */
  function GroupAt(weight: int, groups: seq<nat>, q: int): nat {
    if 0 <= weight - q < |groups| then groups[weight - q] else 0
  }

  ghost predicate NothingBelow(n: Stored) {
    forall e :: e < 0 - n.dscale ==> DigitAt(n.weight, n.groups, e) == 0
  }

  /** Trimmed at both ends, zero in its one form, no digit past the display scale. */
  ghost predicate Normal(n: Stored) {
    && GroupsOk(n.groups) && NothingBelow(n)
    && if n.groups == [] then n.weight == 0 && !n.neg else n.groups[0] != 0 && n.groups[|n.groups| - 1] != 0
  }

  // ---- Storing gives the normal form ----------------------------------------------------

  lemma {:induction false} FrontTrimmed(gs: seq<nat>, weight: int)
    ensures var f := TrimFront(gs, weight).0; |f| > 1 ==> f[0] != 0
    decreases |gs|
  {
    if |gs| > 1 && gs[0] == 0 {
      FrontTrimmed(gs[1..], weight - 1);
    }
  }

  lemma {:induction false} BackTrimmed(gs: seq<nat>)
    ensures var b := TrimBack(gs); b <= gs && (gs != [] ==> b != []) && (|b| > 1 ==> b[|b| - 1] != 0)
    decreases |gs|
  {
    if |gs| > 1 && gs[|gs| - 1] == 0 {
      BackTrimmed(gs[..|gs| - 1]);
    }
  }

  lemma TrimmedEnds(gs: seq<nat>, weight: int)
    ensures var t := TrimBack(TrimFront(gs, weight).0); !AllZero(t) ==> t != [] && t[0] != 0 && t[|t| - 1] != 0
  {
    FrontTrimmed(gs, weight);
    BackTrimmed(TrimFront(gs, weight).0);
    var f := TrimFront(gs, weight).0;
    var t := TrimBack(f);
    if !AllZero(t) {
      assert t[0] == f[0];
    }
  }

  lemma StoreIsNormal(l: Literal)
    requires LiteralOk(l)
    ensures Normal(Store(l))
  {
    hide DigitAt, TrimFront, TrimBack, Groups, Combined, Pad4;
    var n := Store(l);
    StoredGroupsOk(l);
    StoreScale(l);
    forall e | e < 0 - n.dscale ensures DigitAt(n.weight, n.groups, e) == 0 {
      StoreKeepsDigits(l, e);
    }
    CombinedLength(l);
    TrimmedEnds(Groups(Combined(l)), (Pad4(|l.int'|) + |l.int'|) / 4 - 1);
  }

  // ---- The normal form is unique --------------------------------------------------------

  lemma GroupFromDigits(weight: int, groups: seq<nat>, q: int)
    requires GroupsOk(groups)
    ensures GroupAt(weight, groups, q)
         == ((DigitAt(weight, groups, 4 * q + 3) * 10 + DigitAt(weight, groups, 4 * q + 2)) * 10
             + DigitAt(weight, groups, 4 * q + 1)) * 10 + DigitAt(weight, groups, 4 * q)
  {
    Powers();
    assert (4 * q + 3) / 4 == q && (4 * q + 2) / 4 == q && (4 * q + 1) / 4 == q && 4 * q / 4 == q;
    if 0 <= weight - q < |groups| {
      GroupSplits(groups[weight - q]);
    }
  }

  ghost predicate SameNumber(a: Stored, b: Stored) {
    forall e :: DigitAt(a.weight, a.groups, e) == DigitAt(b.weight, b.groups, e)
  }

  lemma SameGroups(a: Stored, b: Stored, q: int)
    requires GroupsOk(a.groups) && GroupsOk(b.groups) && SameNumber(a, b)
    ensures GroupAt(a.weight, a.groups, q) == GroupAt(b.weight, b.groups, q)
  {
    hide DigitAt, GroupAt;
    GroupFromDigits(a.weight, a.groups, q);
    GroupFromDigits(b.weight, b.groups, q);
  }

  lemma NormalIsUnique(a: Stored, b: Stored)
    requires Normal(a) && Normal(b) && SameNumber(a, b)
    ensures a.weight == b.weight && a.groups == b.groups
  {
    hide DigitAt, SameNumber;
    SameGroups(a, b, a.weight);
    SameGroups(a, b, b.weight);
    SameGroups(a, b, a.weight - |a.groups| + 1);
    SameGroups(a, b, b.weight - |b.groups| + 1);
    assert |a.groups| == |b.groups|;
    forall k | 0 <= k < |a.groups| ensures a.groups[k] == b.groups[k] {
      SameGroups(a, b, a.weight - k);
    }
  }

  // ---- Rendering and storing ------------------------------------------------------------

  lemma {:induction false} StripKeepsDigit(ds: seq<nat>, e: nat)
    requires Decimal(ds)
    ensures (if e < |Strip(ds)| then Strip(ds)[|Strip(ds)| - 1 - e] else 0) == (if e < |ds| then ds[|ds| - 1 - e] else 0)
    decreases |ds|
  {
    if ds != [] && ds[0] == 0 {
      StripKeepsDigit(ds[1..], e);
    }
  }

  lemma {:induction false} IntDigitIs(weight: int, groups: seq<nat>, hi: nat, e: nat)
    requires e < hi
    ensures IntDigits(weight, groups, hi)[hi - 1 - e] == DigitAt(weight, groups, e)
    decreases hi
  {
    hide DigitAt, IntDigits;
    NextDigit(weight, groups, hi - 1);
    if e < hi - 1 {
      IntDigitIs(weight, groups, hi - 1, e);
    }
  }

  /** What the rendered string reads as. */
  function Shows(n: Stored): Literal {
    Literal(n.neg, Strip(IntDigits(n.weight, n.groups, Top(n.weight) + 1)), FracDigits(n.weight, n.groups, n.dscale))
  }

  lemma RenderedReads(n: Stored)
    ensures ParseLiteral(Render(n)) == Some(Shows(n)) && LiteralOk(Shows(n))
  {
    hide Strip, IntDigits, FracDigits, ParseLiteral, Shown;
    ShownReads(n.neg, Shows(n).int', Shows(n).frac);
  }

  lemma ShownDigit(n: Stored, e: int)
    ensures LiteralDigit(Shows(n), e) == if e < 0 - n.dscale then 0 else DigitAt(n.weight, n.groups, e)
  {
    hide DigitAt, Strip, IntDigits;
    var hi := Top(n.weight) + 1;
    if e >= 0 {
      StripKeepsDigit(IntDigits(n.weight, n.groups, hi), e);
      if e < hi {
        IntDigitIs(n.weight, n.groups, hi, e);
      } else {
        AboveTop(n.weight, n.groups, e);
      }
    }
  }

  /** Rendering a stored number and storing the result gives it back if and only if it is normal. */
  lemma StoreUndoesRender(n: Stored)
    ensures ParseLiteral(Render(n)).Some?
    ensures Store(ParseLiteral(Render(n)).value) == n <==> Normal(n)
  {
    hide DigitAt, Store, Render, ParseLiteral, LiteralDigit, Shows, Normal;
    RenderedReads(n);
    var m := Store(Shows(n));
    StoreIsNormal(Shows(n));
    if Normal(n) {
      StoredAgain(n);
    }
  }

  lemma StoredAgain(n: Stored)
    requires Normal(n)
    ensures LiteralOk(Shows(n)) && Store(Shows(n)) == n
  {
    hide DigitAt, Store, LiteralDigit, Shows;
    RenderedReads(n);
    var l := Shows(n);
    var m := Store(l);
    StoreIsNormal(l);
    forall e ensures DigitAt(m.weight, m.groups, e) == DigitAt(n.weight, n.groups, e) {
      StoreKeepsDigits(l, e);
      ShownDigit(n, e);
    }
    NormalIsUnique(m, n);
    SignAgain(n);
  }

  lemma SignAgain(n: Stored)
    requires Normal(n) && LiteralOk(Shows(n)) && Store(Shows(n)).groups == n.groups
    ensures Store(Shows(n)).neg == n.neg && Store(Shows(n)).dscale == n.dscale
  {
    hide Strip, IntDigits, FracDigits, TrimFront, TrimBack, Groups, Combined, Pad4;
  }

  // ---- Bytes ----------------------------------------------------------------------------

  /** What a restart makes of a stored numeric: rendered into the log, encoded from there. */
  function Recoded(p: Bytes): Option<Bytes> {
    var t := NumericToString(p);
    if t.None? then None else NumericFromString(t.value)
  }

  /** The payload is in the form `numeric_from_string` writes. */
  ghost predicate NormalBytes(p: Bytes) {
    match Decode(p)
    case None => false
    case Some(Special(_)) => |p| == 2 && Get(p[0..2]) % 0x1000 == 0
    case Some(Finite(n)) => Get(p[0..2]) < 0x8000 && |p| % 2 == 0 && Normal(n)
  }

  lemma SpecialRecodes(p: Bytes)
    requires Decode(p).Some? && Decode(p).value.Special?
    ensures Recoded(p) == Some(p) <==> NormalBytes(p)
  {
    hide Get, Put;
    var h := Get(p[0..2]);
    var text := Decode(p).value.text;
    assert Lower("NaN") == "nan" && Lower("Infinity") == "infinity" && Lower("-Infinity") == "-infinity";
    var base := SpecialHeader(text).value;
    assert base == h / 0x1000 * 0x1000;
    Widths();
    GetPut(base, 2);
    assert Recoded(p) == Some(Put(base, 2));
    if |p| == 2 {
      assert p[0..2] == p;
      PutGet(p);
    }
  }

  lemma {:induction false} GroupsReadBack(b: Bytes)
    requires |b| % 2 == 0
    ensures GroupBytes(ReadGroups(b)) == b
    decreases |b|
  {
    hide Get, Put;
    if b != [] {
      GroupsReadBack(b[2..]);
      PutGet(b[0..2]);
      var gs := ReadGroups(b);
      assert gs[0] == Get(b[0..2]) && gs[1..] == ReadGroups(b[2..]);
      assert b == b[0..2] + b[2..];
    } else {
      assert ReadGroups(b) == [];
    }
  }

  /** Encoding what a long-form payload of whole groups decodes to gives the payload back. */
  lemma EncodeUndoesDecode(p: Bytes)
    requires Decode(p).Some? && Decode(p).value.Finite? && Get(p[0..2]) < 0x8000 && |p| % 2 == 0
    ensures Encode(Decode(p).value.number) == p
  {
    hide Get, Put, GroupBytes, ReadGroups;
    Widths();
    var h, w := Get(p[0..2]), Get(p[2..4]);
    PutGet(p[0..2]);
    PutGet(p[2..4]);
    GroupsReadBack(p[4..]);
    assert h == h / 0x4000 * 0x4000 + h % 0x4000;
    assert Unsigned16(Signed16(w)) == w;
    assert p == p[0..2] + p[2..4] + p[4..];
  }

  /** The stored form of a rendered number fits its fields. */
  lemma StoredFits(n: Stored)
    requires Normal(n) && n.dscale < 0x4000 && n.weight < 0x8000
    ensures -0x8000 <= n.weight
  {
    hide DigitAt;
    if n.groups != [] && 4 * n.weight + 3 < 0 - n.dscale {
      GroupFromDigits(n.weight, n.groups, n.weight);
    }
  }

  /** The highest group of what is stored again is a group of the number. */
  lemma StoredWeight(n: Stored)
    requires LiteralOk(Shows(n)) && Store(Shows(n)).groups != []
    ensures Store(Shows(n)).weight <= n.weight
  {
    hide DigitAt, Store, Shows, LiteralDigit;
    var m := Store(Shows(n));
    StoreIsNormal(Shows(n));
    if m.weight > n.weight {
      GroupFromDigits(m.weight, m.groups, m.weight);
      NoDigitAbove(n, 4 * m.weight);
      NoDigitAbove(n, 4 * m.weight + 1);
      NoDigitAbove(n, 4 * m.weight + 2);
      NoDigitAbove(n, 4 * m.weight + 3);
    }
  }

  lemma NoDigitAbove(n: Stored, e: int)
    requires LiteralOk(Shows(n)) && e > 4 * n.weight + 3
    ensures DigitAt(Store(Shows(n)).weight, Store(Shows(n)).groups, e) == 0
  {
    hide DigitAt, Store, Shows, LiteralDigit;
    StoreKeepsDigits(Shows(n), e);
    ShownDigit(n, e);
    AboveGroups(n.weight, n.groups, e);
  }

  lemma AboveGroups(weight: int, groups: seq<nat>, e: int)
    requires e > 4 * weight + 3
    ensures DigitAt(weight, groups, e) == 0
  {
  }

  lemma EncodedForm(m: Stored)
    requires GroupsOk(m.groups)
    ensures |Encode(m)| >= 4 && |Encode(m)| % 2 == 0 && Get(Encode(m)[0..2]) < 0x8000
  {
    hide Get, Put, GroupBytes, ReadGroups;
    EncodedParts((if m.neg then 0x4000 else 0) + m.dscale % 0x4000, Unsigned16(m.weight), m.groups);
  }

  lemma DecodedFits(p: Bytes)
    requires Decode(p).Some? && Decode(p).value.Finite? && Get(p[0..2]) < 0x8000
    ensures var n := Decode(p).value.number; n.dscale < 0x4000 && n.weight < 0x8000
  {
    hide Get, ReadGroups;
    Widths();
  }

  lemma FiniteRecodes(p: Bytes)
    requires Decode(p).Some? && Decode(p).value.Finite?
    ensures Recoded(p) == Some(p) <==> NormalBytes(p)
  {
    hide Get, Decode, Encode, Render, ParseLiteral, Store, Shows, Normal, SpecialHeader;
    var n := Decode(p).value.number;
    StoreUndoesRender(n);
    LiteralIsNotSpecial(Render(n));
    RenderedReads(n);
    var m := Store(Shows(n));
    assert Recoded(p) == Some(Encode(m));
    if NormalBytes(p) {
      EncodeUndoesDecode(p);
    } else if Encode(m) == p {
      RecodedIsSame(p, n);
    }
  }

  lemma RecodedIsSame(p: Bytes, n: Stored)
    requires Decode(p) == Some(Finite(n)) && LiteralOk(Shows(n)) && Encode(Store(Shows(n))) == p
    ensures |p| % 2 == 0 && |p| >= 2 && Get(p[0..2]) < 0x8000 && Store(Shows(n)) == n
  {
    hide Get, Decode, Encode, Store, Shows, Normal;
    var m := Store(Shows(n));
    StoreIsNormal(Shows(n));
    StoredGroupsOk(Shows(n));
    EncodedForm(m);
    DecodedFits(p);
    StoredScale(n);
    StoredWeightFits(n);
    BytesRoundTrip(m);
  }

  lemma StoredScale(n: Stored)
    ensures Store(Shows(n)).dscale == n.dscale
  {
    hide Store, IntDigits, Strip, FracDigits;
    StoreScale(Shows(n));
  }

  lemma StoredWeightFits(n: Stored)
    requires LiteralOk(Shows(n)) && n.dscale < 0x4000 && n.weight < 0x8000
    ensures -0x8000 <= Store(Shows(n)).weight < 0x8000
  {
    hide Store, Shows;
    StoreIsNormal(Shows(n));
    StoredScale(n);
    if Store(Shows(n)).groups != [] {
      StoredWeight(n);
    }
    StoredFits(Store(Shows(n)));
  }

  /**
   A stored numeric comes back from the log byte for byte if and only if it is a special value with nothing else set, or
   in the long form, with whole groups trimmed at both ends, zero unsigned at weight zero, and no digit past its scale.
   */
  lemma RecodesExactly(p: Bytes)
    ensures Recoded(p) == Some(p) <==> NormalBytes(p)
  {
    hide Recoded, NormalBytes;
    if Decode(p).None? {
      Undecoded(p);
    } else if Decode(p).value.Special? {
      SpecialRecodes(p);
    } else {
      FiniteRecodes(p);
    }
  }

  lemma Undecoded(p: Bytes)
    requires Decode(p).None?
    ensures Recoded(p).None? && !NormalBytes(p)
  {
  }

  /** The short form, which the server prefers, never comes back. */
  lemma ShortFormIsLost(n: Stored)
    requires GroupsOk(n.groups) && n.dscale < 0x40 && -0x40 <= n.weight < 0x40
    ensures Decode(EncodeShort(n)) == Some(Finite(n)) && Recoded(EncodeShort(n)) != Some(EncodeShort(n))
  {
    hide Get, Put, Decode, Recoded, Normal;
    ShortRoundTrip(n);
    RecodesExactly(EncodeShort(n));
    ShortHeader(n);
  }

  lemma ShortHeader(n: Stored)
    requires n.dscale < 0x40 && -0x40 <= n.weight < 0x40
    ensures |EncodeShort(n)| >= 2 && Get(EncodeShort(n)[0..2]) >= 0x8000
  {
    hide Get, Put, GroupBytes;
    var h := 0x8000 + (if n.neg then 0x2000 else 0) + n.dscale * 0x80 + n.weight % 0x80;
    ShortBits(if n.neg then 1 else 0, n.dscale, n.weight % 0x80);
    Widths();
    GetPut(h, 2);
    assert EncodeShort(n)[0..2] == Put(h, 2);
  }
}
