/**
 The numeric codec (src/wal/heap.rs `numeric_to_string`, `numeric_from_string`): base-10000 groups with a weight and a
 display scale, against decimal strings.
 */
module Numeric {
  import opened Base
  import opened LittleEndian

  /** A literal's parts: its sign and the decimal digits before and after the point. */
  datatype Literal = Literal(neg: bool, int': seq<nat>, frac: seq<nat>)

  predicate Decimal(ds: seq<nat>) {
    forall i :: 0 <= i < |ds| ==> ds[i] < 10
  }

  /** A number as stored: value = sum of groups[k] * 10000^(weight-k), shown with `dscale` fractional digits. */
  datatype Stored = Stored(neg: bool, weight: int, dscale: nat, groups: seq<nat>)

  predicate GroupsOk(gs: seq<nat>) {
    forall i :: 0 <= i < |gs| ==> gs[i] < 10000
  }

  // ---- Strings --------------------------------------------------------------------------

  function DigitChar(d: nat): char
    requires d < 10
  {
    '0' + d as char
  }

  function Text(ds: seq<nat>): string
    requires Decimal(ds)
  {
    seq(|ds|, i requires 0 <= i < |ds| => DigitChar(ds[i]))
  }

  predicate AllDigits(s: string) {
    forall i :: 0 <= i < |s| ==> '0' <= s[i] <= '9'
  }

  function Digits(s: string): (ds: seq<nat>)
    requires AllDigits(s)
    ensures |ds| == |s| && Decimal(ds)
  {
    seq(|s|, i requires 0 <= i < |s| => (s[i] - '0') as nat)
  }

  function IndexOfPoint(s: string): (i: nat)
    ensures i <= |s| && (i < |s| ==> s[i] == '.') && forall j :: 0 <= j < i ==> s[j] != '.'
  {
    if s == "" || s[0] == '.' then 0 else 1 + IndexOfPoint(s[1..])
  }

  /** A trimmed, finite literal: optional sign, digits, optional point and digits, at least one digit. */
  function ParseLiteral(t: string): Option<Literal> {
    var signed := t != "" && (t[0] == '-' || t[0] == '+');
    var body := if signed then t[1..] else t;
    var p := IndexOfPoint(body);
    var a, b := body[..p], if p < |body| then body[p + 1..] else "";
    if (a == "" && b == "") || !AllDigits(a) || !AllDigits(b) then None
    else Some(Literal(signed && t[0] == '-', Digits(a), Digits(b)))
  }

  // ---- From digits to groups ------------------------------------------------------------

  function Pad4(n: nat): (p: nat)
    ensures p < 4 && (n + p) % 4 == 0
  {
    (4 - n % 4) % 4
  }

  function ZeroDigits(n: nat): (ds: seq<nat>)
    ensures |ds| == n && Decimal(ds)
  {
    seq(n, _ => 0)
  }

  /** Both sides of the point padded to whole groups. */
  function Combined(l: Literal): seq<nat> {
    ZeroDigits(Pad4(|l.int'|)) + l.int' + l.frac + ZeroDigits(Pad4(|l.frac|))
  }

  function Group(c: seq<nat>, q: nat): nat
    requires 4 * q + 4 <= |c|
  {
    ((c[4 * q] * 10 + c[4 * q + 1]) * 10 + c[4 * q + 2]) * 10 + c[4 * q + 3]
  }

  function Groups(c: seq<nat>): (gs: seq<nat>)
    requires |c| % 4 == 0
    ensures |gs| == |c| / 4
  {
    seq(|c| / 4, q requires 0 <= q < |c| / 4 => Group(c, q))
  }

  /** Leading zero groups go, each lowering the weight; one group stays. */
  function TrimFront(gs: seq<nat>, weight: int): (seq<nat>, int)
    decreases |gs|
  {
    if |gs| > 1 && gs[0] == 0 then TrimFront(gs[1..], weight - 1) else (gs, weight)
  }

  function TrimBack(gs: seq<nat>): seq<nat>
    decreases |gs|
  {
    if |gs| > 1 && gs[|gs| - 1] == 0 then TrimBack(gs[..|gs| - 1]) else gs
  }

  predicate AllZero(gs: seq<nat>) {
    forall i :: 0 <= i < |gs| ==> gs[i] == 0
  }

  lemma CombinedLength(l: Literal)
    ensures |Combined(l)| % 4 == 0 && (Pad4(|l.int'|) + |l.int'|) % 4 == 0
  {
  }

  /** `numeric_from_string` up to the bytes; zero loses its sign. */
  function Store(l: Literal): Stored {
    CombinedLength(l);
    var (front, weight) := TrimFront(Groups(Combined(l)), (Pad4(|l.int'|) + |l.int'|) / 4 - 1);
    var gs := TrimBack(front);
    if AllZero(gs) then Stored(false, 0, |l.frac|, []) else Stored(l.neg, weight, |l.frac|, gs)
  }

  /** The trimming loops. */
  method Trim(groups: seq<nat>, weight: int) returns (gs: seq<nat>, w: int)
    ensures gs == TrimBack(TrimFront(groups, weight).0) && w == TrimFront(groups, weight).1
  {
    gs, w := groups, weight;
    while |gs| > 1 && gs[0] == 0
      invariant TrimFront(gs, w) == TrimFront(groups, weight)
      decreases |gs|
    {
      gs, w := gs[1..], w - 1;
    }
    ghost var front := gs;
    while |gs| > 1 && gs[|gs| - 1] == 0
      invariant TrimBack(gs) == TrimBack(front)
      decreases |gs|
    {
      gs := gs[..|gs| - 1];
    }
  }

  // ---- Rendering ------------------------------------------------------------------------

  function Pow10(n: nat): (p: nat)
    ensures p > 0
  {
    if n == 0 then 1 else 10 * Pow10(n - 1)
  }

  /** The digit at decimal exponent `e`: 0 is the ones, negative is fractional. */
  function DigitAt(weight: int, groups: seq<nat>, e: int): (d: nat)
    ensures d < 10
  {
    var g := weight - e / 4;
    if g < 0 || g >= |groups| then 0 else groups[g] / Pow10(e % 4) % 10
  }

  /** Digits at exponents `hi - 1` down to 0. */
  function IntDigits(weight: int, groups: seq<nat>, hi: nat): (ds: seq<nat>)
    ensures |ds| == hi && Decimal(ds)
  {
    if hi == 0 then [] else [DigitAt(weight, groups, hi - 1)] + IntDigits(weight, groups, hi - 1)
  }

  function FracDigits(weight: int, groups: seq<nat>, n: nat): (ds: seq<nat>)
    ensures |ds| == n && Decimal(ds)
  {
    seq(n, i requires 0 <= i < n => DigitAt(weight, groups, -1 - i))
  }

  /** Without leading zeros; zero keeps one. */
  function Strip(ds: seq<nat>): (r: seq<nat>)
    requires Decimal(ds)
    ensures Decimal(r) && r != []
    decreases |ds|
  {
    if ds == [] then [0] else if ds[0] == 0 then Strip(ds[1..]) else ds
  }

  function Top(weight: int): nat {
    Max(4 * weight + 3, 0)
  }

  function Shown(neg: bool, int': seq<nat>, frac: seq<nat>): string
    requires Decimal(int') && Decimal(frac)
  {
    (if neg then "-" else "") + Text(int') + (if frac == [] then "" else "." + Text(frac))
  }

  /** `numeric_digits_to_string`. */
  function Render(n: Stored): string {
    Shown(n.neg, Strip(IntDigits(n.weight, n.groups, Top(n.weight) + 1)), FracDigits(n.weight, n.groups, n.dscale))
  }

  /** The integer part: digits from the first nonzero one on, or a single zero. */
  method RenderInt(weight: int, groups: seq<nat>) returns (out: string)
    ensures out == Text(Strip(IntDigits(weight, groups, Top(weight) + 1)))
  {
    hide DigitAt, Top, Strip, Text, DigitChar, IntDigits;
    NoDigits(weight, groups);
    var e: nat := Top(weight) + 1;
    var started := false;
    ghost var all := IntDigits(weight, groups, e);
    out := "";
    while e > 0
      invariant !started ==> out == "" && Strip(all) == Strip(IntDigits(weight, groups, e))
      invariant started ==> Text(Strip(all)) == out + Text(IntDigits(weight, groups, e))
      decreases e
    {
      e := e - 1;
      var d := DigitAt(weight, groups, e);
      NextDigit(weight, groups, e);
      LeadingDigit(d, IntDigits(weight, groups, e));
      started := started || d != 0;
      if started {
        out := out + [DigitChar(d)];
      }
    }
    if !started {
      out := "0";
    }
  }

  lemma NextDigit(weight: int, groups: seq<nat>, e: nat)
    ensures IntDigits(weight, groups, e + 1) == [DigitAt(weight, groups, e)] + IntDigits(weight, groups, e)
  {
    hide DigitAt;
  }

  lemma NoDigits(weight: int, groups: seq<nat>)
    ensures IntDigits(weight, groups, 0) == [] && Strip([]) == [0] && Text([0]) == "0" && Text([]) == ""
  {
  }

  lemma LeadingDigit(d: nat, rest: seq<nat>)
    requires d < 10 && Decimal(rest)
    ensures Text([d] + rest) == [DigitChar(d)] + Text(rest)
    ensures Strip([d] + rest) == if d == 0 then Strip(rest) else [d] + rest
  {
    assert ([d] + rest)[1..] == rest;
  }

  method RenderDigits(n: Stored) returns (s: string)
    ensures s == Render(n)
  {
    hide DigitAt, Strip, IntDigits, Top;
    var out := RenderInt(n.weight, n.groups);
    s := (if n.neg then "-" else "") + out;
    if n.dscale > 0 {
      ghost var frac := FracDigits(n.weight, n.groups, n.dscale);
      var tail := "";
      for i := 0 to n.dscale
        invariant tail == Text(frac[..i])
      {
        assert frac[..i + 1] == frac[..i] + [frac[i]];
        assert Text(frac[..i + 1]) == Text(frac[..i]) + [DigitChar(frac[i])];
        tail := tail + [DigitChar(DigitAt(n.weight, n.groups, -1 - i))];
      }
      assert frac[..n.dscale] == frac;
      s := s + "." + tail;
      assert s == (if n.neg then "-" else "") + out + ("." + Text(frac));
    }
  }

  // ---- Digits are kept ------------------------------------------------------------------

  /** The literal's own digit at decimal exponent `e`. */
  function LiteralDigit(l: Literal, e: int): nat {
    if 0 <= e < |l.int'| then l.int'[|l.int'| - 1 - e]
    else if e < 0 && -e <= |l.frac| then l.frac[-e - 1]
    else 0
  }

  lemma GroupDigits(a: nat, b: nat, c: nat, d: nat)
    requires a < 10 && b < 10 && c < 10 && d < 10
    ensures var v := ((a * 10 + b) * 10 + c) * 10 + d;
            v < 10000 && v / 1000 % 10 == a && v / 100 % 10 == b && v / 10 % 10 == c && v % 10 == d
  {
    var v := ((a * 10 + b) * 10 + c) * 10 + d;
    assert v / 10 == (a * 10 + b) * 10 + c;
    assert v / 100 == a * 10 + b;
    assert v / 1000 == a;
  }

  lemma Powers()
    ensures Pow10(0) == 1 && Pow10(1) == 10 && Pow10(2) == 100 && Pow10(3) == 1000
  {
    assert Pow10(2) == 10 * Pow10(1) && Pow10(3) == 10 * Pow10(2);
  }

  lemma PlaceOf(m: int, e: int)
    ensures var p := 4 * m - 1 - e; e / 4 == m - 1 - p / 4 && e % 4 == 3 - p % 4
  {
    var p := 4 * m - 1 - e;
    assert p == 4 * (p / 4) + p % 4;
    assert e == 4 * (m - 1 - p / 4) + (3 - p % 4);
  }

  lemma GroupDigit(c: seq<nat>, q: nat, r: nat)
    requires 4 * q + 4 <= |c| && Decimal(c) && r < 4
    ensures Group(c, q) / Pow10(3 - r) % 10 == c[4 * q + r]
  {
    Powers();
    hide Pow10;
    GroupDigits(c[4 * q], c[4 * q + 1], c[4 * q + 2], c[4 * q + 3]);
  }

  /** Digit `p` of the padded string, `m` groups of which stand before the point, has exponent `4m - 1 - p`. */
  lemma GroupsKeepDigits(c: seq<nat>, m: int, e: int)
    requires |c| % 4 == 0 && Decimal(c)
    ensures var p := 4 * m - 1 - e;
            DigitAt(m - 1, Groups(c), e) == if 0 <= p < |c| then c[p] else 0
  {
    hide Pow10, Group;
    var p := 4 * m - 1 - e;
    PlaceOf(m, e);
    assert 0 <= p < |c| <==> 0 <= p / 4 < |c| / 4;
    if 0 <= p < |c| {
      GroupDigit(c, p / 4, p % 4);
    }
  }

  lemma {:induction false} FrontKeepsDigits(gs: seq<nat>, weight: int, e: int)
    ensures DigitAt(TrimFront(gs, weight).1, TrimFront(gs, weight).0, e) == DigitAt(weight, gs, e)
    decreases |gs|
  {
    hide Pow10;
    if |gs| > 1 && gs[0] == 0 {
      FrontKeepsDigits(gs[1..], weight - 1, e);
    }
  }

  lemma {:induction false} BackKeepsDigits(gs: seq<nat>, weight: int, e: int)
    ensures DigitAt(weight, TrimBack(gs), e) == DigitAt(weight, gs, e)
    decreases |gs|
  {
    hide Pow10;
    if |gs| > 1 && gs[|gs| - 1] == 0 {
      BackKeepsDigits(gs[..|gs| - 1], weight, e);
    }
  }

  ghost predicate LiteralOk(l: Literal) {
    Decimal(l.int') && Decimal(l.frac)
  }

  lemma CombinedDigit(l: Literal, e: int)
    requires LiteralOk(l)
    ensures Decimal(Combined(l))
    ensures var p := Pad4(|l.int'|) + |l.int'| - 1 - e;
            (if 0 <= p < |Combined(l)| then Combined(l)[p] else 0) == LiteralDigit(l, e)
  {
  }

  lemma AllZeroDigit(gs: seq<nat>, weight: int, w: int, e: int)
    requires AllZero(gs)
    ensures DigitAt(weight, gs, e) == DigitAt(w, [], e) == 0
  {
  }

  /** Trimming and zeroing keep every digit of the groups. */
  lemma TrimKeepsDigits(gs: seq<nat>, weight: int, e: int)
    ensures var (front, w) := TrimFront(gs, weight);
            DigitAt(w, TrimBack(front), e) == DigitAt(weight, gs, e)
  {
    hide DigitAt, TrimFront, TrimBack;
    FrontKeepsDigits(gs, weight, e);
    BackKeepsDigits(TrimFront(gs, weight).0, TrimFront(gs, weight).1, e);
  }

  /** Storing a literal keeps its digit at every decimal exponent. */
  lemma StoreKeepsDigits(l: Literal, e: int)
    requires LiteralOk(l)
    ensures DigitAt(Store(l).weight, Store(l).groups, e) == LiteralDigit(l, e)
  {
    hide DigitAt, Pad4, Groups, Combined, TrimFront, TrimBack, LiteralDigit, AllZero;
    CombinedLength(l);
    CombinedDigit(l, e);
    var whole := Pad4(|l.int'|) + |l.int'|;
    var m, gs := whole / 4, Groups(Combined(l));
    assert 4 * m == whole;
    GroupsKeepDigits(Combined(l), m, e);
    TrimKeepsDigits(gs, m - 1, e);
    var (front, w) := TrimFront(gs, m - 1);
    if AllZero(TrimBack(front)) {
      AllZeroDigit(TrimBack(front), w, 0, e);
    }
  }

  // ---- Rendering a stored literal -------------------------------------------------------

  lemma {:induction false} StripZeros(weight: int, groups: seq<nat>, n: nat, m: nat)
    requires n <= m && forall e :: n <= e < m ==> DigitAt(weight, groups, e) == 0
    ensures Strip(IntDigits(weight, groups, m)) == Strip(IntDigits(weight, groups, n))
    decreases m
  {
    hide DigitAt;
    if n < m {
      StripZeros(weight, groups, n, m - 1);
      assert IntDigits(weight, groups, m)[1..] == IntDigits(weight, groups, m - 1);
    }
  }

  lemma {:induction false} IntDigitsAre(weight: int, groups: seq<nat>, l: Literal, n: nat)
    requires LiteralOk(l) && n <= |l.int'| && forall e :: DigitAt(weight, groups, e) == LiteralDigit(l, e)
    ensures IntDigits(weight, groups, n) == l.int'[|l.int'| - n..]
  {
    hide DigitAt;
    if n > 0 {
      IntDigitsAre(weight, groups, l, n - 1);
      assert DigitAt(weight, groups, n - 1) == LiteralDigit(l, n - 1);
    }
  }

  lemma AboveTop(weight: int, groups: seq<nat>, e: int)
    requires e > Top(weight)
    ensures DigitAt(weight, groups, e) == 0
  {
  }

  /** The literal without its leading zeros, and with no sign on zero. */
  function Canonical(l: Literal): string
    requires LiteralOk(l)
  {
    Shown(l.neg && !(AllZero(l.int') && AllZero(l.frac)), Strip(l.int'), l.frac)
  }

  /** Zero is stored as no groups, and only zero. */
  lemma StoresZero(l: Literal)
    requires LiteralOk(l)
    ensures Store(l).neg <==> l.neg && !(AllZero(l.int') && AllZero(l.frac))
  {
    hide Pow10, Pad4, Groups, TrimFront, TrimBack;
    var n := Store(l);
    forall e ensures DigitAt(n.weight, n.groups, e) == LiteralDigit(l, e) {
      StoreKeepsDigits(l, e);
    }
    if AllZero(l.int') && AllZero(l.frac) {
      ZeroGroups(l);
    } else if n.groups == [] {
      assert forall e :: LiteralDigit(l, e) == 0;
      forall i | 0 <= i < |l.int'| ensures l.int'[i] == 0 {
        assert LiteralDigit(l, |l.int'| - 1 - i) == 0;
      }
      forall i | 0 <= i < |l.frac| ensures l.frac[i] == 0 {
        assert LiteralDigit(l, -1 - i) == 0;
      }
    }
  }

  lemma ZeroGroups(l: Literal)
    requires LiteralOk(l) && AllZero(l.int') && AllZero(l.frac)
    ensures !Store(l).neg
  {
    CombinedLength(l);
    var c := Combined(l);
    assert AllZero(c);
    var gs := Groups(c);
    assert AllZero(gs) by {
      forall q | 0 <= q < |gs| ensures gs[q] == 0 { assert gs[q] == Group(c, q); }
    }
    TrimmedZero(gs, (Pad4(|l.int'|) + |l.int'|) / 4 - 1);
  }

  lemma TrimmedZero(gs: seq<nat>, weight: int)
    requires AllZero(gs)
    ensures AllZero(TrimBack(TrimFront(gs, weight).0))
    decreases |gs|
  {
    if |gs| > 1 {
      TrimmedZero(gs[1..], weight - 1);
    }
  }

  /** These groups have the literal's digit at every exponent. */
  ghost predicate SameDigits(weight: int, groups: seq<nat>, l: Literal) {
    forall e :: DigitAt(weight, groups, e) == LiteralDigit(l, e)
  }

  lemma IntPart(weight: int, groups: seq<nat>, l: Literal)
    requires LiteralOk(l) && SameDigits(weight, groups, l)
    ensures Strip(IntDigits(weight, groups, Top(weight) + 1)) == Strip(l.int')
  {
    hide DigitAt, Top, Strip, IntDigits;
    var top, len := Top(weight) + 1, |l.int'|;
    var m := Max(top, len);
    forall e | top <= e < m ensures DigitAt(weight, groups, e) == 0 {
      AboveTop(weight, groups, e);
    }
    StripZeros(weight, groups, top, m);
    forall e | len <= e < m ensures DigitAt(weight, groups, e) == 0 {
      assert LiteralDigit(l, e) == 0;
    }
    StripZeros(weight, groups, len, m);
    IntDigitsAre(weight, groups, l, len);
    assert l.int'[0..] == l.int';
  }

  lemma FracPart(weight: int, groups: seq<nat>, l: Literal)
    requires LiteralOk(l) && SameDigits(weight, groups, l)
    ensures FracDigits(weight, groups, |l.frac|) == l.frac
  {
    hide DigitAt;
  }

  /** Rendering what was stored gives the canonical decimal of the same value and scale. */
  lemma RenderStoreIsCanonical(l: Literal)
    requires LiteralOk(l)
    ensures Render(Store(l)) == Canonical(l)
  {
    hide DigitAt, LiteralDigit, Store, Top, Strip, IntDigits, FracDigits, Shown;
    var n := Store(l);
    StoreScale(l);
    forall e ensures DigitAt(n.weight, n.groups, e) == LiteralDigit(l, e) {
      StoreKeepsDigits(l, e);
    }
    assert SameDigits(n.weight, n.groups, l);
    StoresZero(l);
    IntPart(n.weight, n.groups, l);
    FracPart(n.weight, n.groups, l);
  }

  lemma StoreScale(l: Literal)
    ensures Store(l).dscale == |l.frac|
  {
  }

  // ---- Bytes ----------------------------------------------------------------------------

  datatype Value = Special(text: string) | Finite(number: Stored)

  function Unsigned16(w: int): nat {
    w % 0x1_0000
  }

  function Signed16(v: nat): int {
    if v < 0x8000 then v else v - 0x1_0000
  }

  function GroupBytes(gs: seq<nat>): (b: Bytes)
    ensures |b| == 2 * |gs|
    decreases |gs|
  {
    if gs == [] then [] else Put(gs[0], 2) + GroupBytes(gs[1..])
  }

  /** Always the long form; the scale keeps fourteen bits and the weight sixteen. */
  function Encode(n: Stored): Bytes {
    Put((if n.neg then 0x4000 else 0) + n.dscale % 0x4000, 2) + Put(Unsigned16(n.weight), 2) + GroupBytes(n.groups)
  }

  function ReadGroups(b: Bytes): seq<nat>
    decreases |b|
  {
    if |b| < 2 then [] else [Get(b[0..2])] + ReadGroups(b[2..])
  }

  /** `numeric_to_string` up to rendering: special values, the short form and the long form. */
  function Decode(b: Bytes): Option<Value> {
    if |b| < 2 then None
    else
      var h := Get(b[0..2]);
      var kind := h / 0x4000;
      if kind == 3 then
        if h / 0x1000 == 0xC then Some(Special("NaN"))
        else if h / 0x1000 == 0xD then Some(Special("Infinity"))
        else if h / 0x1000 == 0xF then Some(Special("-Infinity"))
        else None
      else if kind == 2 then
        var raw := h % 0x40;
        Some(Finite(Stored(h / 0x2000 % 2 == 1, if h / 0x40 % 2 == 1 then raw - 64 else raw, h / 0x80 % 0x40, ReadGroups(b[2..]))))
      else if |b| < 4 then None
      else Some(Finite(Stored(kind == 1, Signed16(Get(b[2..4])), h % 0x4000, ReadGroups(b[4..]))))
  }

  lemma {:induction false} ReadsGroups(gs: seq<nat>)
    requires GroupsOk(gs)
    ensures ReadGroups(GroupBytes(gs)) == gs
    decreases |gs|
  {
    hide Get, Put;
    if gs != [] {
      Widths();
      GetPut(gs[0], 2);
      var b := GroupBytes(gs);
      assert b[0..2] == Put(gs[0], 2) && b[2..] == GroupBytes(gs[1..]);
      ReadsGroups(gs[1..]);
    }
  }

  lemma EncodedParts(h: nat, w: nat, gs: seq<nat>)
    requires h < 0x1_0000 && w < 0x1_0000 && GroupsOk(gs)
    ensures var b := Put(h, 2) + Put(w, 2) + GroupBytes(gs);
            |b| >= 4 && Get(b[0..2]) == h && Get(b[2..4]) == w && ReadGroups(b[4..]) == gs
  {
    hide Get, Put, ReadGroups, GroupBytes;
    Widths();
    GetPut(h, 2);
    GetPut(w, 2);
    ReadsGroups(gs);
    var b := Put(h, 2) + Put(w, 2) + GroupBytes(gs);
    assert b[0..2] == Put(h, 2) && b[2..4] == Put(w, 2) && b[4..] == GroupBytes(gs);
  }

  /** The stored bytes read back as the same number if and only if its scale and weight fit their fields. */
  lemma BytesRoundTrip(n: Stored)
    requires GroupsOk(n.groups)
    ensures Decode(Encode(n)) == Some(Finite(n)) <==> n.dscale < 0x4000 && -0x8000 <= n.weight < 0x8000
  {
    hide Get, Put, ReadGroups, GroupBytes;
    var scale := n.dscale % 0x4000;
    var h, w := (if n.neg then 0x4000 else 0) + scale, Unsigned16(n.weight);
    EncodedParts(h, w, n.groups);
    assert h / 0x4000 == (if n.neg then 1 else 0) && h % 0x4000 == scale;
    assert Signed16(w) == n.weight <==> -0x8000 <= n.weight < 0x8000;
    assert scale == n.dscale <==> n.dscale < 0x4000;
  }

  /** The short form, which the server prefers for small scales and weights. */
  function EncodeShort(n: Stored): Bytes {
    Put(0x8000 + (if n.neg then 0x2000 else 0) + n.dscale * 0x80 + n.weight % 0x80, 2) + GroupBytes(n.groups)
  }

  lemma ShortBits(neg: nat, scale: nat, w: nat)
    requires neg < 2 && scale < 0x40 && w < 0x80
    ensures var h := 0x8000 + neg * 0x2000 + scale * 0x80 + w;
            && h < 0x1_0000 && h / 0x4000 == 2 && h / 0x2000 % 2 == neg && h / 0x80 % 0x40 == scale
            && h % 0x40 == w % 0x40 && h / 0x40 % 2 == w / 0x40
  {
    var h := 0x8000 + neg * 0x2000 + scale * 0x80 + w;
    assert h == 0x80 * (0x100 + neg * 0x40 + scale) + w;
    assert h / 0x80 == 0x100 + neg * 0x40 + scale;
    assert h == 0x40 * (2 * (0x100 + neg * 0x40 + scale) + w / 0x40) + w % 0x40;
  }

  lemma ShortRoundTrip(n: Stored)
    requires GroupsOk(n.groups) && n.dscale < 0x40 && -0x40 <= n.weight < 0x40
    ensures Decode(EncodeShort(n)) == Some(Finite(n))
  {
    hide Get, Put, ReadGroups, GroupBytes;
    var h := 0x8000 + (if n.neg then 0x2000 else 0) + n.dscale * 0x80 + n.weight % 0x80;
    ShortBits(if n.neg then 1 else 0, n.dscale, n.weight % 0x80);
    Widths();
    GetPut(h, 2);
    ReadsGroups(n.groups);
    var b := EncodeShort(n);
    assert b[0..2] == Put(h, 2) && b[2..] == GroupBytes(n.groups);
  }

  // ---- Whole strings --------------------------------------------------------------------

  function LowerChar(c: char): char {
    if 'A' <= c <= 'Z' then (c - 'A') + 'a' else c
  }

  function Lower(t: string): (r: string)
    ensures |r| == |t|
  {
    seq(|t|, i requires 0 <= i < |t| => LowerChar(t[i]))
  }

  /** The header of a special value, by any of its names. */
  function SpecialHeader(t: string): Option<nat> {
    var l := Lower(t);
    if l == "nan" then Some(0xC000)
    else if l == "infinity" || l == "inf" || l == "+infinity" || l == "+inf" then Some(0xD000)
    else if l == "-infinity" || l == "-inf" then Some(0xF000)
    else None
  }

  /** `t` is already trimmed. */
  function NumericFromString(t: string): Option<Bytes> {
    var special, l := SpecialHeader(t), ParseLiteral(t);
    if special.Some? then Some(Put(special.value, 2)) else if l.None? then None else Some(Encode(Store(l.value)))
  }

  /** Where the digits of `t` begin. */
  function SignLength(t: string): (n: nat)
    ensures n <= |t|
  {
    if t != "" && (t[0] == '-' || t[0] == '+') then 1 else 0
  }

  lemma LiteralBegins(t: string)
    requires ParseLiteral(t).Some?
    ensures SignLength(t) < |t| && (t[SignLength(t)] == '.' || '0' <= t[SignLength(t)] <= '9')
  {
    var body := t[SignLength(t)..];
    var p := IndexOfPoint(body);
    if p > 0 {
      assert body[..p][0] == body[0];
    }
  }

  lemma SpecialBegins(t: string)
    requires SpecialHeader(t).Some?
    ensures SignLength(t) < |t| && !(t[SignLength(t)] == '.' || '0' <= t[SignLength(t)] <= '9')
  {
    var at := SignLength(t);
    assert LowerChar(t[0]) == Lower(t)[0];
    assert LowerChar(t[at]) == Lower(t)[at];
  }

  lemma LiteralIsNotSpecial(t: string)
    requires ParseLiteral(t).Some?
    ensures SpecialHeader(t).None?
  {
    hide ParseLiteral, SpecialHeader;
    LiteralBegins(t);
    if SpecialHeader(t).Some? {
      SpecialBegins(t);
    }
  }

  function NumericToString(b: Bytes): Option<string> {
    var v := Decode(b);
    if v.None? then None else Some(if v.value.Special? then v.value.text else Render(v.value.number))
  }

  lemma GroupsBounded(c: seq<nat>)
    requires |c| % 4 == 0 && Decimal(c)
    ensures GroupsOk(Groups(c))
  {
    forall q | 0 <= q < |Groups(c)| ensures Groups(c)[q] < 10000 {
      GroupDigits(c[4 * q], c[4 * q + 1], c[4 * q + 2], c[4 * q + 3]);
    }
  }

  lemma {:induction false} TrimBackBounded(gs: seq<nat>)
    requires GroupsOk(gs)
    ensures GroupsOk(TrimBack(gs))
    decreases |gs|
  {
    if |gs| > 1 && gs[|gs| - 1] == 0 {
      TrimBackBounded(gs[..|gs| - 1]);
    }
  }

  lemma {:induction false} TrimFrontBounded(gs: seq<nat>, weight: int)
    requires GroupsOk(gs)
    ensures GroupsOk(TrimFront(gs, weight).0)
    decreases |gs|
  {
    if |gs| > 1 && gs[0] == 0 {
      TrimFrontBounded(gs[1..], weight - 1);
    }
  }

  lemma StoredGroupsOk(l: Literal)
    requires LiteralOk(l)
    ensures GroupsOk(Store(l).groups)
  {
    hide Groups, TrimFront, TrimBack, Pad4, Combined, AllZero;
    CombinedLength(l);
    CombinedDigit(l, 0);
    var gs, w := Groups(Combined(l)), (Pad4(|l.int'|) + |l.int'|) / 4 - 1;
    GroupsBounded(Combined(l));
    TrimFrontBounded(gs, w);
    TrimBackBounded(TrimFront(gs, w).0);
  }

  lemma ParsedIsDecimal(t: string)
    requires ParseLiteral(t).Some?
    ensures LiteralOk(ParseLiteral(t).value)
  {
  }

  /**
   For every accepted literal whose scale fits fourteen bits and whose weight sixteen: writing it out and reading it back
   gives its canonical decimal, with the same value and scale, no leading zeros and no sign on zero.
   */
  lemma NumericRoundTrip(t: string)
    requires ParseLiteral(t).Some?
    requires var l := ParseLiteral(t).value; |l.frac| < 0x4000 && -0x8000 <= Store(l).weight < 0x8000
    ensures LiteralOk(ParseLiteral(t).value)
    ensures NumericFromString(t).Some?
    ensures NumericToString(NumericFromString(t).value) == Some(Canonical(ParseLiteral(t).value))
  {
    hide Store, Encode, Decode, Render, Canonical, SpecialHeader, ParseLiteral;
    LiteralIsNotSpecial(t);
    ParsedIsDecimal(t);
    var l := ParseLiteral(t).value;
    StoreScale(l);
    StoredGroupsOk(l);
    BytesRoundTrip(Store(l));
    RenderStoreIsCanonical(l);
  }
}
