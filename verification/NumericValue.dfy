/** What a rendered numeric denotes: the stored number itself, cut off at its display scale. */
module NumericValue {
  import opened Base
  import opened Numeric

  // ---- What the digits denote -----------------------------------------------------------

  function GroupValue(gs: seq<nat>): nat
    decreases |gs|
  {
    if gs == [] then 0 else GroupValue(gs[..|gs| - 1]) * 10000 + gs[|gs| - 1]
  }

  function DecimalValue(ds: seq<nat>): nat
    decreases |ds|
  {
    if ds == [] then 0 else DecimalValue(ds[..|ds| - 1]) * 10 + ds[|ds| - 1]
  }

  /** The digits at exponents `4 * weight + 3` downwards, four per group. */
  function AllDecimals(weight: int, gs: seq<nat>): (ds: seq<nat>)
    ensures |ds| == 4 * |gs|
  {
    seq(4 * |gs|, p requires 0 <= p < 4 * |gs| => DigitAt(weight, gs, 4 * weight + 3 - p))
  }

  lemma FourMore(ds: seq<nat>, a: nat, b: nat, c: nat, d: nat)
    ensures DecimalValue(ds + [a, b, c, d]) == DecimalValue(ds) * 10000 + ((a * 10 + b) * 10 + c) * 10 + d
  {
    hide DecimalValue;
    DigitAdded(ds, a);
    DigitAdded(ds + [a], b);
    DigitAdded(ds + [a] + [b], c);
    DigitAdded(ds + [a] + [b] + [c], d);
    assert ds + [a] + [b] + [c] + [d] == ds + [a, b, c, d];
  }

  lemma DigitAdded(ds: seq<nat>, d: nat)
    ensures DecimalValue(ds + [d]) == DecimalValue(ds) * 10 + d
  {
    assert (ds + [d])[..|ds|] == ds;
  }

  lemma GroupSplits(g: nat)
    requires g < 10000
    ensures g == ((g / 1000 % 10 * 10 + g / 100 % 10) * 10 + g / 10 % 10) * 10 + g % 10
  {
    assert g / 10 == g / 100 * 10 + g / 10 % 10;
    assert g / 100 == g / 1000 * 10 + g / 100 % 10;
  }

  lemma LastGroup(weight: int, gs: seq<nat>)
    requires gs != []
    ensures var g := gs[|gs| - 1];
            AllDecimals(weight, gs)
            == AllDecimals(weight, gs[..|gs| - 1]) + [g / 1000 % 10, g / 100 % 10, g / 10 % 10, g % 10]
  {
    Powers();
    var n, front := |gs| - 1, gs[..|gs| - 1];
    var all := AllDecimals(weight, gs);
    hide Pow10;
    forall p | 0 <= p < |all|
      ensures all[p] == if p < 4 * n then DigitAt(weight, front, 4 * weight + 3 - p)
                        else gs[n] / Pow10(3 - (p - 4 * n)) % 10
    {
      DigitPlace(weight, p);
    }
    assert all[4 * n] == gs[n] / Pow10(3) % 10 && all[4 * n + 1] == gs[n] / Pow10(2) % 10;
    assert all[4 * n + 2] == gs[n] / Pow10(1) % 10 && all[4 * n + 3] == gs[n] / Pow10(0) % 10;
  }

  lemma DigitPlace(weight: int, p: nat)
    ensures var e := 4 * weight + 3 - p; e / 4 == weight - p / 4 && e % 4 == 3 - p % 4
  {
    var q, r := p / 4, p % 4;
    assert p == 4 * q + r;
    assert 4 * weight + 3 - p == 4 * (weight - q) + (3 - r);
  }

  lemma {:induction false} DigitsDenoteGroups(weight: int, gs: seq<nat>)
    requires GroupsOk(gs)
    ensures DecimalValue(AllDecimals(weight, gs)) == GroupValue(gs)
    decreases |gs|
  {
    hide AllDecimals, DecimalValue;
    if gs == [] {
      NoDecimals(weight);
    } else {
      var front, g := gs[..|gs| - 1], gs[|gs| - 1];
      DigitsDenoteGroups(weight, front);
      LastGroup(weight, gs);
      FourMore(AllDecimals(weight, front), g / 1000 % 10, g / 100 % 10, g / 10 % 10, g % 10);
      GroupSplits(g);
    }
  }

  lemma NoDecimals(weight: int)
    ensures DecimalValue(AllDecimals(weight, [])) == 0
  {
    assert AllDecimals(weight, []) == [];
  }

  // ---- Digits against places ------------------------------------------------------------

  /** The digits at exponents `top` downwards, `n` of them. */
  function DigitsFrom(weight: int, gs: seq<nat>, top: int, n: nat): (ds: seq<nat>)
    ensures |ds| == n && Decimal(ds)
  {
    seq(n, p requires 0 <= p < n => DigitAt(weight, gs, top - p))
  }

  lemma {:induction false} IntIsFrom(weight: int, gs: seq<nat>, hi: nat)
    ensures IntDigits(weight, gs, hi) == DigitsFrom(weight, gs, hi - 1, hi)
  {
    hide DigitAt;
    if hi > 0 {
      IntIsFrom(weight, gs, hi - 1);
      assert DigitsFrom(weight, gs, hi - 1, hi)[1..] == DigitsFrom(weight, gs, hi - 2, hi - 1);
    }
  }

  lemma {:induction false} LeadingZeros(ds: seq<nat>, k: nat)
    requires k <= |ds| && forall i :: 0 <= i < k ==> ds[i] == 0
    ensures DecimalValue(ds) == DecimalValue(ds[k..])
    decreases |ds|
  {
    if k < |ds| {
      LeadingZeros(ds[..|ds| - 1], k);
      assert ds[k..][..|ds| - k - 1] == ds[..|ds| - 1][k..];
    } else if k > 0 {
      LeadingZeros(ds[..|ds| - 1], k - 1);
      assert ds[..|ds| - 1][k - 1..] == [] && ds[k..] == [];
    }
  }

  lemma {:induction false} TrailingZeros(ds: seq<nat>, k: nat)
    ensures DecimalValue(ds + ZeroDigits(k)) == DecimalValue(ds) * Pow10(k)
  {
    if k == 0 {
      assert ds + ZeroDigits(0) == ds;
    } else {
      TrailingZeros(ds, k - 1);
      assert ds + ZeroDigits(k) == ds + ZeroDigits(k - 1) + [0];
      DigitAdded(ds + ZeroDigits(k - 1), 0);
      TimesTen(DecimalValue(ds), Pow10(k - 1));
    }
  }

  lemma TimesTen(v: nat, p: nat)
    ensures v * (10 * p) == 10 * (v * p)
  {
  }

  /** `q` is `v / p`, rounded down. */
  ghost predicate IsFloor(q: nat, v: nat, p: nat) {
    q * p <= v < q * p + p
  }

  lemma {:induction false} CutShort(ds: seq<nat>, n: nat)
    requires Decimal(ds) && n <= |ds|
    ensures IsFloor(DecimalValue(ds[..n]), DecimalValue(ds), Pow10(|ds| - n))
    decreases |ds|
  {
    if n == |ds| {
      assert ds[..n] == ds;
    } else {
      var front := ds[..|ds| - 1];
      CutShort(front, n);
      assert front[..n] == ds[..n];
      TimesTen(DecimalValue(ds[..n]), Pow10(|front| - n));
    }
  }

  lemma {:induction false} DecimalBound(ds: seq<nat>)
    requires Decimal(ds)
    ensures DecimalValue(ds) < Pow10(|ds|)
    decreases |ds|
  {
    if ds != [] {
      DecimalBound(ds[..|ds| - 1]);
    }
  }

  lemma {:induction false} PowMono(a: nat, b: nat)
    requires a <= b
    ensures Pow10(a) <= Pow10(b)
    decreases b - a
  {
    if a < b {
      PowMono(a, b - 1);
    }
  }

  /** `d` is `v * 10^s`, rounded down. */
  ghost predicate IsShifted(d: nat, v: nat, s: int) {
    if s >= 0 then d == v * Pow10(s) else IsFloor(d, v, Pow10(0 - s))
  }

  lemma DigitOutside(weight: int, gs: seq<nat>, e: int)
    ensures e > 4 * weight + 3 || e <= 4 * weight + 3 - 4 * |gs| ==> DigitAt(weight, gs, e) == 0
  {
    hide Pow10;
    assert e == 4 * (e / 4) + e % 4;
  }

  /** `ds` is `all` after `lead` zeros, cut off or continued with zeros. */
  ghost predicate Spread(ds: seq<nat>, all: seq<nat>, lead: int) {
    forall p :: 0 <= p < |ds| ==> ds[p] == if lead <= p < lead + |all| then all[p - lead] else 0
  }

  lemma DigitsAre(weight: int, gs: seq<nat>, top: int, n: nat)
    requires top >= 4 * weight + 3
    ensures Spread(DigitsFrom(weight, gs, top, n), AllDecimals(weight, gs), top - (4 * weight + 3))
  {
    hide DigitAt;
    var lead, ds := top - (4 * weight + 3), DigitsFrom(weight, gs, top, n);
    forall p | 0 <= p < n && !(lead <= p < lead + 4 * |gs|) ensures ds[p] == 0 {
      DigitOutside(weight, gs, top - p);
    }
  }

  lemma DigitsAreShifted(weight: int, gs: seq<nat>, top: int, n: nat)
    requires GroupsOk(gs) && top >= 4 * weight + 3
    ensures IsShifted(DecimalValue(DigitsFrom(weight, gs, top, n)), GroupValue(gs), 4 * (weight - |gs|) + 3 - top + n)
  {
    hide DecimalValue, GroupValue, DigitAt, Spread, AllDecimals, DigitsFrom, IsShifted;
    DigitsDenoteGroups(weight, gs);
    DecimalsAreDecimal(weight, gs);
    DigitsAre(weight, gs, top, n);
    SpreadValue(DigitsFrom(weight, gs, top, n), AllDecimals(weight, gs), top - (4 * weight + 3));
  }

  lemma SpreadValue(ds: seq<nat>, all: seq<nat>, lead: nat)
    requires Spread(ds, all, lead) && Decimal(all)
    ensures IsShifted(DecimalValue(ds), DecimalValue(all), |ds| - lead - |all|)
  {
    hide DecimalValue, Pow10, IsFloor, Decimal;
    if |ds| <= lead {
      SpreadShort(ds, all, lead);
    } else {
      LeadingZeros(ds, lead);
      var k := |ds| - lead;
      if k < |all| {
        assert ds[lead..] == all[..k];
        CutShort(all, k);
      } else {
        assert ds[lead..] == all + ZeroDigits(k - |all|);
        TrailingZeros(all, k - |all|);
      }
    }
  }

  lemma SpreadShort(ds: seq<nat>, all: seq<nat>, lead: nat)
    requires Spread(ds, all, lead) && Decimal(all) && |ds| <= lead
    ensures IsShifted(DecimalValue(ds), DecimalValue(all), |ds| - lead - |all|)
  {
    hide DecimalValue, Pow10;
    AllLeading(ds);
    DecimalBound(all);
    if |ds| == lead && all == [] {
      AllLeading(all);
    } else {
      PowMono(|all|, |all| + lead - |ds|);
      SmallFloor(DecimalValue(all), Pow10(|all| + lead - |ds|));
    }
  }

  lemma DecimalsAreDecimal(weight: int, gs: seq<nat>)
    ensures Decimal(AllDecimals(weight, gs))
  {
    hide DigitAt;
    var all := AllDecimals(weight, gs);
    forall p | 0 <= p < |all| ensures all[p] < 10 {
      assert all[p] == DigitAt(weight, gs, 4 * weight + 3 - p);
    }
  }

  lemma AllLeading(ds: seq<nat>)
    requires forall i :: 0 <= i < |ds| ==> ds[i] == 0
    ensures DecimalValue(ds) == 0
  {
    LeadingZeros(ds, |ds|);
    assert ds[|ds|..] == [];
  }

  lemma SmallFloor(v: nat, p: nat)
    requires v < p
    ensures IsFloor(0, v, p)
  {
  }

  // ---- The number itself ----------------------------------------------------------------

  /** A power of ten, also a negative one. */
  function Ten(e: int): (r: real)
    ensures r > 0.0
    decreases if e >= 0 then e else -e
  {
    if e == 0 then 1.0 else if e > 0 then 10.0 * Ten(e - 1) else Ten(e + 1) / 10.0
  }

  /** The stored magnitude: the sum of `groups[k] * 10000^(weight - k)`. */
  function Magnitude(weight: int, gs: seq<nat>): real
    decreases |gs|
  {
    if gs == [] then 0.0 else gs[0] as real * Ten(4 * weight) + Magnitude(weight - 1, gs[1..])
  }

  lemma TenStep(e: int)
    ensures Ten(e + 1) == 10.0 * Ten(e)
  {
    if e < 0 {
      assert Ten(e) == Ten(e + 1) / 10.0;
    }
  }

  lemma TenFour(e: int)
    ensures Ten(e + 4) == 10000.0 * Ten(e)
  {
    hide Ten;
    TenStep(e);
    TenStep(e + 1);
    TenStep(e + 2);
    TenStep(e + 3);
  }

  lemma TenZero()
    ensures Ten(0) == 1.0
  {
  }

  lemma ScaleTen(a: real, b: real)
    ensures 10.0 * (a * b) == a * (10.0 * b)
  {
  }

  lemma {:induction false} TenSum(a: int, b: nat)
    ensures Ten(a + b) == Ten(a) * Ten(b)
  {
    hide Ten;
    if b == 0 {
      TenZero();
    } else {
      TenSum(a, b - 1);
      TenStep(a + b - 1);
      TenStep(b - 1);
      ScaleTen(Ten(a), Ten(b - 1));
    }
  }

  lemma {:induction false} TenIsPow(n: nat)
    ensures Ten(n) == Pow10(n) as real
  {
    hide Ten;
    if n == 0 {
      TenZero();
    } else {
      TenIsPow(n - 1);
      TenStep(n - 1);
    }
  }

  lemma TenInverse(n: nat)
    ensures Ten(0 - n) * Pow10(n) as real == 1.0
  {
    hide Ten, Pow10;
    TenIsPow(n);
    TenSum(0 - n, n);
    TenZero();
  }

  lemma Distribute(g: real, t: real, v: real, x: real)
    ensures (g * t + v) * x == g * (x * t) + v * x
  {
    assert (g * t + v) * x == (g * t) * x + v * x;
    assert (g * t) * x == g * (x * t);
  }

  lemma GroupValueLast(gs: seq<nat>)
    requires gs != []
    ensures GroupValue(gs) as real == GroupValue(gs[..|gs| - 1]) as real * 10000.0 + gs[|gs| - 1] as real
  {
  }

  lemma GroupValueOne(g: nat)
    ensures GroupValue([g]) == g && GroupValue([]) == 0
  {
    assert [g][..0] == [];
  }

  lemma {:induction false} GroupValueFront(gs: seq<nat>)
    requires gs != []
    ensures GroupValue(gs) as real == gs[0] as real * Ten(4 * (|gs| - 1)) + GroupValue(gs[1..]) as real
    decreases |gs|
  {
    hide Ten, GroupValue;
    if |gs| == 1 {
      assert gs == [gs[0]] && gs[1..] == [];
      GroupValueOne(gs[0]);
      TenZero();
    } else {
      var front, back := gs[..|gs| - 1], gs[1..];
      GroupValueFront(front);
      assert front[1..] == back[..|back| - 1] && back[|back| - 1] == gs[|gs| - 1];
      GroupValueLast(gs);
      GroupValueLast(back);
      TenFour(4 * (|gs| - 2));
      Distribute(gs[0] as real, Ten(4 * (|gs| - 2)), GroupValue(front[1..]) as real, 10000.0);
    }
  }

  lemma MagnitudeUnfolds(weight: int, gs: seq<nat>)
    ensures Magnitude(weight, gs) == if gs == [] then 0.0 else gs[0] as real * Ten(4 * weight) + Magnitude(weight - 1, gs[1..])
  {
    hide Ten;
  }

  lemma {:induction false} MagnitudeIs(weight: int, gs: seq<nat>)
    ensures Magnitude(weight, gs) == GroupValue(gs) as real * Ten(4 * (weight + 1 - |gs|))
    decreases |gs|
  {
    hide Ten, GroupValue, Magnitude;
    MagnitudeUnfolds(weight, gs);
    if gs == [] {
      GroupValueOne(0);
    } else {
      MagnitudeIs(weight - 1, gs[1..]);
      GroupValueFront(gs);
      TenSum(4 * (weight + 1 - |gs|), 4 * (|gs| - 1));
      Distribute(gs[0] as real, Ten(4 * (|gs| - 1)), GroupValue(gs[1..]) as real, Ten(4 * (weight + 1 - |gs|)));
    }
  }

  lemma {:induction false} CastTimes(a: nat, b: nat)
    ensures (a * b) as real == a as real * b as real
  {
    if a > 0 {
      CastTimes(a - 1, b);
      assert a * b == (a - 1) * b + b;
      assert a as real * b as real == (a - 1) as real * b as real + b as real;
    }
  }

  lemma FloorIs(x: real, q: nat, p: nat, v: nat)
    requires p > 0 && x * p as real == v as real && IsFloor(q, v, p)
    ensures x.Floor == q
  {
    CastTimes(q, p);
    FloorFrom(x, q, p as real, (q * p) as real, v as real);
  }

  lemma FloorFrom(x: real, q: nat, p: real, qp: real, v: real)
    requires p > 0.0 && x * p == v && qp == q as real * p && qp <= v < qp + p
    ensures x.Floor == q
  {
    AtMost(q as real, x, p);
    Below(x, q as real, p, x * p, qp);
  }

  lemma AtMost(a: real, b: real, p: real)
    requires p > 0.0 && a * p <= b * p
    ensures a <= b
  {
  }

  lemma Below(a: real, b: real, p: real, ap: real, bp: real)
    requires p > 0.0 && ap == a * p && bp == b * p && ap < bp + p
    ensures a < b + 1.0
  {
    assert (a - b - 1.0) * p == ap - bp - p;
    Negative(a - b - 1.0, p);
  }

  lemma Negative(x: real, p: real)
    requires p > 0.0 && x * p < 0.0
    ensures x < 0.0
  {
  }

  lemma ShiftedIsFloor(d: nat, v: nat, s: int)
    requires IsShifted(d, v, s)
    ensures (v as real * Ten(s)).Floor == d
  {
    hide Ten, Pow10, IsFloor;
    if s >= 0 {
      TenIsPow(s);
      CastTimes(v, Pow10(s));
    } else {
      TenInverse(0 - s);
      var p, x := Pow10(0 - s), v as real * Ten(s);
      assert x * p as real == v as real * (Ten(s) * p as real);
      FloorIs(x, d, p, v);
    }
  }

  // ---- What is rendered -----------------------------------------------------------------

  lemma TextDigits(ds: seq<nat>)
    requires Decimal(ds)
    ensures AllDigits(Text(ds)) && Digits(Text(ds)) == ds && |Text(ds)| == |ds|
    ensures forall i :: 0 <= i < |Text(ds)| ==> Text(ds)[i] != '.' && Text(ds)[i] != '-' && Text(ds)[i] != '+'
  {
  }

  lemma PointAt(a: string, b: string)
    requires forall i :: 0 <= i < |a| ==> a[i] != '.'
    ensures IndexOfPoint(a) == |a| && IndexOfPoint(a + "." + b) == |a|
  {
    var s := a + "." + b;
    assert s[|a|] == '.' && forall i :: 0 <= i < |a| ==> s[i] == a[i];
  }

  lemma BodyReads(a: string, b: string, frac: bool)
    requires forall i :: 0 <= i < |a| ==> a[i] != '.'
    ensures var body := a + (if frac then "." + b else "");
            var p := IndexOfPoint(body);
            p == |a| && body[..p] == a && (p < |body| <==> frac) && (frac ==> body[p + 1..] == b)
  {
    PointAt(a, b);
    if frac {
      assert a + ("." + b) == a + "." + b;
    } else {
      assert a + "" == a;
    }
  }

  /** Reading a shown number gives back its sign and digits. */
  lemma ShownReads(neg: bool, int': seq<nat>, frac: seq<nat>)
    requires Decimal(int') && Decimal(frac) && int' != []
    ensures ParseLiteral(Shown(neg, int', frac)) == Some(Literal(neg, int', frac))
  {
    hide Text, Digits, AllDigits, IndexOfPoint, Decimal, ParseLiteral;
    TextDigits(int');
    TextDigits(frac);
    NoText();
    ShownParses(neg, Text(int'), Text(frac), frac != []);
  }

  lemma ShownParses(neg: bool, a: string, b: string, frac: bool)
    requires AllDigits(a) && AllDigits(b) && a != "" && forall i :: 0 <= i < |a| ==> a[i] != '.' && a[i] != '-' && a[i] != '+'
    ensures var t := (if neg then "-" else "") + a + (if frac then "." + b else "");
            ParseLiteral(t) == Some(Literal(neg, Digits(a), Digits(if frac then b else "")))
  {
    hide Digits, AllDigits, IndexOfPoint, ParseLiteral;
    BodyReads(a, b, frac);
    NoText();
    var body := a + (if frac then "." + b else "");
    assert body[0] == a[0];
    if neg {
      assert "-" + a + (if frac then "." + b else "") == "-" + body;
    } else {
      assert "" + a + (if frac then "." + b else "") == body;
    }
    BodyParses(neg, body, a, if frac then b else "");
  }

  lemma BodyParses(neg: bool, body: string, a: string, b: string)
    requires body != "" && body[0] != '-' && body[0] != '+' && a != "" && AllDigits(a) && AllDigits(b)
    requires var p := IndexOfPoint(body); body[..p] == a && b == if p < |body| then body[p + 1..] else ""
    ensures ParseLiteral(if neg then "-" + body else body) == Some(Literal(neg, Digits(a), Digits(b)))
  {
    hide Digits, AllDigits, IndexOfPoint;
    if neg {
      assert ("-" + body)[1..] == body;
    }
  }

  lemma NoText()
    ensures AllDigits("") && Digits("") == []
  {
  }

  lemma {:induction false} StripValue(ds: seq<nat>, more: seq<nat>)
    requires Decimal(ds)
    ensures DecimalValue(Strip(ds) + more) == DecimalValue(ds + more)
    decreases |ds|
  {
    if ds == [] {
      LeadingZeros([0] + more, 1);
      assert ([0] + more)[1..] == more && ds + more == more;
    } else if ds[0] == 0 {
      StripValue(ds[1..], more);
      LeadingZeros(ds + more, 1);
      assert (ds + more)[1..] == ds[1..] + more;
    }
  }

  /** Canonical: no leading zero but a lone one. */
  predicate Stripped(ds: seq<nat>) {
    ds != [] && (ds[0] == 0 ==> |ds| == 1)
  }

  lemma {:induction false} StripStrips(ds: seq<nat>)
    requires Decimal(ds)
    ensures Stripped(Strip(ds))
    decreases |ds|
  {
    if ds != [] && ds[0] == 0 {
      StripStrips(ds[1..]);
    }
  }

  /**
   The rendered string denotes the stored number: read as a decimal literal it has the number's sign, exactly `dscale`
   fractional digits, no leading zeros, and its digits are the sum of `groups[k] * 10000^(weight - k)` cut off after
   `dscale` decimal places, whatever the weight.
   */
  lemma RenderDenotes(n: Stored)
    requires GroupsOk(n.groups)
    ensures ParseLiteral(Render(n)).Some?
    ensures var l := ParseLiteral(Render(n)).value;
            && l.neg == n.neg && |l.frac| == n.dscale && Stripped(l.int')
            && DecimalValue(l.int' + l.frac) == (Magnitude(n.weight, n.groups) * Ten(n.dscale)).Floor
  {
    hide Strip, IntDigits, FracDigits, DigitAt, DecimalValue, GroupValue, Pow10, Ten, Magnitude, ParseLiteral, Shown, IsShifted, DigitsFrom, Stripped, Decimal;
    var w, gs, d, top := n.weight, n.groups, n.dscale, Top(n.weight);
    var ints, frac := IntDigits(w, gs, top + 1), FracDigits(w, gs, d);
    ShownReads(n.neg, Strip(ints), frac);
    StripStrips(ints);
    StripValue(ints, frac);
    AllRendered(w, gs, top, d);
    DigitsAreShifted(w, gs, top, top + 1 + d);
    Denoted(DecimalValue(ints + frac), w, gs, d);
  }

  lemma Denoted(v: nat, weight: int, gs: seq<nat>, scale: nat)
    requires IsShifted(v, GroupValue(gs), 4 * (weight + 1 - |gs|) + scale)
    ensures (Magnitude(weight, gs) * Ten(scale)).Floor == v
  {
    hide GroupValue, Ten, Magnitude, IsShifted;
    MagnitudeIs(weight, gs);
    TenSum(4 * (weight + 1 - |gs|), scale);
    Associate(GroupValue(gs) as real, Ten(4 * (weight + 1 - |gs|)), Ten(scale));
    ShiftedIsFloor(v, GroupValue(gs), 4 * (weight + 1 - |gs|) + scale);
  }

  lemma Associate(a: real, b: real, c: real)
    ensures a * b * c == a * (b * c)
  {
  }

  lemma AllRendered(weight: int, gs: seq<nat>, top: nat, d: nat)
    ensures IntDigits(weight, gs, top + 1) + FracDigits(weight, gs, d) == DigitsFrom(weight, gs, top, top + 1 + d)
  {
    hide DigitAt;
    IntIsFrom(weight, gs, top + 1);
    var all := DigitsFrom(weight, gs, top, top + 1 + d);
    assert all[..top + 1] == DigitsFrom(weight, gs, top, top + 1);
    assert all[top + 1..] == FracDigits(weight, gs, d);
  }
}
