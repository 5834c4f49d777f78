/**
 Rendering jsonb (src/wal/heap.rs `jsonb_write`): containers of entries, each storing a length or an end offset, with
 numerics and nested containers aligned. String quoting is a parameter.
 */
module Jsonb {
  import opened Base
  import opened LittleEndian
  import Numeric

  const MAX_DEPTH: nat := 200
  const LEN_MASK: nat := 0x1000_0000

  /** The JSON literal of a stored string's bytes. */
  type Quote = Bytes -> string

  function Pad(at: nat): (p: nat)
    ensures p < 4 && (at + p) % 4 == 0
  {
    (4 - at % 4) % 4
  }

  // ---- Decoding -------------------------------------------------------------------------

  function Word(c: Bytes, i: nat): Option<nat> {
    if 8 + 4 * i > |c| then None else Some(Get(c[4 + 4 * i..8 + 4 * i]))
  }

  function TypeOf(word: nat): nat { word / LEN_MASK % 8 }
  predicate HasOffset(word: nat) { word / 0x8000_0000 % 2 == 1 }

  /** Where the first `k` entries end in the data region. */
  function End(c: Bytes, k: nat): Option<nat> {
    if k == 0 then Some(0)
    else
      var prev, w := End(c, k - 1), Word(c, k - 1);
      if prev.None? || w.None? then None
      else Some(if HasOffset(w.value) then w.value % LEN_MASK else prev.value + w.value % LEN_MASK)
  }

  function NumericText(v: Bytes): Option<string> {
    if v == [] then None
    else if v[0] % 2 == 1 then
      var total := v[0] as nat / 2;
      if total < 1 || total > |v| then None else Numeric.NumericToString(v[1..total])
    else if |v| < 4 then None
    else
      var total := Get(v[0..4]) / 4;
      if total < 4 || total > |v| then None else Numeric.NumericToString(v[4..total])
  }

  /** The text of entry `i` of a container with `n` entries. */
  function ValueText(c: Bytes, n: nat, i: nat, depth: nat, quote: Quote): Option<string>
    requires i < n
    decreases |c|, 0, 0
  {
    var w, from, to := Word(c, i), End(c, i), End(c, i + 1);
    if w.None? || from.None? || to.None? then None
    else
      var s, e := 4 + 4 * n + from.value, 4 + 4 * n + to.value;
      if s > e || e > |c| then None
      else
        match TypeOf(w.value)
        case 0 => Some(quote(c[s..e]))
        case 1 => if s + Pad(s) > e then None else NumericText(c[s + Pad(s)..e])
        case 2 => Some("false")
        case 3 => Some("true")
        case 4 => Some("null")
        case 5 => if s + Pad(s) > e then None else ContainerText(c[s + Pad(s)..e], depth + 1, quote)
        case _ => None
  }

  function Append(a: Option<string>, sep: string, b: Option<string>): Option<string> {
    if a.None? || b.None? then None else Some(a.value + sep + b.value)
  }

  /** The first `k` elements, separated. */
  function ListText(c: Bytes, n: nat, k: nat, depth: nat, quote: Quote): Option<string>
    requires k <= n
    decreases |c|, 1, k
  {
    if k == 0 then Some("")
    else Append(ListText(c, n, k - 1, depth, quote), if k > 1 then ", " else "", ValueText(c, n, k - 1, depth, quote))
  }

  /** The first `k` pairs of an object of `count` pairs: keys come first, then values. */
  function PairsText(c: Bytes, count: nat, k: nat, depth: nat, quote: Quote): Option<string>
    requires k <= count
    decreases |c|, 1, k
  {
    if k == 0 then Some("")
    else
      Append(PairsText(c, count, k - 1, depth, quote), if k > 1 then ", " else "", PairText(c, count, k - 1, depth, quote))
  }

  function PairText(c: Bytes, count: nat, i: nat, depth: nat, quote: Quote): Option<string>
    requires i < count
    decreases |c|, 1, 0
  {
    Append(ValueText(c, 2 * count, i, depth, quote), ": ", ValueText(c, 2 * count, count + i, depth, quote))
  }

  function Wrap(open: string, t: Option<string>, close: string): Option<string> {
    if t.None? then None else Some(open + t.value + close)
  }

  function ContainerText(c: Bytes, depth: nat, quote: Quote): Option<string>
    decreases |c|, 2, 0
  {
    if depth > MAX_DEPTH || |c| < 4 then None
    else
      var h := Get(c[0..4]);
      var count, isObject, isScalar := h % LEN_MASK, h / 0x2000_0000 % 2 == 1, h / 0x1000_0000 % 2 == 1;
      var n := if isObject then 2 * count else count;
      if End(c, n).None? then None
      else if isScalar then (if n == 0 then None else ValueText(c, n, 0, depth, quote))
      else if isObject then Wrap("{", PairsText(c, count, count, depth, quote), "}")
      else Wrap("[", ListText(c, n, n, depth, quote), "]")
  }

  // ---- The writer -----------------------------------------------------------------------

  lemma {:induction false} EarlierEnds(c: Bytes, k: nat, n: nat)
    requires k <= n && End(c, k).None?
    ensures End(c, n).None?
    decreases n - k
  {
    hide Word, HasOffset;
    if k < n {
      EarlierEnds(c, k + 1, n);
    }
  }

  /** The running ends of all entries, in one pass over their words. */
  method Ends(c: Bytes, n: nat) returns (ends: seq<nat>, ok: bool)
    ensures ok <==> End(c, n).Some?
    ensures ok ==> |ends| == n && forall k :: 0 <= k < n ==> End(c, k + 1) == Some(ends[k])
  {
    hide Word, HasOffset;
    ends := [];
    var cum := 0;
    while |ends| < n
      invariant |ends| <= n && End(c, |ends|) == Some(cum)
      invariant forall k :: 0 <= k < |ends| ==> End(c, k + 1) == Some(ends[k])
    {
      var w := Word(c, |ends|);
      if w.None? {
        EarlierEnds(c, |ends| + 1, n);
        return ends, false;
      }
      cum := if HasOffset(w.value) then w.value % LEN_MASK else cum + w.value % LEN_MASK;
      ends := ends + [cum];
    }
    ok := true;
  }

  /** Appends entry `i` to the output. */
  method WriteValue(c: Bytes, n: nat, ends: seq<nat>, i: nat, out: string, depth: nat, quote: Quote) returns (text: string, ok: bool)
    requires i < n == |ends| && End(c, n).Some? && forall k :: 0 <= k < n ==> End(c, k + 1) == Some(ends[k])
    ensures ok <==> ValueText(c, n, i, depth, quote).Some?
    ensures ok ==> text == out + ValueText(c, n, i, depth, quote).value
    decreases |c|, 0
  {
    hide Word, HasOffset, TypeOf, Pad, NumericText, ContainerText;
    text, ok := out, false;
    var w := Word(c, i);
    assert w.Some? by { assert End(c, i + 1).Some?; }
    var from := if i == 0 then 0 else ends[i - 1];
    assert End(c, i) == Some(from) by {
      if i > 0 { assert End(c, (i - 1) + 1) == Some(ends[i - 1]); }
    }
    var s, e := 4 + 4 * n + from, 4 + 4 * n + ends[i];
    if s > e || e > |c| { return; }
    match TypeOf(w.value) {
      case 0 => text, ok := out + quote(c[s..e]), true;
      case 1 =>
        if s + Pad(s) <= e {
          var number := NumericText(c[s + Pad(s)..e]);
          if number.Some? { text, ok := out + number.value, true; }
        }
      case 2 => text, ok := out + "false", true;
      case 3 => text, ok := out + "true", true;
      case 4 => text, ok := out + "null", true;
      case 5 =>
        if s + Pad(s) <= e { text, ok := Write(c[s + Pad(s)..e], out, depth + 1, quote); }
      case _ =>
    }
  }

  /** Appends a container's text to the output, entry by entry. */
  method Write(c: Bytes, out: string, depth: nat, quote: Quote) returns (text: string, ok: bool)
    ensures ok <==> ContainerText(c, depth, quote).Some?
    ensures ok ==> text == out + ContainerText(c, depth, quote).value
    decreases |c|, 3
  {
    hide ValueText, Get, End;
    text, ok := out, false;
    if depth > MAX_DEPTH || |c| < 4 { return; }
    var h := Get(c[0..4]);
    var count, isObject, isScalar := h % LEN_MASK, h / 0x2000_0000 % 2 == 1, h / 0x1000_0000 % 2 == 1;
    var n := if isObject then 2 * count else count;
    var ends, complete := Ends(c, n);
    if !complete { return; }
    if isScalar {
      if n > 0 { text, ok := WriteValue(c, n, ends, 0, out, depth, quote); }
    } else if isObject {
      text, ok := WritePairs(c, count, ends, out + "{", depth, quote);
      text := text + "}";
    } else {
      text, ok := WriteList(c, n, ends, out + "[", depth, quote);
      text := text + "]";
    }
  }

  method WriteList(c: Bytes, n: nat, ends: seq<nat>, out: string, depth: nat, quote: Quote) returns (text: string, ok: bool)
    requires n == |ends| && End(c, n).Some? && forall k :: 0 <= k < n ==> End(c, k + 1) == Some(ends[k])
    ensures ok <==> ListText(c, n, n, depth, quote).Some?
    ensures ok ==> text == out + ListText(c, n, n, depth, quote).value
    decreases |c|, 1
  {
    hide ValueText, End;
    text, ok := out, true;
    var i := 0;
    while i < n
      invariant i <= n && ok && ListText(c, n, i, depth, quote).Some?
      invariant text == out + ListText(c, n, i, depth, quote).value
    {
      if i > 0 { text := text + ", "; }
      text, ok := WriteValue(c, n, ends, i, text, depth, quote);
      if !ok {
        ListStops(c, n, i + 1, n, depth, quote);
        return;
      }
      i := i + 1;
    }
  }

  method WritePairs(c: Bytes, count: nat, ends: seq<nat>, out: string, depth: nat, quote: Quote) returns (text: string, ok: bool)
    requires 2 * count == |ends| && End(c, |ends|).Some? && forall k :: 0 <= k < |ends| ==> End(c, k + 1) == Some(ends[k])
    ensures ok <==> PairsText(c, count, count, depth, quote).Some?
    ensures ok ==> text == out + PairsText(c, count, count, depth, quote).value
    decreases |c|, 2
  {
    hide PairText, End;
    text, ok := out, true;
    var i := 0;
    while i < count
      invariant i <= count && ok && PairsText(c, count, i, depth, quote).Some?
      invariant text == out + PairsText(c, count, i, depth, quote).value
    {
      if i > 0 { text := text + ", "; }
      text, ok := WritePair(c, count, ends, i, text, depth, quote);
      if !ok {
        PairsStop(c, count, i + 1, count, depth, quote);
        return;
      }
      i := i + 1;
    }
  }

  method WritePair(c: Bytes, count: nat, ends: seq<nat>, i: nat, out: string, depth: nat, quote: Quote) returns (text: string, ok: bool)
    requires i < count
    requires 2 * count == |ends| && End(c, |ends|).Some? && forall k :: 0 <= k < |ends| ==> End(c, k + 1) == Some(ends[k])
    ensures ok <==> PairText(c, count, i, depth, quote).Some?
    ensures ok ==> text == out + PairText(c, count, i, depth, quote).value
    decreases |c|, 1
  {
    hide ValueText, End;
    text, ok := WriteValue(c, |ends|, ends, i, out, depth, quote);
    if ok {
      text, ok := WriteValue(c, |ends|, ends, count + i, text + ": ", depth, quote);
    }
  }

  lemma {:induction false} ListStops(c: Bytes, n: nat, k: nat, m: nat, depth: nat, quote: Quote)
    requires k <= m <= n && ListText(c, n, k, depth, quote).None?
    ensures ListText(c, n, m, depth, quote).None?
    decreases m - k
  {
    hide ValueText;
    if k < m {
      ListStops(c, n, k + 1, m, depth, quote);
    }
  }

  lemma {:induction false} PairsStop(c: Bytes, count: nat, k: nat, m: nat, depth: nat, quote: Quote)
    requires k <= m <= count && PairsText(c, count, k, depth, quote).None?
    ensures PairsText(c, count, m, depth, quote).None?
    decreases m - k
  {
    hide PairText;
    if k < m {
      PairsStop(c, count, k + 1, m, depth, quote);
    }
  }

  // ---- Trees and their layout -----------------------------------------------------------

  datatype Kind = Array | Object | Scalar

  /** `short`: the numeric's one-byte header form. */
  datatype Json = Null | Bool(b: bool) | Num(payload: Bytes, short: bool) | Str(bytes: Bytes) | Box(kind: Kind, entries: seq<Entry>)

  /** `stored`: the entry's word holds its end offset rather than its length. */
  datatype Entry = Entry(value: Json, stored: bool)

  function TypeCode(j: Json): (t: nat)
    ensures t <= 5
  {
    match j
    case Str(_) => 0
    case Num(_, _) => 1
    case Bool(b) => if b then 3 else 2
    case Null => 4
    case Box(_, _) => 5
  }

  function NumericBytes(payload: Bytes, short: bool): Bytes
    requires short ==> |payload| <= 126
  {
    if short then [((|payload| + 1) * 2 + 1) as byte] + payload else Put((|payload| + 4) * 4, 4) + payload
  }

  predicate Aligned(j: Json) {
    j.Num? || j.Box?
  }

  predicate NumOk(j: Json) {
    j.Num? ==> (j.short ==> |j.payload| <= 126) && |j.payload| < 0x1000_0000 && Numeric.NumericToString(j.payload).Some?
  }

  function Count(kind: Kind, n: nat): nat {
    if kind.Object? then n / 2 else n
  }

  function KindBits(kind: Kind): nat {
    match kind case Array => 0x4000_0000 case Object => 0x2000_0000 case Scalar => 0x5000_0000
  }

  /** A tree that can be laid out: a scalar box has one entry, an object's keys are strings. */
  predicate Shape(j: Json)
    decreases j
  {
    && NumOk(j)
    && (j.Box? ==>
          && (j.kind.Scalar? ==> |j.entries| == 1)
          && (j.kind.Object? ==> |j.entries| % 2 == 0 && forall i :: 0 <= i < |j.entries| / 2 ==> j.entries[i].value.Str?)
          && forall i :: 0 <= i < |j.entries| ==> Shape(j.entries[i].value))
  }

  function ValueBytes(j: Json): Bytes
    requires Shape(j)
    decreases j, 3, 0
  {
    match j
    case Str(b) => b
    case Num(p, short) => NumericBytes(p, short)
    case Box(kind, es) => Put(Count(kind, |es|) + KindBits(kind), 4) + Words(j, |es|) + Data(j, |es|)
    case _ => []
  }

  /** The data of the first `n` entries of a container, each with its leading padding. */
  function Data(j: Json, n: nat): Bytes
    requires Shape(j) && j.Box? && n <= |j.entries|
    decreases j, 0, n
  {
    if n == 0 then []
    else
      var front, v := Data(j, n - 1), j.entries[n - 1].value;
      front + Zeros(if Aligned(v) then Pad(|front|) else 0) + ValueBytes(v)
  }

  function EntryWord(j: Json, i: nat): nat
    requires Shape(j) && j.Box? && i < |j.entries|
    decreases j, 1, i
  {
    var before, after := |Data(j, i)|, |Data(j, i + 1)|;
    TypeCode(j.entries[i].value) * LEN_MASK + (if j.entries[i].stored then 0x8000_0000 + after else after - before)
  }

  function Words(j: Json, n: nat): (b: Bytes)
    requires Shape(j) && j.Box? && n <= |j.entries|
    ensures |b| == 4 * n
    decreases j, 2, n
  {
    if n == 0 then [] else Words(j, n - 1) + Put(EntryWord(j, n - 1), 4)
  }

  /** Every container's data and entry count fit their 28-bit fields. */
  predicate Fits(j: Json)
    requires Shape(j)
    decreases j
  {
    j.Box? ==> |j.entries| < LEN_MASK && |Data(j, |j.entries|)| < LEN_MASK
               && forall i :: 0 <= i < |j.entries| ==> Fits(j.entries[i].value)
  }

  /** At most `d` further levels of containers lie under this one. */
  predicate Nested(j: Json, d: nat)
    decreases j, 1
  {
    j.Box? ==> forall i :: 0 <= i < |j.entries| ==> EntryNested(j, i, d)
  }

  predicate EntryNested(j: Json, i: nat, d: nat)
    requires j.Box? && i < |j.entries|
    decreases j, 0
  {
    j.entries[i].value.Box? ==> d > 0 && Nested(j.entries[i].value, d - 1)
  }

  /** The first `k` entries nest within `d`; for an object, the first `k` pairs. */
  predicate Within(j: Json, k: nat, d: nat)
    requires j.Box? && k <= |j.entries|
  {
    forall i :: 0 <= i < k ==> EntryNested(j, i, d)
  }

  predicate PairsWithin(j: Json, k: nat, d: nat)
    requires j.Box? && k <= |j.entries| / 2
  {
    forall i :: |j.entries| / 2 <= i < |j.entries| / 2 + k ==> EntryNested(j, i, d)
  }

  // ---- Canonical text -------------------------------------------------------------------

  function Text(j: Json, quote: Quote): string
    requires Shape(j)
    decreases j, 1, 0
  {
    match j
    case Null => "null"
    case Bool(b) => if b then "true" else "false"
    case Num(p, _) => Numeric.NumericToString(p).value
    case Str(b) => quote(b)
    case Box(kind, es) =>
      match kind
      case Scalar => Text(es[0].value, quote)
      case Array => "[" + Joined(j, |es|, quote) + "]"
      case Object => "{" + JoinedPairs(j, |es| / 2, quote) + "}"
  }

  function Joined(j: Json, k: nat, quote: Quote): string
    requires Shape(j) && j.Box? && k <= |j.entries|
    decreases j, 0, k
  {
    if k == 0 then ""
    else Joined(j, k - 1, quote) + (if k > 1 then ", " else "") + Text(j.entries[k - 1].value, quote)
  }

  function JoinedPairs(j: Json, k: nat, quote: Quote): string
    requires Shape(j) && j.Box? && j.kind.Object? && k <= |j.entries| / 2
    decreases j, 0, k
  {
    if k == 0 then ""
    else
      JoinedPairs(j, k - 1, quote) + (if k > 1 then ", " else "")
      + (Text(j.entries[k - 1].value, quote) + ": " + Text(j.entries[|j.entries| / 2 + k - 1].value, quote))
  }

  // ---- Layout facts ---------------------------------------------------------------------

  ghost predicate Ready(j: Json) {
    Shape(j) && j.Box? && Fits(j)
  }

  lemma DataStep(j: Json, n: nat)
    requires Shape(j) && j.Box? && n < |j.entries|
    ensures var v := j.entries[n].value;
            Data(j, n + 1) == Data(j, n) + Zeros(if Aligned(v) then Pad(|Data(j, n)|) else 0) + ValueBytes(v)
  {
    hide ValueBytes, Pad;
  }

  lemma {:induction false} DataGrows(j: Json, n: nat, m: nat)
    requires Shape(j) && j.Box? && n <= m <= |j.entries|
    ensures Data(j, n) <= Data(j, m)
    decreases m - n
  {
    hide Data, ValueBytes, Pad;
    if n < m {
      DataGrows(j, n, m - 1);
      DataStep(j, m - 1);
    }
  }

  lemma WordParts(t: nat, stored: bool, v: nat)
    requires t <= 5 && v < LEN_MASK
    ensures var w := t * LEN_MASK + (if stored then 0x8000_0000 + v else v);
            w < 0x1_0000_0000 && TypeOf(w) == t && (HasOffset(w) <==> stored) && w % LEN_MASK == v
  {
  }

  lemma {:induction false} WordsAt(j: Json, n: nat, i: nat)
    requires Shape(j) && j.Box? && i < n <= |j.entries|
    ensures Words(j, n)[4 * i..4 * i + 4] == Put(EntryWord(j, i), 4)
    decreases n
  {
    hide EntryWord, Put;
    if i < n - 1 {
      WordsAt(j, n - 1, i);
      assert Words(j, n)[4 * i..4 * i + 4] == Words(j, n - 1)[4 * i..4 * i + 4];
    }
  }

  lemma EntryWordParts(j: Json, i: nat)
    requires Ready(j) && i < |j.entries|
    ensures var w := EntryWord(j, i);
            && w < 0x1_0000_0000 && TypeOf(w) == TypeCode(j.entries[i].value) && (HasOffset(w) <==> j.entries[i].stored)
            && w % LEN_MASK == (if j.entries[i].stored then |Data(j, i + 1)| else |Data(j, i + 1)| - |Data(j, i)|)
            && |Data(j, i)| <= |Data(j, i + 1)|
  {
    hide Data, TypeCode, TypeOf, HasOffset;
    DataGrows(j, i, i + 1);
    DataGrows(j, i + 1, |j.entries|);
    var before, after := |Data(j, i)|, |Data(j, i + 1)|;
    WordParts(TypeCode(j.entries[i].value), j.entries[i].stored, if j.entries[i].stored then after else after - before);
  }

  lemma BoxParts(j: Json)
    requires Ready(j)
    ensures var c, n := ValueBytes(j), |j.entries|;
            && |c| == 4 + 4 * n + |Data(j, n)| && c[0..4] == Put(Count(j.kind, n) + KindBits(j.kind), 4)
            && c[4..4 + 4 * n] == Words(j, n) && c[4 + 4 * n..] == Data(j, n)
  {
    hide Words, Data, Put, Count, KindBits;
  }

  lemma SliceOfSlice<T>(s: seq<T>, from: nat, until: nat, at: nat, len: nat)
    requires from <= until <= |s| && at + len <= until - from
    ensures s[from..until][at..at + len] == s[from + at..from + at + len]
  {
    var a, b := s[from..until][at..at + len], s[from + at..from + at + len];
    forall k | 0 <= k < len ensures a[k] == b[k] {
      assert a[k] == s[from..until][at + k] == s[from + (at + k)];
    }
  }

  lemma WordRead(j: Json, i: nat)
    requires Ready(j) && i < |j.entries|
    ensures Word(ValueBytes(j), i) == Some(EntryWord(j, i))
  {
    hide Words, Data, Put, Get, EntryWord, ValueBytes;
    BoxParts(j);
    WordsAt(j, |j.entries|, i);
    EntryWordParts(j, i);
    Widths();
    GetPut(EntryWord(j, i), 4);
    var c, n := ValueBytes(j), |j.entries|;
    SliceOfSlice(c, 4, 4 + 4 * n, 4 * i, 4);
  }

  /** However each entry is stored, the running end is where its data ends. */
  lemma {:induction false} EndRead(j: Json, k: nat)
    requires Ready(j) && k <= |j.entries|
    ensures End(ValueBytes(j), k) == Some(|Data(j, k)|)
  {
    hide Data, EntryWord, ValueBytes, Word, HasOffset, TypeOf;
    if k == 0 {
      NoData(j);
    } else {
      EndRead(j, k - 1);
      WordRead(j, k - 1);
      EntryWordParts(j, k - 1);
    }
  }

  lemma NoData(j: Json)
    requires Shape(j) && j.Box?
    ensures Data(j, 0) == []
  {
  }

  lemma EntryShape(j: Json, i: nat)
    requires Shape(j) && j.Box? && i < |j.entries|
    ensures Shape(j.entries[i].value)
  {
  }

  /** Entry `i`'s bytes are where the decoder looks, and skipping the padding leaves exactly its value. */
  lemma SlotRead(j: Json, i: nat)
    requires Ready(j) && i < |j.entries|
    ensures var c, n, v := ValueBytes(j), |j.entries|, j.entries[i].value;
            var s, e := 4 + 4 * n + |Data(j, i)|, 4 + 4 * n + |Data(j, i + 1)|;
            && s <= e <= |c|
            && (!Aligned(v) ==> c[s..e] == ValueBytes(v))
            && (Aligned(v) ==> s + Pad(s) <= e && c[s + Pad(s)..e] == ValueBytes(v))
  {
    hide Data, ValueBytes, Pad, Fits, Zeros, Shape;
    EntryShape(j, i);
    DataRegion(j);
    DataStep(j, i);
    DataGrows(j, i + 1, |j.entries|);
    var c, n, v := ValueBytes(j), |j.entries|, j.entries[i].value;
    var front := Data(j, i);
    PadShift(n, |front|);
    if Aligned(v) {
      SliceUnder(c, 4 + 4 * n, Data(j, n), front, Zeros(Pad(|front|)), ValueBytes(v));
    } else {
      SliceUnder(c, 4 + 4 * n, Data(j, n), front, Zeros(0), ValueBytes(v));
    }
  }

  lemma DataRegion(j: Json)
    requires Ready(j)
    ensures 4 + 4 * |j.entries| <= |ValueBytes(j)| && ValueBytes(j)[4 + 4 * |j.entries|..] == Data(j, |j.entries|)
  {
    hide ValueBytes, Words, Data, Put;
    BoxParts(j);
  }

  /** Where `front + gap + value` opens the data region at `base`, the value is found past the gap. */
  lemma SliceUnder(c: Bytes, base: nat, all: Bytes, front: Bytes, gap: Bytes, value: Bytes)
    requires base <= |c| && c[base..] == all && front + gap + value <= all
    ensures var at := base + |front| + |gap|;
            at + |value| <= |c| && c[at..at + |value|] == value
  {
    var at := |front| + |gap|;
    SliceOfSlice(c, base, |c|, at, |value|);
    assert all[at..at + |value|] == value by {
      assert all[..at + |value|] == front + gap + value;
      SliceOfSlice(all, 0, at + |value|, at, |value|);
    }
  }

  lemma PadShift(n: nat, at: nat)
    ensures Pad(4 + 4 * n + at) == Pad(at)
  {
    assert (4 + 4 * n + at) % 4 == at % 4;
  }

  // ---- Rendering ------------------------------------------------------------------------

  lemma NumericRead(p: Bytes, short: bool)
    requires NumOk(Num(p, short))
    ensures NumericText(NumericBytes(p, short)) == Numeric.NumericToString(p)
  {
    hide Get, Put, Numeric.NumericToString;
    var v := NumericBytes(p, short);
    if short {
      assert v[1..|p| + 1] == p;
    } else {
      var h := (|p| + 4) * 4;
      Widths();
      GetPut(h, 4);
      LowByteEven(h);
      assert v[0..4] == Put(h, 4) && v[4..|p| + 4] == p;
      assert v[0] == Put(h, 4)[0];
    }
  }

  lemma LowByteEven(h: nat)
    requires h % 4 == 0
    ensures Put(h, 4)[0] % 2 == 0
  {
    assert Put(h, 4)[0] == (h % 256) as byte;
    assert (h % 256) % 2 == 0 by { assert h == 256 * (h / 256) + h % 256; }
  }

  function Given(ok: bool, t: string): Option<string> {
    if ok then Some(t) else None
  }

  lemma {:induction false} ValueRenders(j: Json, i: nat, depth: nat, quote: Quote)
    requires Ready(j) && i < |j.entries| && depth <= MAX_DEPTH
    ensures ValueText(ValueBytes(j), |j.entries|, i, depth, quote)
         == Given(EntryNested(j, i, MAX_DEPTH - depth), Text(j.entries[i].value, quote))
    decreases j, 0, 0
  {
    hide Data, EntryWord, ValueBytes, Word, End, HasOffset, TypeOf, Pad, NumericText, ContainerText, Nested, NumericBytes, Put;
    WordRead(j, i);
    EntryWordParts(j, i);
    EndRead(j, i);
    EndRead(j, i + 1);
    SlotRead(j, i);
    var v := j.entries[i].value;
    if v.Num? {
      NumberBytes(v);
      NumericRead(v.payload, v.short);
    } else if v.Box? {
      if depth == MAX_DEPTH {
        TooDeep(ValueBytes(v), depth + 1, quote);
      } else {
        BoxRenders(v, depth + 1, quote);
      }
    } else {
      PlainBytes(v);
    }
  }

  lemma TooDeep(c: Bytes, depth: nat, quote: Quote)
    requires depth > MAX_DEPTH
    ensures ContainerText(c, depth, quote) == None
  {
  }

  lemma NumberBytes(v: Json)
    requires Shape(v) && v.Num?
    ensures ValueBytes(v) == NumericBytes(v.payload, v.short)
  {
  }

  lemma PlainBytes(v: Json)
    requires Shape(v) && !v.Box? && !v.Num?
    ensures ValueBytes(v) == if v.Str? then v.bytes else []
  {
  }

  lemma HeaderParts(j: Json)
    requires Ready(j)
    ensures var h, n := Count(j.kind, |j.entries|) + KindBits(j.kind), |j.entries|;
            && h < 0x1_0000_0000 && h % LEN_MASK == Count(j.kind, n)
            && (h / 0x2000_0000 % 2 == 1 <==> j.kind.Object?) && (h / 0x1000_0000 % 2 == 1 <==> j.kind.Scalar?)
            && (if j.kind.Object? then 2 * Count(j.kind, n) else Count(j.kind, n)) == n
  {
    hide Data;
  }

  lemma {:induction false} ListRenders(j: Json, k: nat, depth: nat, quote: Quote)
    requires Ready(j) && k <= |j.entries| && depth <= MAX_DEPTH
    ensures ListText(ValueBytes(j), |j.entries|, k, depth, quote) == Given(Within(j, k, MAX_DEPTH - depth), Joined(j, k, quote))
    decreases j, 1, k
  {
    hide ValueBytes, ValueText, Text, EntryNested, Ready;
    if k > 0 {
      ListRenders(j, k - 1, depth, quote);
      ValueRenders(j, k - 1, depth, quote);
    }
  }

  lemma {:induction false} PairsRender(j: Json, k: nat, depth: nat, quote: Quote)
    requires Ready(j) && j.kind.Object? && k <= |j.entries| / 2 && depth <= MAX_DEPTH
    ensures |j.entries| == 2 * (|j.entries| / 2)
    ensures PairsText(ValueBytes(j), |j.entries| / 2, k, depth, quote)
         == Given(PairsWithin(j, k, MAX_DEPTH - depth), JoinedPairs(j, k, quote))
    decreases j, 1, k
  {
    hide ValueBytes, ValueText, Text, Nested, Fits;
    if k > 0 {
      PairsRender(j, k - 1, depth, quote);
      ValueRenders(j, k - 1, depth, quote);
      ValueRenders(j, |j.entries| / 2 + k - 1, depth, quote);
    }
  }

  /** An object's keys are strings, so only its values can nest. */
  lemma PairsCover(j: Json, d: nat)
    requires Shape(j) && j.Box? && j.kind.Object?
    ensures PairsWithin(j, |j.entries| / 2, d) <==> Nested(j, d)
  {
  }

  /**
   The decoder renders every laid-out tree as its canonical text: arrays, objects with their keys first, scalars, and
   any mix of stored lengths and offsets. It does so exactly when the tree nests within the depth limit, and refuses the
   others.
   */
  lemma {:induction false} BoxRenders(j: Json, depth: nat, quote: Quote)
    requires Ready(j) && depth <= MAX_DEPTH
    ensures ContainerText(ValueBytes(j), depth, quote) == Given(Nested(j, MAX_DEPTH - depth), Text(j, quote))
    decreases j, 2, 0
  {
    hide Data, Words, ValueBytes, ValueText, ListText, PairsText, Joined, JoinedPairs, End, Get, Put, EntryNested, PairsWithin, Count, KindBits;
    var c, n := ValueBytes(j), |j.entries|;
    var h := Count(j.kind, n) + KindBits(j.kind);
    BoxParts(j);
    HeaderParts(j);
    Widths();
    GetPut(h, 4);
    EndRead(j, n);
    match j.kind
    case Scalar => ValueRenders(j, 0, depth, quote);
    case Array => ListRenders(j, n, depth, quote);
    case Object =>
      PairsRender(j, n / 2, depth, quote);
      PairsCover(j, MAX_DEPTH - depth);
  }
}
