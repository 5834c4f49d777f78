/**
 Column types (src/schema.rs `PgType`): how each is stored, what value the log holds for it (src/wal/heap.rs
 `decode_value`), and the way back (`encode_attrs`). Lossy UTF-8 decoding and JSON string quoting are parameters; integers
 wrap.
 */
module ColumnTypes {
  import opened Base
  import opened LittleEndian
  import opened Tuple
  import Numeric
  import NumericNormal
  import Jsonb

  datatype PgType =
    | Bool | Int2 | Int4 | Int8 | Float4 | Float8 | Text | Bytea | Uuid | Numeric | Jsonb | Date | Timestamp | TimestampTz

  /** A decoded value; a float is its bits. */
  datatype Value = Flag(b: bool) | Whole(i: int) | Real(bits: Bytes) | String(t: string) | Binary(v: Bytes)

  const EPOCH_DAYS: nat := 10_957
  const EPOCH_MICROS: nat := 946_684_800_000_000

  datatype Utf8 = Utf8(decode: Bytes -> string, encode: string -> Bytes, quote: Jsonb.Quote)

  function KindOf(ty: PgType): (k: Kind)
    ensures KindOk(k)
  {
    match ty
    case Bool => Fixed(1, 1)
    case Int2 => Fixed(2, 2)
    case Int4 => Fixed(4, 4)
    case Float4 => Fixed(4, 4)
    case Date => Fixed(4, 4)
    case Int8 => Fixed(8, 8)
    case Float8 => Fixed(8, 8)
    case Timestamp => Fixed(8, 8)
    case TimestampTz => Fixed(8, 8)
    case Uuid => Fixed(16, 1)
    case _ => Varlena
  }

  // ---- Integers -------------------------------------------------------------------------

  function Signed(v: nat, w: nat): int {
    if v < Pow256(w) / 2 then v else v - Pow256(w)
  }

  /** Two's complement in `w` bytes, whatever the integer. */
  function Low(i: int, w: nat): nat {
    i % Pow256(w)
  }

  /** `w`-byte addition. */
  function Plus(i: int, shift: int, w: nat): int {
    Signed(Low(i + shift, w), w)
  }

  lemma LowSigned(v: nat, w: nat)
    requires v < Pow256(w)
    ensures Low(Signed(v, w), w) == v
  {
    hide Pow256;
    var p := Pow256(w);
    var k := if v < p / 2 then 0 else -1;
    assert Signed(v, w) == p * k + v by { TimesSign(p); }
    ModUnique(Signed(v, w), p, k, v);
  }

  lemma TimesSign(p: nat)
    ensures p * 0 == 0 && p * -1 == 0 - p
  {
  }

  lemma Multiple(p: nat, d: int)
    ensures d >= 1 ==> p * d >= p
    ensures d <= -1 ==> p * d <= 0 - p
  {
    if d >= 1 {
      assert p * d == p + p * (d - 1);
    } else if d <= -1 {
      assert p * d == 0 - p - p * (-1 - d);
    }
  }

  lemma ModUnique(x: int, p: nat, q: int, r: nat)
    requires p > 0 && r < p && x == p * q + r
    ensures x % p == r
  {
    var d := x / p - q;
    assert x == p * (x / p) + x % p;
    assert p * d == r - x % p by { assert p * d == p * (x / p) - p * q; }
    Multiple(p, d);
  }

  /** Shifting and shifting back is the identity, overflow included. */
  lemma PlusMinus(v: nat, shift: int, w: nat)
    requires v < Pow256(w)
    ensures Low(Plus(Signed(v, w), shift, w) - shift, w) == v
  {
    hide Pow256;
    var p, s := Pow256(w), Signed(v, w);
    TimesSign(p);
    var x := s + shift;
    var low := x % p;
    assert x == p * (x / p) + low;
    var j := if low < p / 2 then 0 else -1;
    var k := if v < p / 2 then 0 else -1;
    assert Plus(s, shift, w) == p * j + low;
    assert s == p * k + v;
    var q := j - x / p + k;
    assert p * q == p * j - p * (x / p) + p * k;
    ModUnique(Plus(s, shift, w) - shift, p, q, v);
  }

  // ---- UUIDs ----------------------------------------------------------------------------

  function HexChar(d: nat): char
    requires d < 16
  {
    if d < 10 then '0' + d as char else 'a' + (d - 10) as char
  }

  function HexOf(v: Bytes): (h: string)
    ensures |h| == 2 * |v| && forall i :: 0 <= i < |h| ==> h[i] != '-'
  {
    if v == [] then "" else [HexChar(v[0] as nat / 16), HexChar(v[0] as nat % 16)] + HexOf(v[1..])
  }

  function HexValue(c: char): Option<nat> {
    if '0' <= c <= '9' then Some((c - '0') as nat)
    else if 'a' <= c <= 'f' then Some((c - 'a') as nat + 10)
    else if 'A' <= c <= 'F' then Some((c - 'A') as nat + 10)
    else None
  }

  /** Two hexadecimal digits, or a plus sign and one. */
  function HexByte(a: char, b: char): (r: Option<byte>) {
    var hi, lo := if a == '+' then Some(0) else HexValue(a), HexValue(b);
    if hi.None? || lo.None? || hi.value >= 16 || lo.value >= 16 then None else Some((hi.value * 16 + lo.value) as byte)
  }

  function FromHex(h: string): Option<Bytes> {
    if |h| < 2 then Some([])
    else
      var first, rest := HexByte(h[0], h[1]), FromHex(h[2..]);
      if first.None? || rest.None? then None else Some([first.value] + rest.value)
  }

  lemma HexDigit(d: nat)
    requires d < 16
    ensures HexValue(HexChar(d)) == Some(d) && HexChar(d) != '+'
  {
  }

  lemma ByteRoundTrip(b: byte)
    ensures HexByte(HexChar(b as nat / 16), HexChar(b as nat % 16)) == Some(b)
  {
    hide HexValue, HexChar;
    HexDigit(b as nat / 16);
    HexDigit(b as nat % 16);
  }

  lemma {:induction false} HexRoundTrip(v: Bytes)
    ensures FromHex(HexOf(v)) == Some(v)
  {
    hide HexValue, HexChar, HexByte;
    if v != [] {
      HexRoundTrip(v[1..]);
      ByteRoundTrip(v[0]);
      var h := HexOf(v);
      assert h[0] == HexChar(v[0] as nat / 16) && h[1] == HexChar(v[0] as nat % 16) && h[2..] == HexOf(v[1..]);
      assert v == [v[0]] + v[1..];
    }
  }

  function Undashed(t: string): string {
    if t == "" then "" else (if t[0] == '-' then "" else [t[0]]) + Undashed(t[1..])
  }

  function UuidText(v: Bytes): string
    requires |v| == 16
  {
    var h := HexOf(v);
    h[0..8] + "-" + h[8..12] + "-" + h[12..16] + "-" + h[16..20] + "-" + h[20..32]
  }

  function UuidBytes(t: string): Option<Bytes> {
    var h := Undashed(t);
    if |h| != 32 then None else FromHex(h)
  }

  lemma {:induction false} UndashedConcat(a: string, b: string)
    ensures Undashed(a + b) == Undashed(a) + Undashed(b)
  {
    if a == "" {
      assert a + b == b;
    } else {
      UndashedConcat(a[1..], b);
      assert (a + b)[1..] == a[1..] + b;
    }
  }

  lemma {:induction false} UndashedSame(a: string)
    requires forall i :: 0 <= i < |a| ==> a[i] != '-'
    ensures Undashed(a) == a
  {
    if a != "" {
      UndashedSame(a[1..]);
    }
  }

  lemma Dash()
    ensures Undashed("-") == ""
  {
  }

  lemma Joined(a: string, b: string)
    requires forall i :: 0 <= i < |b| ==> b[i] != '-'
    ensures Undashed(a + "-" + b) == Undashed(a) + b
  {
    hide Undashed;
    UndashedConcat(a + "-", b);
    UndashedConcat(a, "-");
    UndashedSame(b);
    Dash();
    assert Undashed(a) + "" == Undashed(a);
  }

  lemma UuidRoundTrip(v: Bytes)
    requires |v| == 16
    ensures UuidBytes(UuidText(v)) == Some(v)
  {
    hide HexOf, Undashed, FromHex;
    var h := HexOf(v);
    var a := h[0..8];
    UndashedSame(a);
    Joined(a, h[8..12]);
    Joined(a + "-" + h[8..12], h[12..16]);
    Joined(a + "-" + h[8..12] + "-" + h[12..16], h[16..20]);
    Joined(a + "-" + h[8..12] + "-" + h[12..16] + "-" + h[16..20], h[20..32]);
    assert a + h[8..12] + h[12..16] + h[16..20] + h[20..32] == h;
    HexRoundTrip(v);
  }

  // ---- Into the log and back ------------------------------------------------------------

  /** The value decoded from a column's payload; `None`: the payload does not decode. */
  function Logged(ty: PgType, v: Bytes, u: Utf8): Option<Value> {
    if KindOf(ty).Fixed? && |v| != KindOf(ty).size then None
    else
      match ty
      case Bool => Some(Flag(v[0] != 0))
      case Int2 => Some(Whole(Signed(Get(v), 2)))
      case Int4 => Some(Whole(Signed(Get(v), 4)))
      case Int8 => Some(Whole(Signed(Get(v), 8)))
      case Float4 => Some(Real(v))
      case Float8 => Some(Real(v))
      case Date => Some(Whole(Plus(Signed(Get(v), 4), EPOCH_DAYS, 4)))
      case Timestamp => Some(Whole(Plus(Signed(Get(v), 8), EPOCH_MICROS, 8)))
      case TimestampTz => Some(Whole(Plus(Signed(Get(v), 8), EPOCH_MICROS, 8)))
      case Uuid => Some(String(UuidText(v)))
      case Text => Some(String(u.decode(v)))
      case Bytea => Some(Binary(v))
      case Numeric => var t := Numeric.NumericToString(v); if t.None? then None else Some(String(t.value))
      case Jsonb => var t := Jsonb.ContainerText(v, 0, u.quote); if t.None? then None else Some(String(t.value))
  }

  /** The payload `encode_attrs` writes for a value; `None`: the type does not take it. */
  function Stored(ty: PgType, x: Value, u: Utf8): Option<Bytes> {
    match (ty, x)
    case (Bool, Flag(b)) => Some([if b then 1 else 0])
    case (Int2, Whole(i)) => Some(Put(Low(i, 2), 2))
    case (Int4, Whole(i)) => Some(Put(Low(i, 4), 4))
    case (Int8, Whole(i)) => Some(Put(Low(i, 8), 8))
    case (Float4, Real(b)) => Some(b)
    case (Float8, Real(b)) => Some(b)
    case (Date, Whole(i)) => Some(Put(Low(i - EPOCH_DAYS, 4), 4))
    case (Timestamp, Whole(i)) => Some(Put(Low(i - EPOCH_MICROS, 8), 8))
    case (TimestampTz, Whole(i)) => Some(Put(Low(i - EPOCH_MICROS, 8), 8))
    case (Uuid, String(t)) => UuidBytes(t)
    case (Text, String(t)) => Some(u.encode(t))
    case (Bytea, Binary(b)) => Some(b)
    case (Numeric, String(t)) => Numeric.NumericFromString(t)
    case _ => None
  }

  /** What decoding a column's payload and encoding it again makes of it; `None`: the type is not encoded. */
  type Recoder = Bytes -> Option<Bytes>

  function Recode(ty: PgType, u: Utf8): Recoder {
    (v: Bytes) =>
      var x := Logged(ty, v, u);
      if x.None? then None else Stored(ty, x.value, u)
  }

  /** The payloads of a type that come back as they were. */
  ghost predicate Keeps(ty: PgType, v: Bytes, u: Utf8) {
    match ty
    case Bool => v == [0] || v == [1]
    case Text => u.encode(u.decode(v)) == v
    case Numeric => NumericNormal.NormalBytes(v)
    case Jsonb => false
    case _ => KindOf(ty).Fixed? ==> |v| == KindOf(ty).size
  }

  lemma IntegerKept(v: Bytes, shift: int, w: nat)
    requires |v| == w
    ensures Put(Low(Signed(Get(v), w), w), w) == v && Put(Low(Plus(Signed(Get(v), w), shift, w) - shift, w), w) == v
  {
    hide Put, Get, Low, Plus, Signed;
    LowSigned(Get(v), w);
    PlusMinus(Get(v), shift, w);
    PutGet(v);
  }

  /**
   Per type, exactly which payloads come back from the log byte for byte: every integer, float, date, time, uuid and
   byte string; a boolean if its byte is 0 or 1; text that is valid UTF-8; a numeric in the trimmed long form; JSON never.
   */
  lemma RecodesExactlyWhen(ty: PgType, v: Bytes, u: Utf8)
    ensures Recode(ty, u)(v) == Some(v) <==> Keeps(ty, v, u)
  {
    hide Put, Get, Low, Plus, Signed, UuidText, UuidBytes, Numeric.NumericToString, Numeric.NumericFromString;
    hide NumericNormal.NormalBytes, Jsonb.ContainerText;
    if ty.Numeric? {
      NumericNormal.RecodesExactly(v);
    } else if KindOf(ty).Fixed? && |v| == KindOf(ty).size {
      IntegerKept(v, if ty.Date? then EPOCH_DAYS else EPOCH_MICROS, |v|);
      if ty.Uuid? {
        UuidRoundTrip(v);
      }
    }
  }
}
