/**
 Visibility over packed SLRU pages (src/clog.rs, src/multixact.rs): two status bits per transaction, four bytes per
 multixact offset, and member groups of four flag bytes and four xids. Page sources are functions from page numbers.
 */
module Slru {
  import opened Base
  import opened LittleEndian

  const PAGE_SIZE: nat := 8192
  const XACTS_PER_BYTE: nat := 4
  const XACTS_PER_PAGE: nat := 8192 * 4
  const OFFSETS_PER_PAGE: nat := 2048
  const GROUP_SIZE: nat := 20
  const GROUPS_PER_PAGE: nat := 409
  const MEMBERS_PER_PAGE: nat := 1636
  const STATUS_FOR_UPDATE: nat := 3
  const XIDS: nat := 0x1_0000_0000

  const INVALID_XID: nat := 0
  const BOOTSTRAP_XID: nat := 1
  const FROZEN_XID: nat := 2

  datatype Status = InProgress | Committed | Aborted | SubCommitted

  type Pages = nat -> Bytes

  datatype Result<+T> = Ok(value: T) | Err

  // ---- Reading packed pages -------------------------------------------------------------

  /** Page, byte on the page and bit pair within the byte. */
  function XidLocation(xid: nat): (nat, nat, nat) {
    var idx := xid % XACTS_PER_PAGE;
    (xid / XACTS_PER_PAGE, idx / XACTS_PER_BYTE, idx % XACTS_PER_BYTE)
  }

  function Pow4(i: nat): (p: nat)
    ensures p > 0
  {
    if i == 0 then 1 else 4 * Pow4(i - 1)
  }

  function StatusOf(bits: nat): Status {
    if bits == 0 then InProgress else if bits == 1 then Committed else if bits == 2 then Aborted else SubCommitted
  }

  function StatusInPage(page: Bytes, xid: nat): Result<Status> {
    var (_, byteno, pair) := XidLocation(xid);
    if byteno >= |page| then Err else Ok(StatusOf(page[byteno] as nat / Pow4(pair) % 4))
  }

  function Resolve(clog: Pages, xid: nat): Result<Status> {
    if xid == BOOTSTRAP_XID || xid == FROZEN_XID then Ok(Committed)
    else if xid == INVALID_XID then Err
    else StatusInPage(clog(XidLocation(xid).0), xid)
  }

  function ReadOffset(offsets: Pages, multi: nat): Result<nat> {
    var page, at := offsets(multi / OFFSETS_PER_PAGE), multi % OFFSETS_PER_PAGE * 4;
    if at + 4 > |page| then Err else Ok(Get(page[at..at + 4]))
  }

  /** Page, byte offset of the member's group on the page, and the member's index in its group. */
  function MemberLocation(offset: nat): (nat, nat, nat) {
    var inPage := offset % MEMBERS_PER_PAGE;
    (offset / MEMBERS_PER_PAGE, (inPage / 4) % GROUPS_PER_PAGE * GROUP_SIZE, inPage % 4)
  }

  datatype Member = Member(xid: nat, status: nat)

  function ReadMember(members: Pages, offset: nat): Result<Member> {
    var (pageno, group, i) := MemberLocation(offset);
    var page := members(pageno);
    var at := group + 4 + i * 4;
    if group + i >= |page| || at + 4 > |page| then Err
    else Ok(Member(Get(page[at..at + 4]), page[group + i] as nat))
  }

  /** The first updating member in `[off, end)`, if any. */
  function FindUpdater(members: Pages, off: nat, end: nat): Result<Option<nat>>
    decreases end - off
  {
    if off >= end then Ok(None)
    else
      match ReadMember(members, off)
      case Err => Err
      case Ok(m) => if m.status > STATUS_FOR_UPDATE then Ok(Some(m.xid)) else FindUpdater(members, off + 1, end)
  }

  function ResolveUpdater(offsets: Pages, members: Pages, multi: nat): Result<Option<nat>> {
    var start := ReadOffset(offsets, multi);
    if start.Err? then Err
    else
      var end := ReadOffset(offsets, (multi + 1) % XIDS);
      if end.Err? || end.value <= start.value then Err else FindUpdater(members, start.value, end.value)
  }

  predicate LockOnly(infomask: nat) { infomask / 0x80 % 2 == 1 }
  predicate IsMulti(infomask: nat) { infomask / 0x1000 % 2 == 1 }

  function TupleVisible(clog: Pages, xmin: nat, xmax: nat, infomask: nat): Result<bool> {
    var min := Resolve(clog, xmin);
    if min.Err? then Err
    else if min.value != Committed then Ok(false)
    else if xmax == INVALID_XID then Ok(true)
    else if IsMulti(infomask) then (if LockOnly(infomask) then Ok(true) else Err)
    else if LockOnly(infomask) then Ok(true)
    else
      var max := Resolve(clog, xmax);
      if max.Err? then Err else Ok(max.value != Committed)
  }

  /** The answer does not need the two bits: it is the same for this header as for one without them. */
  predicate NeedsNoBits(clog: Pages, xmin: nat, xmax: nat, infomask: nat) {
    || Resolve(clog, xmin) != Ok(Committed)
    || xmax == INVALID_XID
    || (!LockOnly(infomask) && !IsMulti(infomask))
    || (LockOnly(infomask) && Resolve(clog, xmax).Ok? && Resolve(clog, xmax).value != Committed)
    || (IsMulti(infomask) && !LockOnly(infomask) && Resolve(clog, xmax).Err?)
  }

  lemma BitsLost(clog: Pages, xmin: nat, xmax: nat, infomask: nat, bare: nat)
    requires !LockOnly(bare) && !IsMulti(bare)
    ensures TupleVisible(clog, xmin, xmax, bare) == TupleVisible(clog, xmin, xmax, infomask)
            <==> NeedsNoBits(clog, xmin, xmax, infomask)
  {
    hide Resolve, LockOnly, IsMulti;
  }

  function TupleVisibleWithMultixact(clog: Pages, offsets: Pages, members: Pages, xmin: nat, xmax: nat, infomask: nat): Result<bool> {
    if IsMulti(infomask) && !LockOnly(infomask) then
      var min := Resolve(clog, xmin);
      if min.Err? then Err
      else if min.value != Committed then Ok(false)
      else
        match ResolveUpdater(offsets, members, xmax)
        case Err => Err
        case Ok(None) => Ok(true)
        case Ok(Some(x)) =>
          var max := Resolve(clog, x);
          if max.Err? then Err else Ok(max.value != Committed)
    else TupleVisible(clog, xmin, xmax, infomask)
  }

  // ---- Abstract state and its packed form -----------------------------------------------

  /** What the server knows: a status per xid, a first-member offset per multixact, a member per offset. */
  datatype Server = Server(status: nat -> Status, offset: nat -> nat, member: nat -> Member)

  ghost predicate ServerFits(s: Server) {
    && (forall m :: s.offset(m) < XIDS)
    && (forall o :: s.member(o).xid < XIDS && s.member(o).status < 256)
  }

  function Bits(s: Status): (b: nat)
    ensures b < 4 && StatusOf(b) == s
  {
    match s case InProgress => 0 case Committed => 1 case Aborted => 2 case SubCommitted => 3
  }

  /** Four statuses in one byte, the first in the low bits. */
  function PackFour(s: Server, xid: nat): (b: byte) {
    (Bits(s.status(xid)) + 4 * Bits(s.status(xid + 1)) + 16 * Bits(s.status(xid + 2)) + 64 * Bits(s.status(xid + 3))) as byte
  }

  function ClogPage(s: Server, page: nat): (b: Bytes)
    ensures |b| == PAGE_SIZE
  {
    seq(PAGE_SIZE, i requires 0 <= i < PAGE_SIZE => PackFour(s, page * XACTS_PER_PAGE + i * 4))
  }

  function OffsetsPage(s: Server, page: nat): (b: Bytes)
    ensures |b| == PAGE_SIZE
  {
    seq(PAGE_SIZE, i requires 0 <= i < PAGE_SIZE => Put(s.offset(page * OFFSETS_PER_PAGE + i / 4), 4)[i % 4])
  }

  ghost function MemberByte(s: Server, page: nat, i: nat): byte
    requires ServerFits(s)
  {
    var g, r := i / GROUP_SIZE, i % GROUP_SIZE;
    var first := page * MEMBERS_PER_PAGE + g * 4;
    if g >= GROUPS_PER_PAGE then 0
    else if r < 4 then s.member(first + r).status as byte
    else Put(s.member(first + (r - 4) / 4).xid, 4)[(r - 4) % 4]
  }

  ghost function MembersPage(s: Server, page: nat): (b: Bytes)
    requires ServerFits(s)
    ensures |b| == PAGE_SIZE
  {
    seq(PAGE_SIZE, i requires 0 <= i < PAGE_SIZE => MemberByte(s, page, i))
  }

  /** The packed pages hold the server's state. */
  ghost predicate Packs(s: Server, clog: Pages, offsets: Pages, members: Pages) {
    && ServerFits(s)
    && forall p :: clog(p) == ClogPage(s, p) && offsets(p) == OffsetsPage(s, p) && members(p) == MembersPage(s, p)
  }

  // ---- Distinct fields ------------------------------------------------------------------

  /** Distinct xids have distinct bit pairs. */
  lemma XidFieldsDistinct(x: nat, y: nat)
    requires XidLocation(x) == XidLocation(y)
    ensures x == y
  {
    assert x == x / XACTS_PER_PAGE * XACTS_PER_PAGE + x % XACTS_PER_PAGE;
    assert y == y / XACTS_PER_PAGE * XACTS_PER_PAGE + y % XACTS_PER_PAGE;
  }

  /** The bytes a member occupies: its flag byte and the four bytes of its xid. */
  function MemberBytes(offset: nat): set<nat> {
    var (_, group, i) := MemberLocation(offset);
    {group + i, group + 4 + i * 4, group + 5 + i * 4, group + 6 + i * 4, group + 7 + i * 4}
  }

  lemma MemberPlace(offset: nat) returns (g: nat, i: nat)
    ensures g < GROUPS_PER_PAGE && i < 4 && offset == MemberLocation(offset).0 * MEMBERS_PER_PAGE + 4 * g + i
    ensures MemberLocation(offset) == (MemberLocation(offset).0, g * GROUP_SIZE, i)
  {
    var q := offset % MEMBERS_PER_PAGE;
    assert offset == offset / MEMBERS_PER_PAGE * MEMBERS_PER_PAGE + q;
    g, i := q / 4, q % 4;
    assert q == 4 * g + i && g < GROUPS_PER_PAGE;
  }

  /** Distinct members of one page occupy disjoint bytes, all within the page. */
  lemma MemberBytesDisjoint(a: nat, b: nat)
    requires a != b && MemberLocation(a).0 == MemberLocation(b).0
    ensures MemberBytes(a) !! MemberBytes(b)
    ensures forall x :: x in MemberBytes(a) ==> x < PAGE_SIZE
  {
    hide MemberLocation;
    var g, i := MemberPlace(a);
    var h, j := MemberPlace(b);
    assert g != h || i != j;
    if g < h {
      assert g * GROUP_SIZE + GROUP_SIZE <= h * GROUP_SIZE;
    } else if h < g {
      assert h * GROUP_SIZE + GROUP_SIZE <= g * GROUP_SIZE;
    }
  }

  // ---- Refinement -----------------------------------------------------------------------

  lemma UnpackFour(a: nat, b: nat, c: nat, d: nat)
    requires a < 4 && b < 4 && c < 4 && d < 4
    ensures var v := a + 4 * b + 16 * c + 64 * d;
            v % 4 == a && v / 4 % 4 == b && v / 16 % 4 == c && v / 64 % 4 == d
  {
    assert (a + 4 * b + 16 * c + 64 * d) / 4 == b + 4 * c + 16 * d;
    assert (a + 4 * b + 16 * c + 64 * d) / 16 == c + 4 * d;
  }

  lemma XidPlace(xid: nat)
    ensures var (page, byteno, pair) := XidLocation(xid);
            byteno < PAGE_SIZE && pair < 4 && xid == page * XACTS_PER_PAGE + byteno * 4 + pair
  {
    var idx := xid % XACTS_PER_PAGE;
    assert xid == xid / XACTS_PER_PAGE * XACTS_PER_PAGE + idx;
    assert idx == idx / 4 * 4 + idx % 4;
  }

  lemma PackedPair(s: Server, first: nat, pair: nat)
    requires pair < 4
    ensures StatusOf(PackFour(s, first) as nat / Pow4(pair) % 4) == s.status(first + pair)
  {
    hide StatusOf, Bits;
    var a, b, c, d := Bits(s.status(first)), Bits(s.status(first + 1)), Bits(s.status(first + 2)), Bits(s.status(first + 3));
    UnpackFour(a, b, c, d);
    assert Pow4(0) == 1 && Pow4(1) == 4 && Pow4(2) == 16 && Pow4(3) == 64;
    assert PackFour(s, first) as nat == a + 4 * b + 16 * c + 64 * d;
  }

  lemma StatusRefines(s: Server, clog: Pages, xid: nat)
    requires clog(XidLocation(xid).0) == ClogPage(s, XidLocation(xid).0)
    ensures StatusInPage(clog(XidLocation(xid).0), xid) == Ok(s.status(xid))
  {
    hide XidLocation, PackFour, StatusOf, Pow4;
    XidPlace(xid);
    var (page, byteno, pair) := XidLocation(xid);
    PackedPair(s, page * XACTS_PER_PAGE + byteno * 4, pair);
  }

  lemma OffsetRefines(s: Server, offsets: Pages, multi: nat)
    requires s.offset(multi) < XIDS && offsets(multi / OFFSETS_PER_PAGE) == OffsetsPage(s, multi / OFFSETS_PER_PAGE)
    ensures ReadOffset(offsets, multi) == Ok(s.offset(multi))
  {
    var p, i := multi / OFFSETS_PER_PAGE, multi % OFFSETS_PER_PAGE;
    var page, at := offsets(p), i * 4;
    assert multi == p * OFFSETS_PER_PAGE + i;
    Widths();
    GetPut(s.offset(multi), 4);
    hide Put, Get;
    forall k | 0 <= k < 4 ensures page[at + k] == Put(s.offset(multi), 4)[k] {
      assert (at + k) / 4 == i && (at + k) % 4 == k;
    }
    assert page[at..at + 4] == Put(s.offset(multi), 4);
  }

  lemma MemberByteAt(s: Server, page: nat, g: nat, r: nat)
    requires ServerFits(s) && g < GROUPS_PER_PAGE && r < GROUP_SIZE
    ensures g * GROUP_SIZE + r < PAGE_SIZE
    ensures var first := page * MEMBERS_PER_PAGE + g * 4;
            MembersPage(s, page)[g * GROUP_SIZE + r] ==
              (if r < 4 then s.member(first + r).status as byte else Put(s.member(first + (r - 4) / 4).xid, 4)[(r - 4) % 4])
  {
    hide Put;
    GroupByte(g, r);
  }

  lemma MemberRefines(s: Server, members: Pages, offset: nat)
    requires ServerFits(s) && members(MemberLocation(offset).0) == MembersPage(s, MemberLocation(offset).0)
    ensures ReadMember(members, offset) == Ok(s.member(offset))
  {
    hide MemberLocation, MembersPage, Put, Get;
    var g, i := MemberPlace(offset);
    var p := MemberLocation(offset).0;
    var page, m := members(p), s.member(offset);
    Widths();
    GetPut(m.xid, 4);
    MemberByteAt(s, p, g, i);
    var group := g * GROUP_SIZE;
    var at := group + 4 + i * 4;
    forall k | 0 <= k < 4 ensures at + k < PAGE_SIZE && page[at + k] == Put(m.xid, 4)[k] {
      MemberByteAt(s, p, g, 4 + i * 4 + k);
    }
    assert page[at..at + 4] == Put(m.xid, 4);
  }

  lemma GroupByte(g: nat, r: nat)
    requires g < GROUPS_PER_PAGE && r < GROUP_SIZE
    ensures g * GROUP_SIZE + r < PAGE_SIZE
    ensures (g * GROUP_SIZE + r) / GROUP_SIZE == g && (g * GROUP_SIZE + r) % GROUP_SIZE == r
  {
  }

  // ---- Visibility -----------------------------------------------------------------------

  /** Special xids predate the log; the invalid one has no status. */
  ghost predicate Commits(s: Server, xid: nat) {
    xid == BOOTSTRAP_XID || xid == FROZEN_XID || s.status(xid) == Committed
  }

  ghost predicate IsUpdater(s: Server, multi: nat, u: Option<nat>) {
    FirstUpdater(s, s.offset(multi), s.offset((multi + 1) % XIDS), u)
  }

  /**
   The row version is visible: its inserter committed, and nothing committed deletes it. `deleter` is the deleting
   transaction, if the version has one.
   */
  ghost predicate Visible(s: Server, xmin: nat, deleter: Option<nat>) {
    Commits(s, xmin) && (deleter.Some? ==> !Commits(s, deleter.value))
  }

  ghost predicate IsDeleter(s: Server, xmax: nat, infomask: nat, d: Option<nat>) {
    if LockOnly(infomask) then d == None
    else if IsMulti(infomask) then IsUpdater(s, xmax, d)
    else d == if xmax == INVALID_XID then None else Some(xmax)
  }

  /** `u` is the first updater among the members in `[lo, hi)`. */
  ghost predicate FirstUpdater(s: Server, lo: nat, hi: nat, u: Option<nat>) {
    match u
    case None => forall o :: lo <= o < hi ==> s.member(o).status <= STATUS_FOR_UPDATE
    case Some(x) =>
      exists o :: lo <= o < hi && s.member(o).status > STATUS_FOR_UPDATE && s.member(o).xid == x
                  && forall o' :: lo <= o' < o ==> s.member(o').status <= STATUS_FOR_UPDATE
  }

  lemma FirstUpdaterStep(s: Server, lo: nat, hi: nat, u: Option<nat>)
    requires lo < hi && s.member(lo).status <= STATUS_FOR_UPDATE && FirstUpdater(s, lo + 1, hi, u)
    ensures FirstUpdater(s, lo, hi, u)
  {
    if u.Some? {
      var o :| lo + 1 <= o < hi && s.member(o).status > STATUS_FOR_UPDATE && s.member(o).xid == u.value
               && forall o' :: lo + 1 <= o' < o ==> s.member(o').status <= STATUS_FOR_UPDATE;
      assert lo <= o < hi && forall o' :: lo <= o' < o ==> s.member(o').status <= STATUS_FOR_UPDATE;
    }
  }

  lemma {:induction false} FindUpdaterRefines(s: Server, members: Pages, off: nat, end: nat)
    requires ServerFits(s) && forall p :: members(p) == MembersPage(s, p)
    ensures FindUpdater(members, off, end).Ok?
    ensures FirstUpdater(s, off, end, FindUpdater(members, off, end).value)
    decreases end - off
  {
    hide ServerFits, ReadMember, MembersPage, MemberLocation;
    if off < end {
      assert members(MemberLocation(off).0) == MembersPage(s, MemberLocation(off).0);
      MemberRefines(s, members, off);
      if s.member(off).status <= STATUS_FOR_UPDATE {
        FindUpdaterRefines(s, members, off + 1, end);
        FirstUpdaterStep(s, off, end, FindUpdater(members, off + 1, end).value);
      }
    }
  }

  lemma ResolveRefines(s: Server, clog: Pages, offsets: Pages, members: Pages, xid: nat)
    requires Packs(s, clog, offsets, members) && xid != INVALID_XID
    ensures Resolve(clog, xid).Ok? && (Resolve(clog, xid).value == Committed <==> Commits(s, xid))
  {
    StatusRefines(s, clog, xid);
  }

  lemma UpdaterRefines(s: Server, clog: Pages, offsets: Pages, members: Pages, multi: nat)
    requires Packs(s, clog, offsets, members)
    ensures s.offset((multi + 1) % XIDS) <= s.offset(multi) ==> ResolveUpdater(offsets, members, multi) == Err
    ensures s.offset(multi) < s.offset((multi + 1) % XIDS) ==>
              && ResolveUpdater(offsets, members, multi).Ok?
              && IsUpdater(s, multi, ResolveUpdater(offsets, members, multi).value)
  {
    OffsetRefines(s, offsets, multi);
    OffsetRefines(s, offsets, (multi + 1) % XIDS);
    FindUpdaterRefines(s, members, s.offset(multi), s.offset((multi + 1) % XIDS));
  }

  /**
   Visibility computed from the packed pages is visibility in the server's state, multixact updaters included. It is
   refused only when the bound of the member list is not on disk yet or the updater is no valid transaction.
   */
  lemma PackedVisibility(s: Server, clog: Pages, offsets: Pages, members: Pages, xmin: nat, xmax: nat, infomask: nat, d: Option<nat>)
    requires Packs(s, clog, offsets, members) && xmin != INVALID_XID && IsDeleter(s, xmax, infomask, d)
    requires d != Some(INVALID_XID)
    requires IsMulti(infomask) && !LockOnly(infomask) ==> s.offset(xmax) < s.offset((xmax + 1) % XIDS)
    ensures TupleVisibleWithMultixact(clog, offsets, members, xmin, xmax, infomask) == Ok(Visible(s, xmin, d))
  {
    ResolveRefines(s, clog, offsets, members, xmin);
    if d.Some? {
      ResolveRefines(s, clog, offsets, members, d.value);
    }
    if IsMulti(infomask) && !LockOnly(infomask) {
      UpdaterRefines(s, clog, offsets, members, xmax);
      UpdaterUnique(s, xmax, d, ResolveUpdater(offsets, members, xmax).value);
    }
  }

  lemma UpdaterUnique(s: Server, multi: nat, u: Option<nat>, v: Option<nat>)
    requires IsUpdater(s, multi, u) && IsUpdater(s, multi, v)
    ensures u == v
  {
  }
}
