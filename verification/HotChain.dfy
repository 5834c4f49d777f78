/**
 Collapsing HOT chains to one row per root (src/fragment.rs `emit_page`): each index-addressable line pointer yields the
 version of its chain that is committed, if any.
 */
module HotChain {
  import opened Base
  import opened LittleEndian
  import opened Tuple
  import opened HeapPage
  import opened PageRead
  import Slru

  const MAX_CHAIN: nat := 1024

  datatype FragmentRow = FragmentRow(block: nat, offnum: nat, row: Row)

  type Answer<T> = Slru.Result<T>

  // ---- The source's functions -----------------------------------------------------------

  function HeaderAt(page: Bytes, off: nat): Option<Fields> {
    if off + TUPLE_HEADER > |page| then None else Some(FieldsOf(page[off..off + TUPLE_HEADER]))
  }

  predicate Continues(f: Fields, block: nat, cur: nat) {
    HotUpdated(f.infomask2) && f.ctid.0 == block && f.ctid.1 != 0 && f.ctid.1 != cur
  }

  /** Walk the chain from `cur`, at most `fuel` versions. */
  function VisibleVersion(page: Bytes, block: nat, cur: nat, fuel: nat, clog: Slru.Pages): Answer<Option<nat>>
    decreases fuel
  {
    if fuel == 0 then Slru.Err
    else
      var lp := PointerAt(page, cur);
      if lp.None? then Slru.Err
      else if lp.value.flags != LP_NORMAL then Slru.Ok(None)
      else
        var f := HeaderAt(page, lp.value.off);
        if f.None? then Slru.Err
        else
          var v := Slru.TupleVisible(clog, f.value.xmin, f.value.xmax, f.value.infomask);
          if v.Err? then Slru.Err
          else if v.value then Slru.Ok(Some(cur))
          else if Continues(f.value, block, cur) then VisibleVersion(page, block, f.value.ctid.1, fuel - 1, clog)
          else Slru.Ok(None)
  }

  method FindVisible(page: Bytes, block: nat, start: nat, clog: Slru.Pages) returns (r: Answer<Option<nat>>)
    ensures r == VisibleVersion(page, block, start, MAX_CHAIN, clog)
  {
    hide PointerAt, HeaderAt, Slru.TupleVisible;
    var cur := start;
    for i := 0 to MAX_CHAIN
      invariant VisibleVersion(page, block, start, MAX_CHAIN, clog) == VisibleVersion(page, block, cur, MAX_CHAIN - i, clog)
    {
      var lp := PointerAt(page, cur);
      if lp.None? {
        return Slru.Err;
      }
      if lp.value.flags != LP_NORMAL {
        return Slru.Ok(None);
      }
      var f := HeaderAt(page, lp.value.off);
      if f.None? {
        return Slru.Err;
      }
      var v := Slru.TupleVisible(clog, f.value.xmin, f.value.xmax, f.value.infomask);
      if v.Err? {
        return Slru.Err;
      }
      if v.value {
        return Slru.Ok(Some(cur));
      }
      if !Continues(f.value, block, cur) {
        return Slru.Ok(None);
      }
      cur := f.value.ctid.1;
    }
    r := Slru.Err;
  }

  /** Where the chain of line pointer `offnum` starts; `None` when an index cannot point here. */
  function RootStart(page: Bytes, offnum: nat): Answer<Option<nat>> {
    var lp := PointerAt(page, offnum);
    if lp.None? then Slru.Err
    else if lp.value.flags == LP_REDIRECT then Slru.Ok(Some(lp.value.off))
    else if lp.value.flags == LP_NORMAL then
      var f := HeaderAt(page, lp.value.off);
      if f.None? then Slru.Err else if HeapOnly(f.value.infomask2) then Slru.Ok(None) else Slru.Ok(Some(offnum))
    else Slru.Ok(None)
  }

  /** The row a chain contributes to its root, if any. */
  function ChainRow(page: Bytes, block: nat, root: (nat, nat), ps: seq<PhysCol>, env: Env, clog: Slru.Pages): Answer<seq<FragmentRow>>
    requires ColsOk(ps)
  {
    var v := VisibleVersion(page, block, root.1, MAX_CHAIN, clog);
    if v.Err? then Slru.Err
    else if v.value.None? then Slru.Ok([])
    else
      var d := DecodeFromPage(page, v.value.value, ps, env);
      if d.None? then Slru.Err else Slru.Ok([FragmentRow(block, root.0, d.value.0)])
  }

  /** The row one line pointer contributes, if any. */
  function RowOf(page: Bytes, block: nat, offnum: nat, ps: seq<PhysCol>, env: Env, clog: Slru.Pages): Answer<seq<FragmentRow>>
    requires ColsOk(ps)
  {
    var start := RootStart(page, offnum);
    if start.Err? then Slru.Err
    else if start.value.None? then Slru.Ok([])
    else ChainRow(page, block, (offnum, start.value.value), ps, env, clog)
  }

  function LinePointers(page: Bytes): nat
    requires |page| == PAGE_SIZE
  {
    var lower := Get(page[12..14]);
    if lower < PAGE_HEADER then 0 else (lower - PAGE_HEADER) / 4
  }

  /** The rows of the first `n` line pointers. An error anywhere fails the page. */
  function Rows(page: Bytes, block: nat, n: nat, ps: seq<PhysCol>, env: Env, clog: Slru.Pages): Answer<seq<FragmentRow>>
    requires ColsOk(ps)
  {
    if n == 0 then Slru.Ok([])
    else
      var front, last := Rows(page, block, n - 1, ps, env, clog), RowOf(page, block, n, ps, env, clog);
      if front.Err? || last.Err? then Slru.Err else Slru.Ok(front.value + last.value)
  }

  function EmitPage(page: Bytes, block: nat, ps: seq<PhysCol>, env: Env, clog: Slru.Pages): Answer<seq<FragmentRow>>
    requires ColsOk(ps)
  {
    if |page| != PAGE_SIZE then Slru.Err else Rows(page, block, LinePointers(page), ps, env, clog)
  }

  /** The index-addressable line pointers among the first `n`, each with the start of its chain. */
  function Roots(page: Bytes, n: nat): Answer<seq<(nat, nat)>> {
    if n == 0 then Slru.Ok([])
    else
      var front, start := Roots(page, n - 1), RootStart(page, n);
      if front.Err? || start.Err? then Slru.Err
      else if start.value.None? then front
      else Slru.Ok(front.value + [(n, start.value.value)])
  }

  function ChainRows(page: Bytes, block: nat, roots: seq<(nat, nat)>, ps: seq<PhysCol>, env: Env, clog: Slru.Pages):
      Answer<seq<FragmentRow>>
    requires ColsOk(ps)
    decreases |roots|
  {
    if roots == [] then Slru.Ok([])
    else
      var front := ChainRows(page, block, roots[..|roots| - 1], ps, env, clog);
      var last := ChainRow(page, block, roots[|roots| - 1], ps, env, clog);
      if front.Err? || last.Err? then Slru.Err else Slru.Ok(front.value + last.value)
  }

  lemma NothingAdded(rows: Answer<seq<FragmentRow>>)
    ensures rows.Ok? ==> rows.value + [] == rows.value
  {
  }

  /** Finding all roots first and then walking their chains gives what going pointer by pointer does. */
  lemma {:induction false} RootsThenRows(page: Bytes, block: nat, n: nat, ps: seq<PhysCol>, env: Env, clog: Slru.Pages)
    requires ColsOk(ps)
    ensures var roots := Roots(page, n);
            Rows(page, block, n, ps, env, clog) == if roots.Err? then Slru.Err else ChainRows(page, block, roots.value, ps, env, clog)
  {
    hide RootStart, VisibleVersion, DecodeFromPage;
    if n > 0 {
      RootsThenRows(page, block, n - 1, ps, env, clog);
      var front, start := Roots(page, n - 1), RootStart(page, n);
      if front.Ok? && start.Ok? && start.value.Some? {
        var root := (n, start.value.value);
        assert (front.value + [root])[..|front.value|] == front.value;
      } else if front.Ok? && start.Ok? {
        NothingAdded(Rows(page, block, n - 1, ps, env, clog));
      }
    }
  }

  method ChainRoots(page: Bytes, n: nat) returns (r: Answer<seq<(nat, nat)>>)
    ensures r == Roots(page, n)
  {
    hide RootStart;
    var roots := [];
    for i := 0 to n
      invariant Roots(page, i) == Slru.Ok(roots)
    {
      var start := RootStart(page, i + 1);
      if start.Err? {
        RootsFail(page, i + 1, n);
        return Slru.Err;
      }
      if start.value.Some? {
        roots := roots + [(i + 1, start.value.value)];
      }
    }
    r := Slru.Ok(roots);
  }

  lemma {:induction false} RootsFail(page: Bytes, k: nat, n: nat)
    requires k <= n && Roots(page, k).Err?
    ensures Roots(page, n).Err?
    decreases n - k
  {
    hide RootStart;
    if k < n {
      RootsFail(page, k + 1, n);
    }
  }

  lemma {:induction false} ChainRowsFail(page: Bytes, block: nat, roots: seq<(nat, nat)>, k: nat, ps: seq<PhysCol>, env: Env, clog: Slru.Pages)
    requires ColsOk(ps) && k <= |roots| && ChainRows(page, block, roots[..k], ps, env, clog).Err?
    ensures ChainRows(page, block, roots, ps, env, clog).Err?
    decreases |roots| - k
  {
    hide ChainRow;
    if k < |roots| {
      assert roots[..k + 1][..k] == roots[..k];
      ChainRowsFail(page, block, roots, k + 1, ps, env, clog);
    } else {
      assert roots[..k] == roots;
    }
  }

  /** `emit_page`: all roots first, then the visible version of each chain. */
  method Emit(page: Bytes, block: nat, ps: seq<PhysCol>, env: Env, clog: Slru.Pages) returns (r: Answer<seq<FragmentRow>>)
    requires ColsOk(ps)
    ensures r == EmitPage(page, block, ps, env, clog)
  {
    hide Roots, Rows, LinePointers, VisibleVersion, DecodeFromPage;
    if |page| != PAGE_SIZE {
      return Slru.Err;
    }
    var roots := ChainRoots(page, LinePointers(page));
    RootsThenRows(page, block, LinePointers(page), ps, env, clog);
    if roots.Err? {
      return Slru.Err;
    }
    var out := [];
    for i := 0 to |roots.value|
      invariant ChainRows(page, block, roots.value[..i], ps, env, clog) == Slru.Ok(out)
    {
      var root := roots.value[i];
      assert roots.value[..i + 1][..i] == roots.value[..i];
      var v := FindVisible(page, block, root.1, clog);
      if v.Err? {
        ChainRowsFail(page, block, roots.value, i + 1, ps, env, clog);
        return Slru.Err;
      }
      if v.value.Some? {
        var d := DecodeFromPage(page, v.value.value, ps, env);
        if d.None? {
          ChainRowsFail(page, block, roots.value, i + 1, ps, env, clog);
          return Slru.Err;
        }
        out := out + [FragmentRow(block, root.0, d.value.0)];
      } else {
        assert out + [] == out;
      }
    }
    assert roots.value[..|roots.value|] == roots.value;
    r := Slru.Ok(out);
  }

  /** A fragment row and the tuple it was decoded from. */
  datatype RawFragmentRow = RawFragmentRow(row: FragmentRow, raw: RawTuple)

  function Decoded(rows: seq<RawFragmentRow>): seq<FragmentRow> {
    if rows == [] then [] else Decoded(rows[..|rows| - 1]) + [rows[|rows| - 1].row]
  }

  /** The tuple is the one its root's chain shows. */
  predicate Carries(page: Bytes, block: nat, r: RawFragmentRow, clog: Slru.Pages) {
    var start := RootStart(page, r.row.offnum);
    && start.Ok? && start.value.Some?
    && var v := VisibleVersion(page, block, start.value.value, MAX_CHAIN, clog);
       v.Ok? && v.value.Some? && RawFromPage(page, v.value.value) == Some(r.raw)
  }

  lemma {:induction false} RootsStart(page: Bytes, n: nat)
    requires Roots(page, n).Ok?
    ensures forall i :: 0 <= i < |Roots(page, n).value| ==>
              RootStart(page, Roots(page, n).value[i].0) == Slru.Ok(Some(Roots(page, n).value[i].1))
  {
    hide RootStart;
    if n > 0 {
      RootsStart(page, n - 1);
    }
  }

  lemma DecodedAppend(out: seq<RawFragmentRow>, more: RawFragmentRow)
    ensures Decoded(out + [more]) == Decoded(out) + [more.row]
  {
    assert (out + [more])[..|out|] == out;
  }

  lemma NoChains(page: Bytes, block: nat, roots: seq<(nat, nat)>, ps: seq<PhysCol>, env: Env, clog: Slru.Pages)
    requires ColsOk(ps)
    ensures ChainRows(page, block, roots[..0], ps, env, clog) == Slru.Ok([]) && Decoded([]) == []
  {
  }

  lemma NextChain(page: Bytes, block: nat, roots: seq<(nat, nat)>, i: nat, ps: seq<PhysCol>, env: Env, clog: Slru.Pages)
    requires ColsOk(ps) && i < |roots| && ChainRows(page, block, roots[..i], ps, env, clog).Ok?
    ensures var done, row := ChainRows(page, block, roots[..i], ps, env, clog), ChainRow(page, block, roots[i], ps, env, clog);
            ChainRows(page, block, roots[..i + 1], ps, env, clog)
            == if row.Err? then Slru.Err else Slru.Ok(done.value + row.value)
  {
    hide ChainRow;
    assert roots[..i + 1][..i] == roots[..i];
  }

  /**
   `emit_page_raw` reads a page exactly when `emit_page` does, with the same rows, each with the tuple its root's chain
   shows: no row that decodes is refused raw.
   */
  method EmitRaw(page: Bytes, block: nat, ps: seq<PhysCol>, env: Env, clog: Slru.Pages) returns (r: Answer<seq<RawFragmentRow>>)
    requires ColsOk(ps)
    ensures r.Ok? <==> EmitPage(page, block, ps, env, clog).Ok?
    ensures r.Ok? ==> Decoded(r.value) == EmitPage(page, block, ps, env, clog).value
    ensures r.Ok? ==> forall k :: 0 <= k < |r.value| ==> Carries(page, block, r.value[k], clog)
  {
    hide Roots, Rows, LinePointers, VisibleVersion, DecodeFromPage, RawFromPage, RootStart, ChainRows, Decoded;
    if |page| != PAGE_SIZE {
      return Slru.Err;
    }
    var roots := ChainRoots(page, LinePointers(page));
    RootsThenRows(page, block, LinePointers(page), ps, env, clog);
    if roots.Err? {
      return Slru.Err;
    }
    RootsStart(page, LinePointers(page));
    var out: seq<RawFragmentRow> := [];
    NoChains(page, block, roots.value, ps, env, clog);
    for i := 0 to |roots.value|
      invariant ChainRows(page, block, roots.value[..i], ps, env, clog) == Slru.Ok(Decoded(out))
      invariant forall k :: 0 <= k < |out| ==> Carries(page, block, out[k], clog)
    {
      var root := roots.value[i];
      NextChain(page, block, roots.value, i, ps, env, clog);
      var v := FindVisible(page, block, root.1, clog);
      if v.Err? {
        ChainRowsFail(page, block, roots.value, i + 1, ps, env, clog);
        return Slru.Err;
      }
      if v.value.Some? {
        var d := DecodeFromPage(page, v.value.value, ps, env);
        if d.None? {
          ChainRowsFail(page, block, roots.value, i + 1, ps, env, clog);
          return Slru.Err;
        }
        DecodedComesRaw(page, v.value.value, ps, env);
        var raw := RawFromPage(page, v.value.value);
        var more := RawFragmentRow(FragmentRow(block, root.0, d.value.0), raw.value);
        DecodedAppend(out, more);
        assert Carries(page, block, more, clog);
        out := out + [more];
      } else {
        assert Decoded(out) + [] == Decoded(out);
      }
    }
    assert roots.value[..|roots.value|] == roots.value;
    r := Slru.Ok(out);
  }

  // ---- Chains over slots ----------------------------------------------------------------

  predicate IsVersion(slots: seq<Slot>, o: nat) {
    1 <= o <= |slots| && (slots[o - 1].Semantic? || slots[o - 1].Raw?)
  }

  /** What a placed tuple's header says of its place in a chain. */
  datatype Version = Version(xmin: nat, xmax: nat, ctid: Option<(nat, nat)>, heapOnly: bool, hotUpdated: bool)

  function VersionAt(slots: seq<Slot>, o: nat): Version
    requires IsVersion(slots, o)
  {
    match slots[o - 1]
    case Semantic(s) => Version(s.xmin, s.xmax, s.ctid, s.heapOnly, s.hotUpdated)
    case Raw(t) => Version(t.xmin, t.xmax, t.ctid, t.heapOnly, t.hotUpdated)
  }

  /** The row of a version: given, or held by its raw bytes if they decode. */
  function RowAt(slots: seq<Slot>, o: nat, ps: seq<PhysCol>, env: Env): Option<Row>
    requires IsVersion(slots, o) && ColsOk(ps)
  {
    match slots[o - 1]
    case Semantic(s) => Some(s.row)
    case Raw(t) => var d := RawRow(t, ps, env); if d.None? then None else Some(d.value.0)
  }

  /** `committed` is what the status log says. */
  ghost predicate Knows(clog: Slru.Pages, committed: nat -> bool) {
    forall x :: x != 0 ==> Slru.Resolve(clog, x).Ok? && (Slru.Resolve(clog, x).value == Slru.Committed <==> committed(x))
  }

  /** From each version to the next: same page, its deleter is the next one's inserter, and commits go first to last. */
  ghost predicate Linked(slots: seq<Slot>, block: nat, a: nat, b: nat, committed: nat -> bool)
    requires IsVersion(slots, a) && IsVersion(slots, b)
  {
    var s, t := VersionAt(slots, a), VersionAt(slots, b);
    a != b && s.hotUpdated && s.ctid == Some((block, b)) && s.xmax == t.xmin && (committed(t.xmin) ==> committed(s.xmin))
  }

  ghost predicate IsChain(slots: seq<Slot>, block: nat, c: seq<nat>, committed: nat -> bool) {
    && c != []
    && (forall i :: 0 <= i < |c| ==> IsVersion(slots, c[i]) && VersionAt(slots, c[i]).xmin != 0)
    && (forall i, j :: 0 <= i < j < |c| ==> c[i] != c[j])
    && (forall i :: 0 <= i < |c| - 1 ==> Linked(slots, block, c[i], c[i + 1], committed))
    && !VersionAt(slots, c[|c| - 1]).hotUpdated
  }

  /** The version of a chain a reader should see: the last committed one, unless a committed deleter ended the chain. */
  ghost predicate IsPick(slots: seq<Slot>, c: seq<nat>, committed: nat -> bool, p: Option<nat>)
    requires forall i :: 0 <= i < |c| ==> IsVersion(slots, c[i])
  {
    match p
    case Some(o) =>
      exists i :: 0 <= i < |c| && c[i] == o && committed(VersionAt(slots, c[i]).xmin)
                  && (forall j :: i < j < |c| ==> !committed(VersionAt(slots, c[j]).xmin))
                  && (i == |c| - 1 ==> VersionAt(slots, c[i]).xmax == 0 || !committed(VersionAt(slots, c[i]).xmax))
    case None =>
      || (forall j :: 0 <= j < |c| ==> !committed(VersionAt(slots, c[j]).xmin))
      || (c != [] && var t := VersionAt(slots, c[|c| - 1]); committed(t.xmin) && t.xmax != 0 && committed(t.xmax))
  }

  // ---- Reading versions off a built page ------------------------------------------------

  lemma FieldsOfPrefix(t: Bytes)
    requires |t| >= TUPLE_HEADER
    ensures FieldsOf(t[..TUPLE_HEADER]) == FieldsOf(t)
  {
    hide Get;
    var h := t[..TUPLE_HEADER];
    assert h[0..4] == t[0..4] && h[4..8] == t[4..8] && h[12..14] == t[12..14] && h[14..16] == t[14..16];
    assert h[16..18] == t[16..18] && h[18..20] == t[18..20] && h[20..22] == t[20..22];
  }

  ghost predicate SlotsInRange(slots: seq<Slot>, ps: seq<PhysCol>, block: nat)
    requires ColsOk(ps)
  {
    forall k :: 0 <= k < |slots| ==>
      && (slots[k].Semantic? && AsRaw(slots[k].spec, ps).Some? ==> InRange(AsRaw(slots[k].spec, ps).value, (block, k + 1)))
      && (slots[k].Raw? ==> InRange(slots[k].raw, (block, k + 1)))
      && (slots[k].Redirect? ==> slots[k].target < 0x1_0000)
  }

  /** A built page: what the readers below rely on. */
  ghost predicate IsBuilt(page: Bytes, slots: seq<Slot>, ps: seq<PhysCol>, block: nat) {
    ColsOk(ps) && |ps| <= 1800 && SlotsInRange(slots, ps, block)
    && exists lsn, mix :: BuildPage(slots, ps, block, lsn, mix) == Some(page)
  }

  /** The tuple a version is stored as. */
  function StoredAs(slots: seq<Slot>, o: nat, ps: seq<PhysCol>): Option<RawTuple>
    requires IsVersion(slots, o) && ColsOk(ps)
  {
    match slots[o - 1]
    case Semantic(s) => AsRaw(s, ps)
    case Raw(t) => Some(t)
  }

  lemma VersionStored(slots: seq<Slot>, ps: seq<PhysCol>, block: nat, o: nat)
    requires ColsOk(ps) && SlotsInRange(slots, ps, block) && IsVersion(slots, o) && StoredBy(slots[o - 1], ps, block, o).Bytes?
    ensures StoredAs(slots, o, ps).Some?
    ensures var t, s := StoredAs(slots, o, ps).value, VersionAt(slots, o);
            && t.xmin == s.xmin && t.xmax == s.xmax && t.ctid == s.ctid && t.heapOnly == s.heapOnly && t.hotUpdated == s.hotUpdated
            && InRange(t, (block, o)) && EncodeRaw(t, (block, o)) == Some(StoredBy(slots[o - 1], ps, block, o).tuple)
  {
    hide AsRaw, EncodeRaw, InRange;
    if slots[o - 1].Semantic? {
      RawOfSpec(slots[o - 1].spec, ps);
    }
  }

  lemma VersionFields(page: Bytes, slots: seq<Slot>, ps: seq<PhysCol>, block: nat, o: nat)
    requires IsBuilt(page, slots, ps, block) && IsVersion(slots, o)
    ensures PointerAt(page, o).Some? && PointerAt(page, o).value.flags == LP_NORMAL
    ensures var f, s := HeaderAt(page, PointerAt(page, o).value.off), VersionAt(slots, o);
            && f.Some? && f.value.xmin == s.xmin && f.value.xmax == s.xmax
            && f.value.ctid == (if s.ctid.Some? then s.ctid.value else (block, o))
            && (HotUpdated(f.value.infomask2) <==> s.hotUpdated) && (HeapOnly(f.value.infomask2) <==> s.heapOnly)
            && !Slru.LockOnly(f.value.infomask) && !Slru.IsMulti(f.value.infomask)
  {
    hide BuildPage, Placed, TupleAt, FieldsOf, EncodeRaw, Infomask2, HotUpdated, HeapOnly, AsRaw, StoredBy, SlotsInRange, VersionAt, StoredAs;
    var lsn, mix :| BuildPage(slots, ps, block, lsn, mix) == Some(page);
    TupleStays(page, slots, ps, block, lsn, mix, o);
    VersionStored(slots, ps, block, o);
    var t, e := StoredAs(slots, o, ps).value, StoredBy(slots[o - 1], ps, block, o).tuple;
    EncodedFields(t, (block, o));
    PageSlice(page, o, e);
    Infomask2Bits(t.natts, t.heapOnly, t.hotUpdated);
    NoLockBits(t.xmin, t.xmax, t.bitmap != [], t.varwidth);
  }

  lemma TupleStays(page: Bytes, slots: seq<Slot>, ps: seq<PhysCol>, block: nat, lsn: nat, mix: Mix, o: nat)
    requires ColsOk(ps) && BuildPage(slots, ps, block, lsn, mix) == Some(page) && IsVersion(slots, o)
    ensures var st := StoredBy(slots[o - 1], ps, block, o);
            && st.Bytes? && PointerAt(page, o).Some? && PointerAt(page, o).value.flags == LP_NORMAL
            && (|st.tuple| >= TUPLE_HEADER ==> TupleAt(page, o) == Some(st.tuple))
  {
    hide BuildPage, Placed, TupleAt, StoredBy, PointerAt;
    PointersReadBack(slots, ps, block, lsn, mix, o - 1);
  }

  lemma RawOfSpec(s: TupleSpec, ps: seq<PhysCol>)
    requires ColsOk(ps) && AsRaw(s, ps).Some?
    ensures var t := AsRaw(s, ps).value;
            t.xmin == s.xmin && t.xmax == s.xmax && t.ctid == s.ctid && t.heapOnly == s.heapOnly && t.hotUpdated == s.hotUpdated
  {
    hide EncodeFrom, LiveKinds, PresentFlags, Bitmap;
  }

  lemma PageSlice(page: Bytes, o: nat, e: Bytes)
    requires TupleAt(page, o) == Some(e)
    ensures |e| >= TUPLE_HEADER && PointerAt(page, o).Some? && HeaderAt(page, PointerAt(page, o).value.off) == Some(FieldsOf(e))
  {
    hide FieldsOf, PointerAt;
    var off := PointerAt(page, o).value.off;
    assert page[off..off + TUPLE_HEADER] == e[..TUPLE_HEADER];
    FieldsOfPrefix(e);
  }

  // ---- The walk -------------------------------------------------------------------------

  ghost predicate Shown(s: Version, committed: nat -> bool) {
    committed(s.xmin) && (s.xmax == 0 || !committed(s.xmax))
  }

  lemma VersionStep(page: Bytes, slots: seq<Slot>, ps: seq<PhysCol>, block: nat, o: nat, fuel: nat, clog: Slru.Pages, committed: nat -> bool)
    requires IsBuilt(page, slots, ps, block) && IsVersion(slots, o) && Knows(clog, committed) && VersionAt(slots, o).xmin != 0 && fuel > 0
    ensures var s := VersionAt(slots, o);
            var next := if s.ctid.Some? then s.ctid.value else (block, o);
            VisibleVersion(page, block, o, fuel, clog)
            == if Shown(s, committed) then Slru.Ok(Some(o))
               else if s.hotUpdated && next.0 == block && next.1 != 0 && next.1 != o
               then VisibleVersion(page, block, next.1, fuel - 1, clog) else Slru.Ok(None)
  {
    hide IsBuilt, PointerAt, HeaderAt, HotUpdated, HeapOnly, Slru.Resolve, Slru.LockOnly, Slru.IsMulti;
    VersionFields(page, slots, ps, block, o);
  }

  /** From version `i` of a chain on, when everything before it was committed and superseded. */
  lemma {:induction false} WalkFrom(page: Bytes, slots: seq<Slot>, ps: seq<PhysCol>, block: nat, c: seq<nat>, i: nat, fuel: nat,
                                    clog: Slru.Pages, committed: nat -> bool)
    requires IsBuilt(page, slots, ps, block) && IsChain(slots, block, c, committed) && Knows(clog, committed)
    requires i < |c| && |c| - i <= fuel
    requires forall j :: 0 <= j < i ==> !Shown(VersionAt(slots, c[j]), committed)
    ensures VisibleVersion(page, block, c[i], fuel, clog).Ok?
    ensures IsPick(slots, c, committed, VisibleVersion(page, block, c[i], fuel, clog).value)
    decreases |c| - i
  {
    hide IsBuilt, VisibleVersion, Knows;
    VersionStep(page, slots, ps, block, c[i], fuel, clog, committed);
    if Shown(VersionAt(slots, c[i]), committed) {
      PickShown(slots, block, c, i, committed);
    } else if i == |c| - 1 {
      PickNone(slots, block, c, committed);
    } else {
      assert Linked(slots, block, c[i], c[i + 1], committed);
      WalkFrom(page, slots, ps, block, c, i + 1, fuel - 1, clog, committed);
    }
  }

  lemma {:induction false} CommittedBefore(slots: seq<Slot>, block: nat, c: seq<nat>, committed: nat -> bool, i: nat, j: nat)
    requires IsChain(slots, block, c, committed) && i <= j < |c| && committed(VersionAt(slots, c[j]).xmin)
    ensures committed(VersionAt(slots, c[i]).xmin)
    decreases j - i
  {
    if i < j {
      assert Linked(slots, block, c[j - 1], c[j], committed);
      CommittedBefore(slots, block, c, committed, i, j - 1);
    }
  }

  lemma PickShown(slots: seq<Slot>, block: nat, c: seq<nat>, i: nat, committed: nat -> bool)
    requires IsChain(slots, block, c, committed) && i < |c| && Shown(VersionAt(slots, c[i]), committed)
    ensures IsPick(slots, c, committed, Some(c[i]))
  {
    forall j | i < j < |c| ensures !committed(VersionAt(slots, c[j]).xmin) {
      assert Linked(slots, block, c[i], c[i + 1], committed);
      if committed(VersionAt(slots, c[j]).xmin) {
        CommittedBefore(slots, block, c, committed, i + 1, j);
      }
    }
  }

  lemma PickNone(slots: seq<Slot>, block: nat, c: seq<nat>, committed: nat -> bool)
    requires IsChain(slots, block, c, committed) && forall j :: 0 <= j < |c| ==> !Shown(VersionAt(slots, c[j]), committed)
    ensures IsPick(slots, c, committed, None)
  {
    var n := |c| - 1;
    if exists j :: 0 <= j < |c| && committed(VersionAt(slots, c[j]).xmin) {
      var j :| 0 <= j < |c| && committed(VersionAt(slots, c[j]).xmin);
      CommittedAfter(slots, block, c, committed, j, n);
    }
  }

  /** When no version is shown, commitment runs to the end of the chain. */
  lemma {:induction false} CommittedAfter(slots: seq<Slot>, block: nat, c: seq<nat>, committed: nat -> bool, i: nat, j: nat)
    requires IsChain(slots, block, c, committed) && i <= j < |c| && committed(VersionAt(slots, c[i]).xmin)
    requires forall k :: 0 <= k < |c| ==> !Shown(VersionAt(slots, c[k]), committed)
    ensures committed(VersionAt(slots, c[j]).xmin)
    decreases j - i
  {
    if i < j {
      CommittedAfter(slots, block, c, committed, i, j - 1);
      assert Linked(slots, block, c[j - 1], c[j], committed);
    }
  }

  // ---- How many versions fit ------------------------------------------------------------

  function Versions(slots: seq<Slot>, n: nat): (v: set<nat>)
    requires n <= |slots|
  {
    set o | 1 <= o <= n && IsVersion(slots, o)
  }

  lemma {:induction false} UpperBound(slots: seq<Slot>, ps: seq<PhysCol>, block: nat, k: nat)
    requires ColsOk(ps) && k <= |slots| && LowerEnd(|slots|) <= PAGE_SIZE && Placed(slots, ps, block, k).Some?
    ensures Placed(slots, ps, block, k).value.upper + 24 * |Versions(slots, k)| <= PAGE_SIZE && |Versions(slots, k)| <= k
  {
    hide StoredBy, PlaceSlot, AlignTo;
    if k == 0 {
      assert Versions(slots, 0) == {};
    } else {
      UpperBound(slots, ps, block, k - 1);
      var st := StoredBy(slots[k - 1], ps, block, k);
      SlotFits(Placed(slots, ps, block, k - 1).value, st, k - 1, |slots|);
      if IsVersion(slots, k) {
        assert Versions(slots, k) == Versions(slots, k - 1) + {k};
        TupleSize(slots[k - 1], ps, block, k);
      } else {
        assert Versions(slots, k) == Versions(slots, k - 1);
      }
    }
  }

  lemma TupleSize(s: Slot, ps: seq<PhysCol>, block: nat, offnum: nat)
    requires ColsOk(ps) && (s.Semantic? || s.Raw?) && !StoredBy(s, ps, block, offnum).Refused?
    ensures StoredBy(s, ps, block, offnum).Bytes? && AlignTo(|StoredBy(s, ps, block, offnum).tuple|, 8) >= 24
  {
    hide AsRaw, RawHeader;
  }

  lemma {:induction false} DistinctSize(c: seq<nat>, s: set<nat>)
    requires (forall i, j :: 0 <= i < j < |c| ==> c[i] != c[j]) && forall i :: 0 <= i < |c| ==> c[i] in s
    ensures |c| <= |s|
    decreases |c|
  {
    if c != [] {
      var front, last := c[..|c| - 1], c[|c| - 1];
      DistinctSize(front, s - {last});
      assert |s - {last}| == |s| - 1;
    }
  }

  /** At most 291 versions fit a page, so no chain of distinct versions runs into the walk's bound. */
  lemma ChainsAreShort(page: Bytes, slots: seq<Slot>, ps: seq<PhysCol>, block: nat, c: seq<nat>, committed: nat -> bool)
    requires IsBuilt(page, slots, ps, block) && IsChain(slots, block, c, committed)
    ensures |c| <= 291 < MAX_CHAIN
  {
    hide Placed, AlignTo, StoredBy, AsRaw, IsVersion;
    var lsn, mix :| BuildPage(slots, ps, block, lsn, mix) == Some(page);
    UpperBound(slots, ps, block, |slots|);
    assert 28 * |Versions(slots, |slots|)| <= PAGE_SIZE - PAGE_HEADER;
    AllVersions(slots, block, c, committed);
    DistinctSize(c, Versions(slots, |slots|));
  }

  lemma AllVersions(slots: seq<Slot>, block: nat, c: seq<nat>, committed: nat -> bool)
    requires IsChain(slots, block, c, committed)
    ensures forall i :: 0 <= i < |c| ==> c[i] in Versions(slots, |slots|)
  {
  }

  // ---- The page's rows ------------------------------------------------------------------

  /** An index can point here: a redirect whose target fits its field, or a version that is not heap-only. */
  predicate IsRoot(slots: seq<Slot>, o: nat) {
    1 <= o <= |slots| && ((slots[o - 1].Redirect? && slots[o - 1].target < 0x8000) || (IsVersion(slots, o) && !VersionAt(slots, o).heapOnly))
  }

  /** Every root has its chain: from the version itself, or from where the redirect points. */
  ghost predicate HotPage(slots: seq<Slot>, block: nat, chains: nat -> seq<nat>, committed: nat -> bool) {
    forall o :: IsRoot(slots, o) ==>
      && IsChain(slots, block, chains(o), committed)
      && chains(o)[0] == (if slots[o - 1].Redirect? then slots[o - 1].target else o)
  }

  /** What one line pointer should contribute. */
  ghost predicate Contributes(slots: seq<Slot>, block: nat, chains: nat -> seq<nat>, committed: nat -> bool, ps: seq<PhysCol>, env: Env,
                              o: nat, rows: seq<FragmentRow>)
    requires HotPage(slots, block, chains, committed) && ColsOk(ps)
  {
    if !IsRoot(slots, o) then rows == []
    else
      exists p: Option<nat> ::
        IsPick(slots, chains(o), committed, p)
        && rows == if p.Some? && IsVersion(slots, p.value) && RowAt(slots, p.value, ps, env).Some?
                   then [FragmentRow(block, o, RowAt(slots, p.value, ps, env).value)] else []
  }

  /** The version a root's chain shows, if any, decodes. */
  ghost predicate Readable(slots: seq<Slot>, block: nat, chains: nat -> seq<nat>, committed: nat -> bool, ps: seq<PhysCol>, env: Env, o: nat)
    requires HotPage(slots, block, chains, committed) && ColsOk(ps)
  {
    IsRoot(slots, o) ==>
      forall p: nat :: IsPick(slots, chains(o), committed, Some(p)) ==> IsVersion(slots, p) && RowAt(slots, p, ps, env).Some?
  }

  /** A chain shows one version or none. */
  lemma PickUnique(slots: seq<Slot>, block: nat, c: seq<nat>, committed: nat -> bool, p: Option<nat>, q: Option<nat>)
    requires IsChain(slots, block, c, committed) && IsPick(slots, c, committed, p) && IsPick(slots, c, committed, q)
    ensures p == q
  {
    hide VersionAt;
    if p.Some? && q.Some? {
      var i :| 0 <= i < |c| && c[i] == p.value && committed(VersionAt(slots, c[i]).xmin)
               && forall j :: i < j < |c| ==> !committed(VersionAt(slots, c[j]).xmin);
      var k :| 0 <= k < |c| && c[k] == q.value && committed(VersionAt(slots, c[k]).xmin)
               && forall j :: k < j < |c| ==> !committed(VersionAt(slots, c[j]).xmin);
      assert !(i < k) && !(k < i);
    }
  }

  lemma RootStartIs(page: Bytes, slots: seq<Slot>, ps: seq<PhysCol>, block: nat, o: nat)
    requires IsBuilt(page, slots, ps, block) && 1 <= o <= |slots|
    ensures RootStart(page, o)
         == Slru.Ok(if !IsRoot(slots, o) then None else if slots[o - 1].Redirect? then Some(slots[o - 1].target) else Some(o))
  {
    hide BuildPage, Placed, TupleAt, FieldsOf, StoredBy, AsRaw, PointerAt, HeaderAt, HeapOnly, HotUpdated, Slru.LockOnly, Slru.IsMulti;
    var lsn, mix :| BuildPage(slots, ps, block, lsn, mix) == Some(page);
    if IsVersion(slots, o) {
      VersionFields(page, slots, ps, block, o);
    } else {
      PointersReadBack(slots, ps, block, lsn, mix, o - 1);
    }
  }

  lemma VersionDecodes(page: Bytes, slots: seq<Slot>, ps: seq<PhysCol>, block: nat, o: nat, env: Env)
    requires IsBuilt(page, slots, ps, block) && IsVersion(slots, o)
    ensures var d := DecodeFromPage(page, o, ps, env);
            RowAt(slots, o, ps, env) == if d.None? then None else Some(d.value.0)
  {
    hide BuildPage, AsRaw, DecodeFromPage, InRange, RawRow;
    var lsn, mix :| BuildPage(slots, ps, block, lsn, mix) == Some(page);
    if slots[o - 1].Semantic? {
      SemanticSlotDecodes(slots, ps, block, lsn, mix, o - 1, env);
    } else {
      RawSlotDecodes(slots, ps, block, lsn, mix, o - 1, env);
    }
  }

  lemma RowContributes(page: Bytes, slots: seq<Slot>, ps: seq<PhysCol>, block: nat, o: nat, env: Env, clog: Slru.Pages,
                       chains: nat -> seq<nat>, committed: nat -> bool)
    requires IsBuilt(page, slots, ps, block) && HotPage(slots, block, chains, committed) && Knows(clog, committed) && 1 <= o <= |slots|
    ensures var r := RowOf(page, block, o, ps, env, clog);
            && (r.Ok? <==> Readable(slots, block, chains, committed, ps, env, o))
            && (r.Ok? ==> Contributes(slots, block, chains, committed, ps, env, o, r.value))
  {
    hide BuildPage, SlotsInRange, RootStart, VisibleVersion, DecodeFromPage, Knows, IsChain, IsPick, RowAt, IsVersion;
    RootStartIs(page, slots, ps, block, o);
    if IsRoot(slots, o) {
      var c := chains(o);
      RootWalk(page, slots, ps, block, c, clog, committed);
      var p := VisibleVersion(page, block, c[0], MAX_CHAIN, clog).value;
      if p.Some? {
        VersionDecodes(page, slots, ps, block, p.value, env);
      }
      forall q: nat | IsPick(slots, c, committed, Some(q)) ensures p == Some(q) {
        PickUnique(slots, block, c, committed, p, Some(q));
      }
      assert IsPick(slots, c, committed, p);
    }
  }

  lemma RootWalk(page: Bytes, slots: seq<Slot>, ps: seq<PhysCol>, block: nat, c: seq<nat>, clog: Slru.Pages, committed: nat -> bool)
    requires IsBuilt(page, slots, ps, block) && IsChain(slots, block, c, committed) && Knows(clog, committed)
    ensures c != [] && forall i :: 0 <= i < |c| ==> IsVersion(slots, c[i])
    ensures VisibleVersion(page, block, c[0], MAX_CHAIN, clog).Ok?
    ensures var p := VisibleVersion(page, block, c[0], MAX_CHAIN, clog).value;
            IsPick(slots, c, committed, p) && (p.Some? ==> IsVersion(slots, p.value))
  {
    hide IsBuilt, VisibleVersion, Knows, Linked;
    ChainsAreShort(page, slots, ps, block, c, committed);
    WalkFrom(page, slots, ps, block, c, 0, MAX_CHAIN, clog, committed);
  }

  /** The rows of the first `n` line pointers, each contributed by its own root. */
  ghost predicate Collapsed(slots: seq<Slot>, block: nat, chains: nat -> seq<nat>, committed: nat -> bool, ps: seq<PhysCol>, env: Env, n: nat,
                            rows: seq<FragmentRow>)
    requires HotPage(slots, block, chains, committed) && ColsOk(ps)
  {
    if n == 0 then rows == []
    else
      exists front: seq<FragmentRow>, last: seq<FragmentRow> ::
        Collapsed(slots, block, chains, committed, ps, env, n - 1, front) && Contributes(slots, block, chains, committed, ps, env, n, last)
        && rows == front + last
  }

  lemma {:induction false} RowsCollapse(page: Bytes, slots: seq<Slot>, ps: seq<PhysCol>, block: nat, n: nat, env: Env, clog: Slru.Pages,
                                        chains: nat -> seq<nat>, committed: nat -> bool)
    requires IsBuilt(page, slots, ps, block) && HotPage(slots, block, chains, committed) && Knows(clog, committed) && n <= |slots|
    ensures var r := Rows(page, block, n, ps, env, clog);
            && (r.Ok? <==> forall o :: 1 <= o <= n ==> Readable(slots, block, chains, committed, ps, env, o))
            && (r.Ok? ==> Collapsed(slots, block, chains, committed, ps, env, n, r.value))
  {
    hide HotPage, Knows, Contributes, RowOf, BuildPage, SlotsInRange, Readable;
    if n > 0 {
      RowsCollapse(page, slots, ps, block, n - 1, env, clog, chains, committed);
      RowContributes(page, slots, ps, block, n, env, clog, chains, committed);
    }
  }

  lemma LowerReads(page: Bytes, slots: seq<Slot>, ps: seq<PhysCol>, block: nat)
    requires IsBuilt(page, slots, ps, block)
    ensures |page| == PAGE_SIZE && LinePointers(page) == |slots|
  {
    hide Placed, Get, Put, Checksum, SlotsInRange, Write;
    var lsn, mix :| BuildPage(slots, ps, block, lsn, mix) == Some(page);
    var n, b := |slots|, Placed(slots, ps, block, |slots|).value;
    var h := HeaderBytes(lsn, LowerEnd(n), b.upper);
    var mid := Write(b.page, 0, h);
    Widths();
    GetPut(LowerEnd(n), 2);
    WriteFacts(b.page, 0, h, 0, 0);
    assert mid[12..14] == mid[0..24][12..14] == h[12..14] == Put(LowerEnd(n), 2);
    WriteFacts(mid, 8, Put(Checksum(mid, block, mix), 2), 12, 14);
  }

  /**
   HOT collapse, on every page that is built from slots: when its chains are linked and committed front to back, it is
   read if and only if the version each root's chain shows decodes, and then yields exactly one row for each root with a
   version to show, namely the chain's last committed one, addressed by the root's offnum.
   */
  lemma EmitCollapsesChains(page: Bytes, slots: seq<Slot>, ps: seq<PhysCol>, block: nat, env: Env, clog: Slru.Pages,
                            chains: nat -> seq<nat>, committed: nat -> bool)
    requires IsBuilt(page, slots, ps, block) && HotPage(slots, block, chains, committed) && Knows(clog, committed)
    ensures var r := EmitPage(page, block, ps, env, clog);
            && (r.Ok? <==> forall o :: 1 <= o <= |slots| ==> Readable(slots, block, chains, committed, ps, env, o))
            && (r.Ok? ==> Collapsed(slots, block, chains, committed, ps, env, |slots|, r.value) && RootsOnly(slots, r.value))
  {
    hide HotPage, Knows, Rows, Collapsed, BuildPage, SlotsInRange, Readable, RootsOnly;
    LowerReads(page, slots, ps, block);
    RowsCollapse(page, slots, ps, block, |slots|, env, clog, chains, committed);
    var r := EmitPage(page, block, ps, env, clog);
    if r.Ok? {
      CollapsedRoots(slots, block, chains, committed, ps, env, |slots|, r.value);
    }
  }

  /** Rows are addressed by roots, at most one each, in offnum order: never by a heap-only tuple. */
  ghost predicate RootsOnly(slots: seq<Slot>, rows: seq<FragmentRow>) {
    && (forall i :: 0 <= i < |rows| ==> IsRoot(slots, rows[i].offnum))
    && (forall i, j :: 0 <= i < j < |rows| ==> rows[i].offnum < rows[j].offnum)
  }

  lemma OneRowAtMost(slots: seq<Slot>, block: nat, chains: nat -> seq<nat>, committed: nat -> bool, ps: seq<PhysCol>, env: Env, o: nat,
                     rows: seq<FragmentRow>)
    requires HotPage(slots, block, chains, committed) && ColsOk(ps) && Contributes(slots, block, chains, committed, ps, env, o, rows)
    ensures |rows| <= 1 && (rows != [] ==> IsRoot(slots, o) && rows[0].offnum == o)
  {
    hide HotPage, IsPick, RowAt, IsVersion;
  }

  lemma NoRoots(slots: seq<Slot>)
    ensures RootsOnly(slots, [])
  {
  }

  lemma RootsAppend(slots: seq<Slot>, front: seq<FragmentRow>, last: seq<FragmentRow>, n: nat)
    requires RootsOnly(slots, front) && n > 0 && forall i :: 0 <= i < |front| ==> front[i].offnum <= n - 1
    requires |last| <= 1 && (last != [] ==> IsRoot(slots, n) && last[0].offnum == n)
    ensures RootsOnly(slots, front + last) && forall i :: 0 <= i < |front + last| ==> (front + last)[i].offnum <= n
  {
    hide IsRoot;
  }

  lemma {:induction false} CollapsedRoots(slots: seq<Slot>, block: nat, chains: nat -> seq<nat>, committed: nat -> bool,
                                          ps: seq<PhysCol>, env: Env, n: nat, rows: seq<FragmentRow>)
    requires HotPage(slots, block, chains, committed) && ColsOk(ps) && Collapsed(slots, block, chains, committed, ps, env, n, rows)
    ensures RootsOnly(slots, rows) && forall i :: 0 <= i < |rows| ==> rows[i].offnum <= n
    decreases n
  {
    hide HotPage, Contributes, IsRoot, RootsOnly;
    NoRoots(slots);
    if n > 0 {
      var front, last :| Collapsed(slots, block, chains, committed, ps, env, n - 1, front)
                         && Contributes(slots, block, chains, committed, ps, env, n, last)
                         && rows == front + last;
      CollapsedRoots(slots, block, chains, committed, ps, env, n - 1, front);
      OneRowAtMost(slots, block, chains, committed, ps, env, n, last);
      RootsAppend(slots, front, last, n);
    }
  }

  // ---- Raw tuples demoted and rebuilt ---------------------------------------------------

  /** Whether line pointer `o`'s version is visible, as the chain walk asks. */
  function VersionVisible(page: Bytes, o: nat, clog: Slru.Pages): Answer<bool> {
    var lp := PointerAt(page, o);
    if lp.None? then Slru.Err
    else
      var f := HeaderAt(page, lp.value.off);
      if f.None? then Slru.Err else Slru.TupleVisible(clog, f.value.xmin, f.value.xmax, f.value.infomask)
  }

  /**
   A tuple taken off one page and placed raw on another is as visible there as it was if and only if the answer did not
   need the bits its header loses.
   */
  lemma DemotedVisibility(page: Bytes, o: nat, rebuilt: Bytes, slots: seq<Slot>, ps: seq<PhysCol>, block: nat, k: nat, clog: Slru.Pages)
    requires IsBuilt(rebuilt, slots, ps, block) && k < |slots| && RawFromPage(page, o).Some? && slots[k] == Raw(RawFromPage(page, o).value)
    ensures var f := FieldsOf(TupleAt(page, o).value);
            VersionVisible(rebuilt, k + 1, clog) == VersionVisible(page, o, clog)
            <==> Slru.NeedsNoBits(clog, f.xmin, f.xmax, f.infomask)
  {
    hide BuildPage, FieldsOf, RawFrom, Slru.TupleVisible, Slru.NeedsNoBits, PointerAt, EncodeRaw, Slru.LockOnly, Slru.IsMulti;
    hide TupleAt, HeaderAt, IsBuilt, RawFromPage;
    TakenOff(page, o);
    var e := TupleAt(page, o).value;
    var f := FieldsOf(e);
    VersionFields(rebuilt, slots, ps, block, k + 1);
    PageSlice(page, o, e);
    RawXids(e);
    var g := HeaderAt(rebuilt, PointerAt(rebuilt, k + 1).value.off).value;
    Slru.BitsLost(clog, f.xmin, f.xmax, f.infomask, g.infomask);
  }

  lemma TakenOff(page: Bytes, o: nat)
    requires RawFromPage(page, o).Some?
    ensures TupleAt(page, o).Some? && |TupleAt(page, o).value| >= TUPLE_HEADER && RawFrom(TupleAt(page, o).value) == RawFromPage(page, o)
  {
    hide RawFrom, PointerAt;
  }

  lemma RawXids(e: Bytes)
    requires |e| >= TUPLE_HEADER && RawFrom(e).Some?
    ensures RawFrom(e).value.xmin == FieldsOf(e).xmin && RawFrom(e).value.xmax == FieldsOf(e).xmax
  {
    hide FieldsOf;
  }

  /** Transactions all committed: two status bits each, `01`. */
  function AllCommitted(pageno: nat): Bytes {
    seq(Slru.PAGE_SIZE, _ => 0x55)
  }

  /** A row of transaction 5, locked by transaction 6. */
  const LOCKED: Bytes := Header(5, 6, (0, 1), 0, 0x80, 24) + [0]

  lemma LockedHeader()
    ensures |LOCKED| == 24 && RawFrom(LOCKED).Some?
    ensures var f := FieldsOf(LOCKED); f.xmin == 5 && f.xmax == 6 && Slru.LockOnly(f.infomask)
  {
    hide FieldsOf, Header;
    HeaderFields(5, 6, (0, 1), 0, 0x80, 24, [0]);
  }

  lemma ResolvesCommitted()
    ensures Slru.Resolve(AllCommitted, 5) == Slru.Ok(Slru.Committed) && Slru.Resolve(AllCommitted, 6) == Slru.Ok(Slru.Committed)
  {
    var page := AllCommitted(0);
    assert page[1] == 0x55;
    assert Slru.Pow4(1) == 4 * Slru.Pow4(0) && Slru.Pow4(2) == 4 * Slru.Pow4(1);
    assert Slru.XidLocation(5) == (0, 1, 1) && Slru.XidLocation(6) == (0, 1, 2);
    assert Slru.StatusInPage(page, 5) == Slru.Ok(Slru.Committed);
    assert Slru.StatusInPage(page, 6) == Slru.Ok(Slru.Committed);
  }

  /** A row whose locker committed is shown, and hidden after it was taken off its page and placed raw. */
  lemma LockedRowVanishes(self: (nat, nat))
    ensures |LOCKED| >= TUPLE_HEADER && RawFrom(LOCKED).Some? && EncodeRaw(RawFrom(LOCKED).value, self).Some?
    ensures var f, e' := FieldsOf(LOCKED), EncodeRaw(RawFrom(LOCKED).value, self).value;
            && Slru.TupleVisible(AllCommitted, f.xmin, f.xmax, f.infomask) == Slru.Ok(true)
            && |e'| >= TUPLE_HEADER
            && var g := FieldsOf(e'); Slru.TupleVisible(AllCommitted, g.xmin, g.xmax, g.infomask) == Slru.Ok(false)
  {
    hide FieldsOf, RawFrom, EncodeRaw, Slru.Resolve, Infomask;
    LockedHeader();
    var t := RawFrom(LOCKED).value;
    RawXids(LOCKED);
    ReadIsEncodable(LOCKED, self);
    EncodedFields(t, self);
    NoLockBits(t.xmin, t.xmax, t.bitmap != [], t.varwidth);
    ResolvesCommitted();
  }
}
