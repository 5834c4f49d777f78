/**
 The served tail (src/serve.rs `TailStore`): the rows a reader merges with the Delta log to see what is not yet
 flushed. Clock readings are parameters.
 */
module Tail {
  import opened Base
  import opened TxBuf
  import opened Sink
  import opened ChangeLog

  type Instant = nat

  /** `flushedAt`: when the batch went durable; `None` while it is pending. */
  datatype TailBatch = TailBatch(rows: seq<EmitRow>, flushedAt: Option<Instant>)

  function Rows(bs: seq<TailBatch>): seq<EmitRow>
    decreases |bs|
  {
    if bs == [] then [] else Rows(bs[..|bs| - 1]) + bs[|bs| - 1].rows
  }

  // ---- What the operations do -----------------------------------------------------------

  function Stamped(bs: seq<TailBatch>, now: Instant): seq<TailBatch> {
    seq(|bs|, i requires 0 <= i < |bs| => if bs[i].flushedAt.None? then bs[i].(flushedAt := Some(now)) else bs[i])
  }

  /** A batch is kept while its retention window, measured by this clock reading, is open. */
  predicate Kept(b: TailBatch, reading: Instant, retain: nat) {
    b.flushedAt.Some? ==> (if reading > b.flushedAt.value then reading - b.flushedAt.value else 0) < retain
  }

  /** The clock is read again for every batch. */
  function Retained(bs: seq<TailBatch>, readings: seq<Instant>, retain: nat): seq<TailBatch>
    requires |readings| == |bs|
    decreases |bs|
  {
    if bs == [] then []
    else
      var n := |bs| - 1;
      Retained(bs[..n], readings[..n], retain) + if Kept(bs[n], readings[n], retain) then [bs[n]] else []
  }

  predicate HasFlushed(bs: seq<TailBatch>) {
    exists i :: 0 <= i < |bs| && bs[i].flushedAt.Some?
  }

  function FirstFlushed(bs: seq<TailBatch>): (i: nat)
    requires HasFlushed(bs)
    ensures i < |bs| && bs[i].flushedAt.Some? && forall j :: 0 <= j < i ==> bs[j].flushedAt.None?
  {
    if bs[0].flushedAt.Some? then 0
    else
      assert forall i :: 0 < i < |bs| ==> bs[i] == bs[1..][i - 1];
      FirstFlushed(bs[1..]) + 1
  }

  /** Evict the oldest flushed batch until the rows fit or only unflushed batches are left. */
  function Capped(bs: seq<TailBatch>, cap: nat): seq<TailBatch>
    decreases |bs|
  {
    if |Rows(bs)| <= cap || !HasFlushed(bs) then bs
    else
      var i := FirstFlushed(bs);
      Capped(bs[..i] + bs[i + 1..], cap)
  }

  lemma {:induction false} RowsConcat(a: seq<TailBatch>, b: seq<TailBatch>)
    ensures Rows(a + b) == Rows(a) + Rows(b)
    decreases |b|
  {
    if b == [] {
      assert a + b == a;
    } else {
      RowsConcat(a, b[..|b| - 1]);
      var s := a + b;
      assert s[..|s| - 1] == a + b[..|b| - 1] && s[|s| - 1] == b[|b| - 1];
      assert Rows(s) == Rows(a + b[..|b| - 1]) + b[|b| - 1].rows;
    }
  }

  lemma RowsOfOne(b: TailBatch)
    ensures Rows([b]) == b.rows
  {
    assert [b][..0] == [];
  }

  lemma RowsRemove(bs: seq<TailBatch>, i: nat)
    requires i < |bs|
    ensures |Rows(bs[..i] + bs[i + 1..])| == |Rows(bs)| - |bs[i].rows|
  {
    assert bs == bs[..i] + [bs[i]] + bs[i + 1..];
    assert [bs[i]][..0] == [];
    RowsConcat(bs[..i] + [bs[i]], bs[i + 1..]);
    RowsConcat(bs[..i], [bs[i]]);
    RowsConcat(bs[..i], bs[i + 1..]);
  }

  lemma CappedSteps(bs: seq<TailBatch>, cap: nat)
    ensures |Rows(bs)| <= cap || !HasFlushed(bs) ==> Capped(bs, cap) == bs
    ensures |Rows(bs)| > cap && HasFlushed(bs) ==>
              Capped(bs, cap) == Capped(bs[..FirstFlushed(bs)] + bs[FirstFlushed(bs) + 1..], cap)
  {
  }

  class TailStore {
    var tables: map<string, seq<TailBatch>>

    constructor ()
      ensures tables == map[]
    {
      tables := map[];
    }

    function Batches(table: string): seq<TailBatch>
      reads this
    {
      if table in tables then tables[table] else []
    }

    method Push(table: string, rows: seq<EmitRow>)
      modifies this
      ensures tables == old(tables)[table := old(Batches(table)) + [TailBatch(rows, None)]]
    {
      tables := tables[table := Batches(table) + [TailBatch(rows, None)]];
    }

    method MarkFlushed(table: string, now: Instant, readings: seq<Instant>, retain: nat)
      requires |readings| == |Batches(table)|
      modifies this
      ensures table !in old(tables) ==> tables == old(tables)
      ensures table in old(tables) ==>
                tables == old(tables)[table := Retained(Stamped(old(tables)[table], now), readings, retain)]
    {
      if table in tables {
        var stamped := tables[table];
        for i := 0 to |stamped|
          invariant |stamped| == |tables[table]|
          invariant forall j :: 0 <= j < i ==> stamped[j] == Stamped(tables[table], now)[j]
          invariant forall j :: i <= j < |stamped| ==> stamped[j] == tables[table][j]
        {
          if stamped[i].flushedAt.None? {
            stamped := stamped[i := stamped[i].(flushedAt := Some(now))];
          }
        }
        assert stamped == Stamped(tables[table], now);
        var kept: seq<TailBatch> := [];
        for i := 0 to |stamped|
          invariant kept == Retained(stamped[..i], readings[..i], retain)
        {
          assert stamped[..i + 1][..i] == stamped[..i] && readings[..i + 1][..i] == readings[..i];
          if Kept(stamped[i], readings[i], retain) {
            kept := kept + [stamped[i]];
          }
        }
        assert stamped[..|stamped|] == stamped && readings[..|stamped|] == readings;
        tables := tables[table := kept];
      }
    }

    method EnforceCap(table: string, cap: nat)
      modifies this
      ensures table !in old(tables) ==> tables == old(tables)
      ensures table in old(tables) ==> tables == old(tables)[table := Capped(old(tables)[table], cap)]
    {
      hide Capped, HasFlushed, FirstFlushed;
      if table in tables {
        var bs := tables[table];
        var total := 0;
        for i := 0 to |bs|
          invariant total == |Rows(bs[..i])|
        {
          assert bs[..i + 1][..i] == bs[..i];
          total := total + |bs[i].rows|;
        }
        assert bs[..|bs|] == bs;
        while total > cap
          invariant tables == old(tables) && table in tables && total == |Rows(bs)|
          invariant Capped(bs, cap) == Capped(tables[table], cap)
          decreases |bs|
        {
          if !HasFlushed(bs) {
            break;
          }
          var i := FirstFlushed(bs);
          RowsRemove(bs, i);
          CappedSteps(bs, cap);
          total := total - |bs[i].rows|;
          bs := bs[..i] + bs[i + 1..];
        }
        CappedSteps(bs, cap);
        tables := tables[table := bs];
      }
    }
  }

  // ---- Suffixes -------------------------------------------------------------------------

  /** Flushed batches come first, their stamps in order and in the past. */
  ghost predicate Aged(bs: seq<TailBatch>, now: Instant) {
    && (forall i, j :: 0 <= i < j < |bs| && bs[j].flushedAt.Some? ==>
          bs[i].flushedAt.Some? && bs[i].flushedAt.value <= bs[j].flushedAt.value)
    && (forall i :: 0 <= i < |bs| && bs[i].flushedAt.Some? ==> bs[i].flushedAt.value <= now)
  }

  /** Some of the oldest batches are gone, all of them flushed. */
  ghost predicate IsSuffix(bs': seq<TailBatch>, bs: seq<TailBatch>) {
    |bs'| <= |bs| && bs' == bs[|bs| - |bs'|..] && forall i :: 0 <= i < |bs| - |bs'| ==> bs[i].flushedAt.Some?
  }

  /** `bs'` is left of `bs` under the cap: it fits or has nothing flushed, and one batch more would not have fitted. */
  ghost predicate LeastEviction(bs': seq<TailBatch>, bs: seq<TailBatch>, cap: nat) {
    && IsSuffix(bs', bs)
    && (|Rows(bs')| <= cap || !HasFlushed(bs'))
    && (|bs'| < |bs| ==> |Rows(bs[|bs| - |bs'| - 1..])| > cap)
  }

  lemma SuffixMore(bs': seq<TailBatch>, bs: seq<TailBatch>)
    requires bs != [] && bs[0].flushedAt.Some? && IsSuffix(bs', bs[1..])
    ensures IsSuffix(bs', bs)
    ensures |bs'| < |bs| && bs[|bs| - |bs'| - 1..] == if |bs'| == |bs| - 1 then bs else bs[1..][|bs| - |bs'| - 2..]
  {
    var rest := bs[1..];
    var d := |rest| - |bs'|;
    forall i | 0 <= i < d + 1 ensures bs[i].flushedAt.Some? {
      assert i > 0 ==> bs[i] == rest[i - 1];
    }
  }

  /** Capping evicts the shortest prefix of flushed batches that is enough, and nothing unflushed. */
  lemma {:induction false} CappedIsSuffix(bs: seq<TailBatch>, cap: nat, now: Instant)
    requires Aged(bs, now)
    ensures LeastEviction(Capped(bs, cap), bs, cap)
    decreases |bs|
  {
    if |Rows(bs)| > cap && HasFlushed(bs) {
      assert FirstFlushed(bs) == 0;
      assert bs[..0] + bs[0 + 1..] == bs[1..];
      assert Aged(bs[1..], now);
      CappedIsSuffix(bs[1..], cap, now);
      SuffixMore(Capped(bs[1..], cap), bs);
    }
  }

  /** The clock is never read before a stamp it is compared with. */
  ghost predicate ReadAfter(bs: seq<TailBatch>, readings: seq<Instant>) {
    |readings| == |bs| && forall i :: 0 <= i < |bs| && bs[i].flushedAt.Some? ==> bs[i].flushedAt.value <= readings[i]
  }

  /** At its own reading, batch `i` is within its window. */
  predicate Early(bs: seq<TailBatch>, readings: seq<Instant>, retain: nat, i: nat)
    requires i < |bs| == |readings|
  {
    bs[i].flushedAt.None? || readings[i] < bs[i].flushedAt.value + retain
  }

  /**
   No deadline falls between the clock readings of two batches: never is an earlier batch read before its deadline and
   a later one at or after its own.
   */
  ghost predicate NoDeadlineBetween(bs: seq<TailBatch>, readings: seq<Instant>, retain: nat)
    requires |readings| == |bs|
  {
    forall i, j :: 0 <= i < j < |bs| ==> !(Early(bs, readings, retain, i) && !Early(bs, readings, retain, j))
  }

  lemma KeptIsEarly(bs: seq<TailBatch>, readings: seq<Instant>, retain: nat, i: nat)
    requires ReadAfter(bs, readings) && i < |bs|
    ensures Kept(bs[i], readings[i], retain) <==> Early(bs, readings, retain, i)
  {
  }

  /** What the pass keeps, batch by batch. */
  lemma {:induction false} RetainedMembers(bs: seq<TailBatch>, readings: seq<Instant>, retain: nat, b: TailBatch)
    requires |readings| == |bs|
    ensures b in Retained(bs, readings, retain) <==> exists i :: 0 <= i < |bs| && bs[i] == b && Kept(bs[i], readings[i], retain)
    decreases |bs|
  {
    if bs != [] {
      var n := |bs| - 1;
      RetainedMembers(bs[..n], readings[..n], retain, b);
      if i :| 0 <= i < n && bs[..n][i] == b && Kept(bs[..n][i], readings[..n][i], retain) {
        assert bs[i] == b && Kept(bs[i], readings[i], retain);
      }
    }
  }

  lemma DroppedIsFlushed(b: TailBatch, reading: Instant, retain: nat)
    ensures !Kept(b, reading, retain) ==> b.flushedAt.Some?
  {
  }

  lemma EarlierReadings(bs: seq<TailBatch>, readings: seq<Instant>, retain: nat, n: nat)
    requires ReadAfter(bs, readings) && n <= |bs| && NoDeadlineBetween(bs, readings, retain)
    ensures ReadAfter(bs[..n], readings[..n]) && NoDeadlineBetween(bs[..n], readings[..n], retain)
  {
    forall i, j | 0 <= i < j < n ensures !(Early(bs[..n], readings[..n], retain, i) && !Early(bs[..n], readings[..n], retain, j)) {
      assert !(Early(bs, readings, retain, i) && !Early(bs, readings, retain, j));
    }
  }

  lemma SuffixWithLast(r: seq<TailBatch>, bs: seq<TailBatch>)
    requires bs != [] && IsSuffix(r, bs[..|bs| - 1])
    ensures IsSuffix(r + [bs[|bs| - 1]], bs)
  {
    var n := |bs| - 1;
    assert bs[..n][n - |r|..] + [bs[n]] == bs[n - |r|..];
    assert forall i :: 0 <= i < n ==> bs[..n][i] == bs[i];
  }

  lemma {:induction false} KeptSuffix(bs: seq<TailBatch>, readings: seq<Instant>, retain: nat)
    requires ReadAfter(bs, readings) && NoDeadlineBetween(bs, readings, retain)
    ensures IsSuffix(Retained(bs, readings, retain), bs)
    decreases |bs|
  {
    hide Kept, Early, IsSuffix;
    if bs == [] {
      assert IsSuffix([], bs) by { NothingIsSuffix(bs); }
    } else {
      var n := |bs| - 1;
      KeptIsEarly(bs, readings, retain, n);
      if Kept(bs[n], readings[n], retain) {
        EarlierReadings(bs, readings, retain, n);
        KeptSuffix(bs[..n], readings[..n], retain);
        SuffixWithLast(Retained(bs[..n], readings[..n], retain), bs);
      } else {
        forall i | 0 <= i < |bs| ensures !Kept(bs[i], readings[i], retain) && bs[i].flushedAt.Some? {
          KeptIsEarly(bs, readings, retain, i);
          DroppedIsFlushed(bs[i], readings[i], retain);
        }
        RetainedNone(bs, readings, retain);
        NothingIsSuffix(bs);
      }
    }
  }

  lemma NothingIsSuffix(bs: seq<TailBatch>)
    requires forall i :: 0 <= i < |bs| ==> bs[i].flushedAt.Some?
    ensures IsSuffix([], bs)
  {
  }

  lemma {:induction false} RetainedNone(bs: seq<TailBatch>, readings: seq<Instant>, retain: nat)
    requires |readings| == |bs| && forall i :: 0 <= i < |bs| ==> !Kept(bs[i], readings[i], retain)
    ensures Retained(bs, readings, retain) == []
    decreases |bs|
  {
    if bs != [] {
      RetainedNone(bs[..|bs| - 1], readings[..|bs| - 1], retain);
    }
  }

  ghost predicate Distinct(bs: seq<TailBatch>) {
    forall i, j :: 0 <= i < j < |bs| ==> bs[i] != bs[j]
  }

  /** Retention leaves a suffix of the batches if and only if no deadline falls between two of its clock readings. */
  lemma RetainedIsSuffix(bs: seq<TailBatch>, readings: seq<Instant>, retain: nat)
    requires ReadAfter(bs, readings) && Distinct(bs)
    ensures IsSuffix(Retained(bs, readings, retain), bs) <==> NoDeadlineBetween(bs, readings, retain)
  {
    hide Kept, Retained, IsSuffix;
    if NoDeadlineBetween(bs, readings, retain) {
      KeptSuffix(bs, readings, retain);
    } else {
      var r := Retained(bs, readings, retain);
      var i, j :| 0 <= i < j < |bs| && Early(bs, readings, retain, i) && !Early(bs, readings, retain, j);
      KeptIsEarly(bs, readings, retain, i);
      KeptIsEarly(bs, readings, retain, j);
      RetainedMembers(bs, readings, retain, bs[i]);
      RetainedMembers(bs, readings, retain, bs[j]);
      if IsSuffix(r, bs) {
        SuffixHasLater(r, bs, i, j);
      }
    }
  }

  lemma SuffixHasLater(r: seq<TailBatch>, bs: seq<TailBatch>, i: nat, j: nat)
    requires IsSuffix(r, bs) && Distinct(bs) && i < j < |bs| && bs[i] in r
    ensures bs[j] in r
  {
    var d := |bs| - |r|;
    var k :| 0 <= k < |r| && r[k] == bs[i];
    assert bs[d + k] == bs[i];
    assert r[j - d] == bs[j];
  }

  /** Had the pass read the clock once, it would always leave a suffix. */
  lemma OneReadingIsEnough(bs: seq<TailBatch>, retain: nat, now: Instant)
    requires Aged(bs, now)
    ensures IsSuffix(Retained(bs, seq(|bs|, i => now), retain), bs)
  {
    KeptSuffix(bs, seq(|bs|, i => now), retain);
  }

  // ---- Every timing ---------------------------------------------------------------------

  /**
   One table's log and tail during a run: `before` was in the log at the start, `emitted` since, of which the first
   `flushed` rows are durable; `files` is what compactions left of the log.
   */
  datatype Fresh = Fresh(before: seq<EmitRow>, emitted: seq<EmitRow>, flushed: nat, files: seq<EmitRow>,
                         batches: seq<TailBatch>, clock: Instant)

  datatype Event =
    | Emitted(rows: seq<EmitRow>, cap: nat)
    | Flush(now: Instant, readings: seq<Instant>, retain: nat, cap: nat)
    | CompactFiles
    | Idle

  predicate Timely(f: Fresh, e: Event) {
    match e
    case Flush(now, readings, retain, _) =>
      && f.clock <= now && |readings| == |f.batches|
      && (forall i :: 0 <= i < |readings| ==> now <= readings[i])
    case _ => true
  }

  ghost predicate Steady(f: Fresh, e: Event)
    requires Timely(f, e)
  {
    e.Flush? ==> NoDeadlineBetween(Stamped(f.batches, e.now), e.readings, e.retain)
  }

  ghost function Next(f: Fresh, e: Event, key: KeyFn): Fresh
    requires Timely(f, e) && f.flushed <= |f.emitted|
  {
    match e
    case Emitted(rows, cap) =>
      f.(emitted := f.emitted + rows, batches := Capped(f.batches + [TailBatch(rows, None)], cap))
    case Flush(now, readings, retain, cap) =>
      f.(flushed := |f.emitted|, files := f.files + f.emitted[f.flushed..], clock := now,
         batches := Capped(Retained(Stamped(f.batches, now), readings, retain), cap))
    case CompactFiles => f.(files := Compacted(f.files, key))
    case Idle => f
  }

  /** The tail is a suffix of all emitted rows that contains every unflushed one. */
  ghost predicate TailCovers(f: Fresh) {
    f.flushed <= |f.emitted|
    && exists a: nat :: a <= f.flushed && Rows(f.batches) == f.emitted[a..]
  }

  ghost predicate Unflushed(bs: seq<TailBatch>, u: nat) {
    u <= |bs| && forall i :: 0 <= i < |bs| ==> (bs[i].flushedAt.None? <==> u <= i)
  }

  /** The batches hold `all` from `a` on; those from `u` on are the unflushed rows. */
  ghost predicate HoldFrom(all: seq<EmitRow>, flushed: nat, bs: seq<TailBatch>, a: nat, u: nat) {
    && a <= flushed <= |all| && Rows(bs) == all[a..]
    && Unflushed(bs, u) && Rows(bs[u..]) == all[flushed..]
  }

  ghost predicate FreshInv(f: Fresh, key: KeyFn) {
    && f.flushed <= |f.emitted|
    && Aged(f.batches, f.clock)
    && (exists a: nat, u: nat :: HoldFrom(f.emitted, f.flushed, f.batches, a, u))
    && Represents(f.files, f.before + f.emitted[..f.flushed], key)
  }

  lemma RowsSplit(bs: seq<TailBatch>, d: nat)
    requires d <= |bs|
    ensures Rows(bs) == Rows(bs[..d]) + Rows(bs[d..])
  {
    assert bs == bs[..d] + bs[d..];
    RowsConcat(bs[..d], bs[d..]);
  }

  /** Dropping flushed batches from the front keeps the tail a covering suffix. */
  lemma SuffixCovers(all: seq<EmitRow>, flushed: nat, bs: seq<TailBatch>, bs': seq<TailBatch>, now: Instant, a: nat, u: nat)
      returns (a': nat, u': nat)
    requires HoldFrom(all, flushed, bs, a, u) && Aged(bs, now) && IsSuffix(bs', bs)
    ensures Aged(bs', now) && HoldFrom(all, flushed, bs', a', u')
  {
    var d := |bs| - |bs'|;
    assert d <= u by { assert d > 0 ==> bs[d - 1].flushedAt.Some?; }
    a', u' := a + |Rows(bs[..d])|, u - d;
    assert bs'[u'..] == bs[u..];
    assert Unflushed(bs', u') && Aged(bs', now);
    SuffixRows(all, flushed, Rows(bs), Rows(bs[..d]), Rows(bs'), Rows(bs'[..u']), Rows(bs[u..]), a) by {
      RowsSplit(bs, d);
      RowsSplit(bs', u');
    }
  }

  lemma SuffixRows(all: seq<EmitRow>, flushed: nat, r: seq<EmitRow>, dropped: seq<EmitRow>, r': seq<EmitRow>,
                   mid: seq<EmitRow>, last: seq<EmitRow>, a: nat)
    requires a <= flushed <= |all| && r == all[a..] && last == all[flushed..] && r == dropped + r' && r' == mid + last
    ensures a + |dropped| <= flushed && r' == all[a + |dropped|..]
  {
    assert r' == r[|dropped|..];
  }

  lemma StampedRows(bs: seq<TailBatch>, now: Instant)
    ensures Rows(Stamped(bs, now)) == Rows(bs)
    decreases |bs|
  {
    if bs != [] {
      StampedRows(bs[..|bs| - 1], now);
      assert Stamped(bs, now)[..|bs| - 1] == Stamped(bs[..|bs| - 1], now);
    }
  }

  lemma PushCovers(all: seq<EmitRow>, flushed: nat, bs: seq<TailBatch>, a: nat, u: nat, rows: seq<EmitRow>)
    requires HoldFrom(all, flushed, bs, a, u)
    ensures HoldFrom(all + rows, flushed, bs + [TailBatch(rows, None)], a, u)
  {
    hide Rows;
    var b := TailBatch(rows, None);
    RowsOfOne(b);
    RowsConcat(bs, [b]);
    RowsConcat(bs[u..], [b]);
    assert (bs + [b])[u..] == bs[u..] + [b];
  }

  lemma EmitKeepsFresh(f: Fresh, e: Event, key: KeyFn)
    requires FreshInv(f, key) && e.Emitted?
    ensures FreshInv(Next(f, e, key), key)
  {
    hide Rows, Represents, HoldFrom, Capped, HasFlushed;
    var a: nat, u: nat :| HoldFrom(f.emitted, f.flushed, f.batches, a, u);
    var bs, all := f.batches + [TailBatch(e.rows, None)], f.emitted + e.rows;
    PushCovers(f.emitted, f.flushed, f.batches, a, u, e.rows);
    CappedIsSuffix(bs, e.cap, f.clock);
    var _, _ := SuffixCovers(all, f.flushed, bs, Capped(bs, e.cap), f.clock, a, u);
    assert all[..f.flushed] == f.emitted[..f.flushed];
  }

  lemma StampCovers(all: seq<EmitRow>, flushed: nat, bs: seq<TailBatch>, a: nat, u: nat, now: Instant)
    requires HoldFrom(all, flushed, bs, a, u)
    ensures HoldFrom(all, |all|, Stamped(bs, now), a, |bs|)
  {
    StampedRows(bs, now);
    assert Stamped(bs, now)[|bs|..] == [] && all[|all|..] == [];
  }

  lemma FlushKeepsFresh(f: Fresh, e: Event, key: KeyFn)
    requires FreshInv(f, key) && e.Flush? && Timely(f, e) && Steady(f, e) && StrictlyOrdered(f.before + f.emitted)
    ensures FreshInv(Next(f, e, key), key)
  {
    hide Rows, Represents, HoldFrom, Capped, HasFlushed, Retained, Kept;
    var a: nat, u: nat :| HoldFrom(f.emitted, f.flushed, f.batches, a, u);
    var bs, all := Stamped(f.batches, e.now), f.emitted;
    StampCovers(all, f.flushed, f.batches, a, u, e.now);
    assert Aged(bs, e.now);
    KeptSuffix(bs, e.readings, e.retain);
    var kept := Retained(bs, e.readings, e.retain);
    var a1, u1 := SuffixCovers(all, |all|, bs, kept, e.now, a, |bs|);
    CappedIsSuffix(kept, e.cap, e.now);
    var _, _ := SuffixCovers(all, |all|, kept, Capped(kept, e.cap), e.now, a1, u1);
    FlushRepresents(f, key);
  }

  lemma FlushRepresents(f: Fresh, key: KeyFn)
    requires f.flushed <= |f.emitted| && Represents(f.files, f.before + f.emitted[..f.flushed], key)
    requires StrictlyOrdered(f.before + f.emitted)
    ensures Represents(f.files + f.emitted[f.flushed..], f.before + f.emitted[..|f.emitted|], key)
  {
    var durable, more := f.before + f.emitted[..f.flushed], f.emitted[f.flushed..];
    assert f.before + f.emitted == durable + more && f.emitted[..|f.emitted|] == f.emitted;
    OrderedSplit(durable, more);
    RepresentsAppend(f.files, durable, more, key);
  }

  /** A run of one table's tail: every event is timely and no retention pass is split by a deadline. */
  ghost predicate IsFreshRun(fs: seq<Fresh>, es: seq<Event>, key: KeyFn) {
    && |fs| == |es| + 1
    && fs[0].emitted == [] && fs[0].flushed == 0 && fs[0].batches == [] && Represents(fs[0].files, fs[0].before, key)
    && forall i :: 0 <= i < |es| ==>
         && Timely(fs[i], es[i]) && Steady(fs[i], es[i]) && fs[i].flushed <= |fs[i].emitted|
         && fs[i + 1] == Next(fs[i], es[i], key)
  }

  lemma {:induction false} FreshRunInv(fs: seq<Fresh>, es: seq<Event>, key: KeyFn, i: nat)
    requires IsFreshRun(fs, es, key) && i < |fs| && StrictlyOrdered(fs[i].before + fs[i].emitted)
    ensures FreshInv(fs[i], key)
  {
    if i == 0 {
      assert HoldFrom(fs[0].emitted, 0, fs[0].batches, 0, 0);
      assert fs[0].before + [] == fs[0].before;
    } else {
      var f, e := fs[i - 1], es[i - 1];
      assert fs[i].before == f.before;
      if e.Emitted? {
        assert fs[i].before + fs[i].emitted == (f.before + f.emitted) + e.rows;
        OrderedSplit(f.before + f.emitted, e.rows);
      }
      FreshRunInv(fs, es, key, i - 1);
      match e {
        case Emitted(_, _) => EmitKeepsFresh(f, e, key);
        case Flush(_, _, _, _) => FlushKeepsFresh(f, e, key);
        case CompactFiles => RepresentsCompact(f.files, f.before + f.emitted[..f.flushed], key);
        case Idle =>
      }
    }
  }

  /**
   For every timing of commits, flushes, retention, cap eviction and compaction in which no deadline falls between two
   clock readings of a retention pass (`Steady`, part of `IsFreshRun`): the tail is a suffix of what was emitted that
   holds every unflushed row, and files plus tail read like everything ever emitted.
   */
  lemma MergedReadAlways(fs: seq<Fresh>, es: seq<Event>, key: KeyFn, i: nat)
    requires IsFreshRun(fs, es, key) && i < |fs| && StrictlyOrdered(fs[i].before + fs[i].emitted)
    ensures TailCovers(fs[i])
    ensures View(fs[i].files + Rows(fs[i].batches), key) == View(fs[i].before + fs[i].emitted, key)
  {
    hide View, Represents, StrictlyOrdered, IsFreshRun;
    var f := fs[i];
    FreshRunInv(fs, es, key, i);
    var a: nat, u: nat :| HoldFrom(f.emitted, f.flushed, f.batches, a, u);
    ReadOf(f, Rows(f.batches), a, key);
  }

  lemma ReadOf(f: Fresh, tail: seq<EmitRow>, a: nat, key: KeyFn)
    requires a <= f.flushed <= |f.emitted| && tail == f.emitted[a..] && StrictlyOrdered(f.before + f.emitted)
    requires Represents(f.files, f.before + f.emitted[..f.flushed], key)
    ensures View(f.files + tail, key) == View(f.before + f.emitted, key)
  {
    hide View, Represents, StrictlyOrdered;
    var all, b := f.before + f.emitted, |f.before|;
    assert all[..b + f.flushed] == f.before + f.emitted[..f.flushed] && all[b + a..] == f.emitted[a..];
    MergedRead(f.files, all, b + f.flushed, b + a, key);
  }

  // ---- Two fetches ----------------------------------------------------------------------

  /** The event evicts nothing for lack of room, and its retention pass runs within `retain` of the instant `since`. */
  ghost predicate Prompt(f: Fresh, e: Event, since: Instant)
    requires Timely(f, e)
  {
    match e
    case Emitted(rows, cap) => |Rows(f.batches)| + |rows| <= cap
    case Flush(_, readings, retain, cap) =>
      |Rows(f.batches)| <= cap && forall i :: 0 <= i < |readings| ==> readings[i] < since + retain
    case _ => true
  }

  /** From batch `v` on the tail holds every row from `from` on, none of them durable before `since`. */
  ghost predicate StillHolds(f: Fresh, from: nat, since: Instant, v: nat) {
    && v <= |f.batches| && from <= |f.emitted| && Rows(f.batches[v..]) == f.emitted[from..]
    && forall i :: v <= i < |f.batches| && f.batches[i].flushedAt.Some? ==> since <= f.batches[i].flushedAt.value
  }

  lemma RoomyEmit(f: Fresh, e: Event, key: KeyFn, from: nat, since: Instant, v: nat)
    requires e.Emitted? && f.flushed <= |f.emitted| && Prompt(f, e, since) && StillHolds(f, from, since, v)
    ensures StillHolds(Next(f, e, key), from, since, v)
  {
    hide Rows;
    var b := TailBatch(e.rows, None);
    RowsOfOne(b);
    RowsConcat(f.batches, [b]);
    RowsConcat(f.batches[v..], [b]);
    CappedSteps(f.batches + [b], e.cap);
    assert (f.batches + [b])[v..] == f.batches[v..] + [b];
    assert (f.emitted + e.rows)[from..] == f.emitted[from..] + e.rows;
  }

  lemma RoomyFlush(f: Fresh, e: Event, key: KeyFn, from: nat, since: Instant, v: nat) returns (v': nat)
    requires e.Flush? && f.flushed <= |f.emitted| && Timely(f, e) && Steady(f, e) && Aged(f.batches, f.clock)
    requires Prompt(f, e, since) && StillHolds(f, from, since, v) && since <= f.clock
    ensures StillHolds(Next(f, e, key), from, since, v')
  {
    hide Rows, Retained, Capped;
    var bs := Stamped(f.batches, e.now);
    KeptSuffix(bs, e.readings, e.retain);
    var kept := Retained(bs, e.readings, e.retain);
    var d := |bs| - |kept|;
    assert d <= v by {
      if v < d {
        OldestDropped(bs, e.readings, e.retain, v);
      }
    }
    v' := v - d;
    assert kept[v'..] == bs[v..];
    assert bs[v..] == Stamped(f.batches[v..], e.now);
    StampedRows(f.batches[v..], e.now);
    StampedRows(f.batches, e.now);
    RowsSplit(bs, d);
    CappedSteps(kept, e.cap);
  }

  /** A batch the pass drops was past its deadline at its own reading. */
  lemma OldestDropped(bs: seq<TailBatch>, readings: seq<Instant>, retain: nat, i: nat)
    requires ReadAfter(bs, readings) && NoDeadlineBetween(bs, readings, retain) && i < |bs| - |Retained(bs, readings, retain)|
    ensures !Kept(bs[i], readings[i], retain)
    decreases |bs|
  {
    hide Kept, Early;
    var n := |bs| - 1;
    EarlierReadings(bs, readings, retain, n);
    KeptIsEarly(bs, readings, retain, n);
    KeptIsEarly(bs, readings, retain, i);
    if i < n && Kept(bs[n], readings[n], retain) {
      OldestDropped(bs[..n], readings[..n], retain, i);
    }
  }

  lemma {:induction false} StillHeld(fs: seq<Fresh>, es: seq<Event>, key: KeyFn, i: nat, j: nat) returns (v: nat)
    requires IsFreshRun(fs, es, key) && i <= j < |fs| && StrictlyOrdered(fs[j].before + fs[j].emitted)
    requires forall k :: i <= k < j ==> Prompt(fs[k], es[k], fs[i].clock)
    ensures StillHolds(fs[j], fs[i].flushed, fs[i].clock, v) && fs[i].clock <= fs[j].clock
    ensures fs[i].before == fs[j].before && fs[i].emitted <= fs[j].emitted
    decreases j
  {
    hide Represents, HoldFrom, Rows, Capped, Retained;
    FreshRunInv(fs, es, key, j);
    if j == i {
      var a: nat, u: nat :| HoldFrom(fs[i].emitted, fs[i].flushed, fs[i].batches, a, u);
      v := u;
      UnflushedHeld(fs[i], a, u);
    } else {
      var f, e := fs[j - 1], es[j - 1];
      OrderedBefore(fs, es, key, j);
      v := StillHeld(fs, es, key, i, j - 1);
      FreshRunInv(fs, es, key, j - 1);
      assert Prompt(f, e, fs[i].clock);
      match e {
        case Emitted(_, _) => RoomyEmit(f, e, key, fs[i].flushed, fs[i].clock, v);
        case Flush(_, _, _, _) => v := RoomyFlush(f, e, key, fs[i].flushed, fs[i].clock, v);
        case _ =>
      }
    }
  }

  lemma UnflushedHeld(f: Fresh, a: nat, u: nat)
    requires HoldFrom(f.emitted, f.flushed, f.batches, a, u)
    ensures StillHolds(f, f.flushed, f.clock, u)
  {
  }

  lemma OrderedBefore(fs: seq<Fresh>, es: seq<Event>, key: KeyFn, j: nat)
    requires IsFreshRun(fs, es, key) && 0 < j < |fs| && StrictlyOrdered(fs[j].before + fs[j].emitted)
    ensures StrictlyOrdered(fs[j - 1].before + fs[j - 1].emitted)
  {
    var f, e := fs[j - 1], es[j - 1];
    if e.Emitted? {
      assert fs[j].before + fs[j].emitted == (f.before + f.emitted) + e.rows;
      OrderedSplit(f.before + f.emitted, e.rows);
    }
  }

  /**
   What retention is for: a reader that fetches the files first and the tail later sees one state, that of the tail, as
   long as every retention pass in between runs within `retain` of the first fetch and nothing is evicted for room.
   */
  lemma FilesThenTail(fs: seq<Fresh>, es: seq<Event>, key: KeyFn, i: nat, j: nat)
    requires IsFreshRun(fs, es, key) && i <= j < |fs| && StrictlyOrdered(fs[j].before + fs[j].emitted)
    requires forall k :: i <= k < j ==> Prompt(fs[k], es[k], fs[i].clock)
    ensures View(fs[i].files + Rows(fs[j].batches), key) == View(fs[j].before + fs[j].emitted, key)
  {
    hide View, Represents, IsFreshRun, StrictlyOrdered, Rows, Prompt, Timely, Aged, Unflushed, Next;
    var v := StillHeld(fs, es, key, i, j);
    OrderedPrefix(fs[j].before, fs[i].emitted, fs[j].emitted);
    FreshRunInv(fs, es, key, i);
    FreshRunInv(fs, es, key, j);
    ReadTogether(fs[i], fs[j], v, key);
  }

  lemma ReadTogether(e: Fresh, f: Fresh, v: nat, key: KeyFn)
    requires StillHolds(f, e.flushed, e.clock, v) && e.before == f.before && e.emitted <= f.emitted && FreshInv(e, key) && FreshInv(f, key)
    requires StrictlyOrdered(f.before + f.emitted)
    ensures View(e.files + Rows(f.batches), key) == View(f.before + f.emitted, key)
  {
    hide View, Represents, StrictlyOrdered, Rows, Aged, Unflushed;
    var a: nat, u: nat :| HoldFrom(f.emitted, f.flushed, f.batches, a, u);
    RowsSplit(f.batches, v);
    var from := e.flushed;
    assert a <= from;
    assert e.emitted[..from] == f.emitted[..from];
    ReadOf(f.(files := e.files, flushed := from), Rows(f.batches), a, key);
  }

  lemma OrderedPrefix(before: seq<EmitRow>, a: seq<EmitRow>, b: seq<EmitRow>)
    requires a <= b && StrictlyOrdered(before + b)
    ensures StrictlyOrdered(before + a)
  {
    assert before + b == before + a + b[|a|..];
    OrderedSplit(before + a, b[|a|..]);
  }

  /**
   Without that proviso the claim is false: two batches flushed together, a deadline between their two clock readings,
   and a compaction in between make a deleted row reappear.
   */
  lemma SplitRetentionGap()
    ensures exists f: Fresh, e: Event, key: KeyFn ::
              && FreshInv(f, key) && StrictlyOrdered(f.before + f.emitted) && e.Flush? && Timely(f, e)
              && var g := Next(f, e, key);
                 View(g.files + Rows(g.batches), key) != View(g.before + g.emitted, key)
  {
    hide View, Represents, Rows, Retained, Capped;
    var key: KeyFn := (row: Option<Row>) => "k";
    var live, dead := EmitRow(1, 1, false, Ctid(0, 1), Some([])), EmitRow(2, 2, true, Ctid(0, 1), Some([]));
    var bs := [TailBatch([live], Some(0)), TailBatch([dead], Some(0))];
    var all := [live, dead];
    var f := Fresh([], all, 2, [], bs, 0);
    var e := Flush(9, [9, 10], 10, 5);
    GapRows(bs, live, dead);
    GapViews(key, live, dead);
    assert all[0..] == all && all[2..] == [] && all[..2] == all && bs[2..] == [];
    assert HoldFrom(all, 2, bs, 0, 2);
    assert FreshInv(f, key);
    assert Stamped(bs, 9) == bs;
    assert f.files + all[2..] == [];
    var g := Next(f, e, key);
    assert g.batches == bs[..1];
    assert g.files + Rows(g.batches) == [live];
    assert g.before + g.emitted == all;
    assert "k" in View([live], key);
  }

  lemma GapRows(bs: seq<TailBatch>, live: EmitRow, dead: EmitRow)
    requires bs == [TailBatch([live], Some(0)), TailBatch([dead], Some(0))]
    ensures Rows(bs) == [live, dead] && Rows(bs[..1]) == [live] && Rows([]) == []
    ensures Retained(bs, [9, 10], 10) == bs[..1] && Capped(bs[..1], 5) == bs[..1]
  {
    assert bs[..1][..0] == [] && bs[..1][0] == bs[0];
    assert Rows(bs[..1]) == Rows(bs[..1][..0]) + bs[0].rows;
    var rd: seq<Instant> := [9, 10];
    assert rd[..1][..0] == [];
    assert Retained(bs[..1][..0], rd[..1][..0], 10) == [];
    assert Retained(bs[..1], rd[..1], 10) == [bs[0]];
  }

  lemma GapViews(key: KeyFn, live: EmitRow, dead: EmitRow)
    requires key == ((row: Option<Row>) => "k") && !live.deleted && dead.deleted && Before(live, dead)
    ensures View([live, dead], key) == map[] && View([live], key) == map["k" := live]
    ensures Represents([], [] + [live, dead][..2], key)
  {
    assert [live][..0] == [] && [live, dead][..1] == [live] && [live, dead][..2] == [live, dead];
    assert Best([live], key) == map["k" := live];
    assert Best([live, dead], key) == map["k" := dead];
    assert [] + [live, dead][..2] == [live, dead];
  }
}
