/** Page reads at an LSN, the GC gate and branches over columnar fragments (src/timetravel.rs). */
module Timetravel {
  import opened Base

  type Lsn = nat

  /** Blocks `[start, end)` of a relation, materialized at `lsn`. */
  datatype Fragment = Fragment(rel: nat, start: nat, end: nat, lsn: Lsn)

  predicate Covers(f: Fragment, rel: nat, block: nat) {
    f.rel == rel && f.start <= block < f.end
  }

  datatype Resolve = Serve(baseLsn: Lsn, readLsn: Lsn) | BelowHorizon | Uncovered

  datatype Lake = Lake(fragments: seq<Fragment>, tailFloor: Lsn)

  /** LSN of the newest covering fragment at or below `readLsn`. */
  function BaseLsn(fs: seq<Fragment>, rel: nat, block: nat, readLsn: Lsn): Option<Lsn>
    decreases |fs|
  {
    if fs == [] then None
    else
      var prev, f := BaseLsn(fs[..|fs| - 1], rel, block, readLsn), fs[|fs| - 1];
      if Covers(f, rel, block) && f.lsn <= readLsn && (prev.None? || prev.value <= f.lsn) then Some(f.lsn) else prev
  }

  function ResolveAt(l: Lake, rel: nat, block: nat, readLsn: Lsn): Resolve {
    var base := BaseLsn(l.fragments, rel, block, readLsn);
    if base.Some? then
      if base.value == readLsn || base.value >= l.tailFloor then Serve(base.value, readLsn) else BelowHorizon
    else if exists i :: 0 <= i < |l.fragments| && Covers(l.fragments[i], rel, block) then BelowHorizon
    else Uncovered
  }

  predicate BlockRedundant(l: Lake, rel: nat, block: nat, horizon: Lsn) {
    exists i :: 0 <= i < |l.fragments| && Covers(l.fragments[i], rel, block) && l.tailFloor <= l.fragments[i].lsn <= horizon
  }

  predicate ImageRedundant(l: Lake, rel: nat, start: nat, end: nat, horizon: Lsn) {
    forall b :: start <= b < end ==> BlockRedundant(l, rel, b, horizon)
  }

  datatype Branch = Branch(parent: Lake, branchLsn: Lsn, own: Lake)

  function ResolveOnBranch(b: Branch, rel: nat, block: nat, readLsn: Lsn): Resolve {
    if readLsn <= b.branchLsn then ResolveAt(b.parent, rel, block, readLsn)
    else
      var own := ResolveAt(b.own, rel, block, readLsn);
      if own == Uncovered then ResolveAt(b.parent, rel, block, b.branchLsn) else own
  }

  function EffectiveHorizon(configured: Lsn, branchPoints: seq<Lsn>): Lsn
    decreases |branchPoints|
  {
    if branchPoints == [] then configured
    else Min(EffectiveHorizon(configured, branchPoints[..|branchPoints| - 1]), branchPoints[|branchPoints| - 1])
  }

  // ---- What a base is -------------------------------------------------------------------

  ghost predicate IsBase(fs: seq<Fragment>, rel: nat, block: nat, readLsn: Lsn, i: nat) {
    i < |fs| && Covers(fs[i], rel, block) && fs[i].lsn <= readLsn
  }

  /** The base is the newest covering fragment at or below the read, if there is one. */
  lemma {:induction false} BaseIsNewest(fs: seq<Fragment>, rel: nat, block: nat, readLsn: Lsn)
    ensures var b := BaseLsn(fs, rel, block, readLsn);
            && (b.None? <==> forall i: nat :: !IsBase(fs, rel, block, readLsn, i))
            && (b.Some? ==> exists i: nat :: IsBase(fs, rel, block, readLsn, i) && fs[i].lsn == b.value)
            && (b.Some? ==> forall i: nat :: IsBase(fs, rel, block, readLsn, i) ==> fs[i].lsn <= b.value)
    decreases |fs|
  {
    if fs != [] {
      var n := |fs| - 1;
      var front := fs[..n];
      BaseIsNewest(front, rel, block, readLsn);
      assert forall i: nat :: i < n ==> (IsBase(fs, rel, block, readLsn, i) <==> IsBase(front, rel, block, readLsn, i));
      assert IsBase(fs, rel, block, readLsn, n) <==> Covers(fs[n], rel, block) && fs[n].lsn <= readLsn;
      var prev := BaseLsn(front, rel, block, readLsn);
      if prev.Some? {
        var i: nat :| IsBase(front, rel, block, readLsn, i) && front[i].lsn == prev.value;
        assert IsBase(fs, rel, block, readLsn, i);
      }
    }
  }

  /**
   The base and the tail that rolls it forward to the read are both retained: the served base is the newest fragment
   at or below the read, and no needed record lies below the floor.
   */
  ghost predicate Served(l: Lake, rel: nat, block: nat, readLsn: Lsn, r: Resolve) {
    && r.Serve? && r.readLsn == readLsn && r.baseLsn <= readLsn
    && (exists i: nat :: IsBase(l.fragments, rel, block, readLsn, i) && l.fragments[i].lsn == r.baseLsn)
    && (forall i: nat :: IsBase(l.fragments, rel, block, readLsn, i) ==> l.fragments[i].lsn <= r.baseLsn)
    && l.tailFloor <= r.baseLsn
  }

  /** A read is served from above the floor if and only if some covering fragment lies between the floor and the read. */
  lemma ServedExactlyWhen(l: Lake, rel: nat, block: nat, readLsn: Lsn)
    ensures Served(l, rel, block, readLsn, ResolveAt(l, rel, block, readLsn))
            <==> exists i: nat :: IsBase(l.fragments, rel, block, readLsn, i) && l.tailFloor <= l.fragments[i].lsn
  {
    BaseIsNewest(l.fragments, rel, block, readLsn);
  }

  // ---- The gate -------------------------------------------------------------------------

  lemma {:induction false} HorizonIsLowest(configured: Lsn, points: seq<Lsn>)
    ensures EffectiveHorizon(configured, points) <= configured
    ensures forall i :: 0 <= i < |points| ==> EffectiveHorizon(configured, points) <= points[i]
    ensures EffectiveHorizon(configured, points) == configured || EffectiveHorizon(configured, points) in points
    decreases |points|
  {
    if points != [] {
      HorizonIsLowest(configured, points[..|points| - 1]);
    }
  }

  /** The gate opens exactly when every block of the range is served at the horizon and at every read above it. */
  lemma GateIsExact(l: Lake, rel: nat, start: nat, end: nat, horizon: Lsn)
    ensures ImageRedundant(l, rel, start, end, horizon)
            <==> forall b, read :: start <= b < end && horizon <= read ==> Served(l, rel, b, read, ResolveAt(l, rel, b, read))
  {
    if ImageRedundant(l, rel, start, end, horizon) {
      forall b, read | start <= b < end && horizon <= read ensures Served(l, rel, b, read, ResolveAt(l, rel, b, read)) {
        assert BlockRedundant(l, rel, b, horizon);
        var i :| 0 <= i < |l.fragments| && Covers(l.fragments[i], rel, b) && l.tailFloor <= l.fragments[i].lsn <= horizon;
        assert IsBase(l.fragments, rel, b, read, i);
        ServedExactlyWhen(l, rel, b, read);
      }
    } else if forall b, read :: start <= b < end && horizon <= read ==> Served(l, rel, b, read, ResolveAt(l, rel, b, read)) {
      forall b | start <= b < end ensures BlockRedundant(l, rel, b, horizon) {
        ServedExactlyWhen(l, rel, b, horizon);
        var i: nat :| IsBase(l.fragments, rel, b, horizon, i) && l.tailFloor <= l.fragments[i].lsn;
      }
    }
  }

  /**
   A redundant image stays unneeded by every branch as well: when the gate opens at the effective horizon, each branch
   read at or above it, on a page the branch never covered, is served from the parent frozen at the branch point.
   */
  lemma GateIsSoundForBranches(l: Lake, configured: Lsn, branches: seq<Branch>, rel: nat, start: nat, end: nat, k: nat, block: nat,
                               read: Lsn)
    requires k < |branches| && branches[k].parent == l && start <= block < end
    requires var points := seq(|branches|, i requires 0 <= i < |branches| => branches[i].branchLsn);
             ImageRedundant(l, rel, start, end, EffectiveHorizon(configured, points)) && EffectiveHorizon(configured, points) <= read
    requires forall i :: 0 <= i < |branches[k].own.fragments| ==> !Covers(branches[k].own.fragments[i], rel, block)
    ensures var at := if read <= branches[k].branchLsn then read else branches[k].branchLsn;
            Served(l, rel, block, at, ResolveOnBranch(branches[k], rel, block, read))
  {
    var points := seq(|branches|, i requires 0 <= i < |branches| => branches[i].branchLsn);
    var horizon := EffectiveHorizon(configured, points);
    HorizonIsLowest(configured, points);
    assert horizon <= points[k];
    GateIsExact(l, rel, start, end, horizon);
    BaseIsNewest(branches[k].own.fragments, rel, block, read);
  }

  /** The branch itself can serve: some own fragment covers the block at the read, or between the own floor and the read. */
  ghost predicate OwnServes(b: Branch, rel: nat, block: nat, read: Lsn) {
    exists i: nat :: IsBase(b.own.fragments, rel, block, read, i)
                     && (b.own.fragments[i].lsn == read || b.own.tailFloor <= b.own.fragments[i].lsn)
  }

  ghost predicate OwnCovers(b: Branch, rel: nat, block: nat) {
    exists i: nat :: i < |b.own.fragments| && Covers(b.own.fragments[i], rel, block)
  }

  /**
   A read above the branch point falls through to the parent exactly when no own fragment covers the block. So a page
   the parent could serve at the branch point is refused if and only if some own fragment covers the block and none of
   them can serve the read: none is at the read itself, nor between the branch's own floor and the read.
   */
  lemma OwnFragmentHides(b: Branch, rel: nat, block: nat, read: Lsn)
    requires b.branchLsn < read
    ensures ResolveOnBranch(b, rel, block, read)
         == if OwnServes(b, rel, block, read) || OwnCovers(b, rel, block) then ResolveAt(b.own, rel, block, read)
            else ResolveAt(b.parent, rel, block, b.branchLsn)
    ensures ResolveAt(b.parent, rel, block, b.branchLsn).Serve? ==>
              (ResolveOnBranch(b, rel, block, read) == BelowHorizon
               <==> OwnCovers(b, rel, block) && !OwnServes(b, rel, block, read))
    ensures ResolveAt(b.parent, rel, block, b.branchLsn).Serve? ==>
              (ResolveOnBranch(b, rel, block, read).Serve? <==> !OwnCovers(b, rel, block) || OwnServes(b, rel, block, read))
  {
    BaseIsNewest(b.own.fragments, rel, block, read);
    var base := BaseLsn(b.own.fragments, rel, block, read);
    if base.Some? {
      var i: nat :| IsBase(b.own.fragments, rel, block, read, i) && b.own.fragments[i].lsn == base.value;
      assert OwnCovers(b, rel, block);
    }
    if j: nat :| j < |b.own.fragments| && Covers(b.own.fragments[j], rel, block) {
      assert 0 <= j < |b.own.fragments| && Covers(b.own.fragments[j], rel, block);
    }
  }

  /** For instance, a page covered only by a newer fragment of the branch, though the parent could serve it. */
  lemma NewerOwnFragmentHides()
    ensures exists b: Branch, rel, block, read ::
              ResolveOnBranch(b, rel, block, read) == BelowHorizon && ResolveAt(b.parent, rel, block, b.branchLsn).Serve?
  {
    var older := Fragment(1, 0, 1, 10);
    var newer := Fragment(1, 0, 1, 50);
    var b := Branch(Lake([older], 0), 20, Lake([newer], 0));
    assert [older][..0] == [] && [newer][..0] == [];
    assert BaseLsn([], 1, 0, 20) == None && BaseLsn([], 1, 0, 30) == None;
    assert BaseLsn([older], 1, 0, 20) == Some(10);
    assert BaseLsn([newer], 1, 0, 30) == None;
    assert b.own.fragments[0] == newer && Covers(newer, 1, 0);
    assert ResolveOnBranch(b, 1, 0, 30) == BelowHorizon;
  }
}
