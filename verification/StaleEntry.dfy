/**
 A run whose restart would load a ctid that is no longer live: an update logs only its new ctid, so the old one's row
 stays the newest there until something is written or deleted at it.
 */
module StaleEntry {
  import opened Base
  import opened TxBuf
  import opened Sink
  import opened Engine
  import opened Stream
  import opened Protocol
  import opened ChangeLog
  import opened Heap
  import opened HeapProof
  import opened MirrorProof
  import opened LogMirror
  import opened Compaction
  import opened PhysicalRun

  const ONE: Ctid := Ctid(0, 1)
  const TWO: Ctid := Ctid(0, 2)
  const IMG: Image := Image([], Some([]))

  /** One transaction inserts a row, updates it and commits. */
  const MOVE: Change := NewVersion(ONE, TWO, 0, 0, [], (_, _) => Some([]))
  const PHYS: PWal := [PChanges(100, 1, 0, Tuples([(ONE, IMG)])), PChanges(200, 1, 0, One(MOVE)), PCommit(300, 1, [])]
  const WAL: Wal := [Changes(100, 1, 0, [Insert(ONE, IMG)]), Changes(200, 1, 0, [Update(ONE, TWO, IMG)]), Commit(300, 1, [])]

  const BEFORE: Slots := map[Key(0, ONE) := Slot(IMG, 1, {})]
  const AFTER: Slots := map[Key(0, ONE) := Slot(IMG, 1, {1}), Key(0, TWO) := Slot(IMG, 1, {})]

  // ---- The heap -------------------------------------------------------------------------

  lemma Inserted()
    ensures HeapAt(PHYS, 1) == BEFORE && TrueRec(PHYS, 0) == WAL[0]
  {
    var ts := [(ONE, IMG)];
    assert ts[..0] == [] && TupleMap(0, ts) == map[Key(0, ONE) := IMG];
    assert HeapAt(PHYS, 0) == map[];
    assert Written(map[], PHYS[0]) == map[Key(0, ONE) := IMG];
    assert InsertOps(ts) == WAL[0].ops;
  }

  lemma Moves()
    ensures Decode(MOVE, Some(IMG)) == Some(Update(ONE, TWO, IMG))
  {
  }

  lemma Moved()
    ensures HeapAt(PHYS, 2) == AFTER && HeapAt(PHYS, 3) == AFTER && TrueRec(PHYS, 1) == WAL[1] && TrueRec(PHYS, 2) == WAL[2]
  {
    Inserted();
    Moves();
    assert TruePre(BEFORE, PHYS[1]) == Some(IMG);
    assert Written(BEFORE, PHYS[1]) == map[Key(0, TWO) := IMG];
    assert Targets(PHYS[1], Key(0, ONE)) && !Targets(PHYS[1], Key(0, TWO));
    var marks: set<Xid> := {};
    assert marks + {1} == {1};
    assert HeapAfter(BEFORE, PHYS[1]) == AFTER;
    assert Written(AFTER, PHYS[2]) == map[];
    assert HeapAfter(AFTER, PHYS[2]) == AFTER;
  }

  lemma Decoded()
    ensures TrueWal(PHYS) == WAL
  {
    hide TrueRec, HeapAt;
    Inserted();
    Moved();
  }

  lemma Orderly()
    ensures Setup(PHYS, WAL, 1)
  {
    hide TrueRec, HeapAt;
    Decoded();
    Inserted();
    Moves();
    assert DisciplinedAt(PHYS, WAL, 0) by { assert HeapAt(PHYS, 0) == map[] by { NoHeap(); } }
    assert DisciplinedAt(PHYS, WAL, 1) by {
      assert Written(BEFORE, PHYS[1]) == map[Key(0, TWO) := IMG] by { assert TruePre(BEFORE, PHYS[1]) == Some(IMG); }
      assert Lockable(WAL, 1, BEFORE, 1, Key(0, ONE));
    }
  }

  lemma NoHeap()
    ensures HeapAt(PHYS, 0) == map[]
  {
  }

  /** The inserted slot is marked by its own committed transaction; the new one lives. */
  lemma OneIsGone()
    ensures !LiveAt(PHYS, WAL, 3, Key(0, ONE)) && LiveAt(PHYS, WAL, 3, Key(0, TWO)) && IndexOf(WAL, 300) == 3
  {
    hide HeapAt;
    Moved();
    assert Commits(WAL[2], 1);
  }

  // ---- The run --------------------------------------------------------------------------

  const EMPTY: Table := Table(0, map[], Pending([], 0, 0))
  const LOADER: Loader := (_, _) => None

  const ADDED: PendingOp := PendingOp(100, 0, Insert(ONE, IMG))
  const CHANGED: PendingOp := PendingOp(200, 0, Update(ONE, TWO, IMG))
  const OPEN1: OpenMap := map[1 := OpenTx(100, [ADDED], map[Key(0, ONE) := IMG])]
  const OPEN2: OpenMap := map[1 := OpenTx(100, [ADDED, CHANGED], map[Key(0, TWO) := IMG])]
  const ROWS: seq<EmitRow> := [EmitRow(300, 1, false, ONE, Some([])), EmitRow(300, 2, false, TWO, Some([]))]
  const FULL: Table := Table(0, map[TWO := IMG], Pending(ROWS, 300, 2))
  const FLUSHED: Table := Table(0, map[TWO := IMG], Pending([], 300, 2))

  function Reading(pos: nat, open: OpenMap, table: Table, lastCommit: Lsn): Sys {
    Init(1).(run := Up(0, pos, open, [table], lastCommit, Streaming, []))
  }

  const STATES: seq<Sys> := [
    Init(1), Reading(0, map[], EMPTY, 0), Reading(1, OPEN1, EMPTY, 0), Reading(2, OPEN2, EMPTY, 0), Reading(3, map[], FULL, 300),
    Init(1).(run := Up(0, 3, map[], [FULL], 300, Flushing(300, 0), [300])),
    Sys([DeltaLog(ROWS, Some(300), Some(300))], [ROWS], [Some(Origin(0, []))], 0,
        Up(0, 3, map[], [FLUSHED], 300, Flushing(300, 1), [300]))]

  const STEPS: seq<Step> := [
    Start([0], 0, 0, [LOADER]), Read(WAL[0].ops), Read(WAL[1].ops), Read([]), BeginFlush(300), FlushTable]

  /** Step `i` of the run is one the engine may take, and leads to the next state. */
  ghost predicate StepOk(keys: seq<KeyFn>, i: nat)
    requires |keys| == 1 && i < 6
  {
    && Typed(STATES[i], 1) && PhysEnabled(PHYS, 1, keys, STATES[i], STEPS[i]) && Careful(PHYS, 1, STATES[i], STEPS[i])
    && Enabled(WAL, 1, STATES[i], STEPS[i]) && STATES[i + 1] == Apply(WAL, 1, STATES[i], STEPS[i])
  }

  lemma Starts(keys: seq<KeyFn>)
    requires |keys| == 1
    ensures StepOk(keys, 0)
  {
    hide TrueRec, HeapAt;
    Decoded();
    NoHeap();
    var o := Origin(0, []);
    assert CutAt(WAL, 0, 0) && Quiet(WAL, 0, 0) && SnapshotIs(PHYS, WAL, 0, 0, []);
    assert OriginOk(PHYS, WAL, 0, o);
    assert Candidate(Init(1).logs[0], 0) == 0;
    QuietCovers(WAL, 1, 0, 0, 0) by { Orderly(); }
    assert STATES[1] == Apply(WAL, 1, STATES[0], STEPS[0]);
  }

  lemma Buffers()
    ensures AddOps(map[], 1, 100, 0, WAL[0].ops) == OPEN1 && AddOps(OPEN1, 1, 200, 0, WAL[1].ops) == OPEN2
  {
    var a, b := WAL[0].ops, WAL[1].ops;
    assert a[..0] == [] && b[..0] == [];
    assert AddOps(map[], 1, 100, 0, []) == map[] && AddOps(OPEN1, 1, 200, 0, []) == OPEN1;
    assert [] + [ADDED] == [ADDED] && [ADDED] + [CHANGED] == [ADDED, CHANGED];
    assert OverlayAfter(map[], 0, a[0]) == map[Key(0, ONE) := IMG];
    assert OverlayAfter(map[Key(0, ONE) := IMG], 0, b[0]) == map[Key(0, TWO) := IMG];
  }

  lemma ReadsInsert(keys: seq<KeyFn>)
    requires |keys| == 1
    ensures StepOk(keys, 1)
  {
    hide TrueRec, HeapAt, AddOps;
    Decoded();
    Buffers();
    assert DecodeBody(PHYS[0].body, None) == WAL[0].ops;
    assert EngineDecodes(PHYS[0], map[], map[], WAL[0].ops);
  }

  lemma ReadsUpdate(keys: seq<KeyFn>)
    requires |keys| == 1
    ensures StepOk(keys, 2)
  {
    hide TrueRec, HeapAt, AddOps;
    Decoded();
    Buffers();
    Moves();
    assert DecodeBody(PHYS[1].body, Some(IMG)) == WAL[1].ops;
    assert 1 in OPEN1 && Key(0, ONE) in OPEN1[1].overlay;
    assert IsLookup(OPEN1, Key(0, ONE), Some(IMG));
    assert IsPreimage(OPEN1, map[], Key(0, ONE), Some(IMG));
    assert EngineDecodes(PHYS[1], OPEN1, map[], WAL[1].ops);
  }

  lemma Collected()
    ensures StableSort(Collect(OPEN2, [1])) == [ADDED, CHANGED] && Forget(OPEN2, [1]) == map[]
  {
    var ops := [ADDED, CHANGED];
    assert [1][..0] == [] && ops[..1] == [ADDED] && ops[..1][..0] == [];
    assert Collect(OPEN2, [1]) == ops;
    assert SortInto([], [ADDED]) == [ADDED];
  }

  lemma Released()
    ensures Release([EMPTY], 300, [ADDED, CHANGED]) == [FULL]
  {
    hide ApplyOp;
    var ops, mid := [ADDED, CHANGED], Table(0, map[ONE := IMG], Pending([ROWS[0]], 300, 1));
    assert ops[..1] == [ADDED] && [ADDED][..0] == [];
    assert Release([EMPTY], 300, []) == [EMPTY];
    Applied();
    assert Release([EMPTY], 300, [ADDED]) == [mid];
    assert ops[|ops| - 1] == CHANGED;
    assert Release([EMPTY], 300, ops) == [mid][0 := ApplyOp(mid, 300, CHANGED.op)];
  }

  lemma Applied()
    ensures var mid := Table(0, map[ONE := IMG], Pending([ROWS[0]], 300, 1));
            ApplyOp(EMPTY, 300, ADDED.op) == mid && ApplyOp(mid, 300, CHANGED.op) == FULL
  {
    assert [] + [ROWS[0]] == [ROWS[0]] && [ROWS[0]] + [ROWS[1]] == ROWS;
    var m: Mirror := map[];
    assert m[ONE := IMG] == map[ONE := IMG] && (map[ONE := IMG] - {ONE})[TWO := IMG] == map[TWO := IMG];
  }

  lemma ReadsCommit(keys: seq<KeyFn>)
    requires |keys| == 1
    ensures StepOk(keys, 3)
  {
    hide TrueRec, HeapAt, Collect, StableSort, Forget, Release;
    Decoded();
    Collected();
    Released();
    assert [1] + [] == [1];
  }

  lemma Flushes(keys: seq<KeyFn>)
    requires |keys| == 1
    ensures StepOk(keys, 4) && StepOk(keys, 5)
  {
    hide TrueRec, HeapAt;
    Decoded();
    assert IsOldest(map[], None);
    assert STATES[4].run.tables[0].pending.rows == ROWS;
    assert [] + [300] == [300];
    var t := FULL;
    assert FlushedTable(t) == FLUSHED && FlushedLog(t, DeltaLog([], None, None), 300) == DeltaLog(ROWS, Some(300), Some(300)) by {
      assert [] + ROWS == ROWS;
    }
    var s' := Apply(WAL, 1, STATES[5], STEPS[5]);
    assert s'.logs == STATES[6].logs && s'.files == STATES[6].files && s'.origins == STATES[6].origins && s'.run == STATES[6].run;
  }

  lemma OneIsLoaded()
    ensures ONE in LoadRows(ROWS)
  {
    var first := ROWS[..1];
    assert first[..0] == [] && first[0] == ROWS[0];
    assert LatestByCtid(first) == map[ONE := ROWS[0]];
    assert LatestByCtid(ROWS) == map[ONE := ROWS[0], TWO := ROWS[1]];
  }

  /** A run after which the loaded mirror holds a ctid that is not live. */
  lemma StaleRun(keys: seq<KeyFn>)
    requires |keys| == 1
    ensures Setup(PHYS, TrueWal(PHYS), 1) && IsPhysTrace(PHYS, 1, keys, STATES, STEPS) && IsCareful(PHYS, 1, STATES, STEPS)
    ensures var s := STATES[6];
            && s.logs[0].commitLsn == Some(300) && ONE in LoadRows(s.files[0])
            && !RowsExact(PHYS, TrueWal(PHYS), IndexOf(TrueWal(PHYS), 300), 0, LoadRows(s.files[0]))
  {
    hide TrueRec, HeapAt, Setup, StepOk, LoadRows, LiveAt, TrueWal, IndexOf;
    Decoded();
    Orderly();
    OneIsGone();
    OneIsLoaded();
    Starts(keys);
    ReadsInsert(keys);
    ReadsUpdate(keys);
    ReadsCommit(keys);
    Flushes(keys);
    forall i | 0 <= i < 6 ensures StepOk(keys, i) {}
    AllSteps(keys);
  }

  lemma AllSteps(keys: seq<KeyFn>)
    requires |keys| == 1 && TrueWal(PHYS) == WAL && forall i :: 0 <= i < 6 ==> StepOk(keys, i)
    ensures IsPhysTrace(PHYS, 1, keys, STATES, STEPS) && IsCareful(PHYS, 1, STATES, STEPS)
  {
    hide TrueRec, HeapAt, PhysEnabled, Careful, Enabled, Apply, TrueWal, Typed;
    assert |STATES| == 7 && |STEPS| == 6 && STATES[0] == Init(1);
    forall i | 0 <= i < 6
      ensures Typed(STATES[i], 1) && PhysEnabled(PHYS, 1, keys, STATES[i], STEPS[i]) && Careful(PHYS, 1, STATES[i], STEPS[i])
      ensures Enabled(WAL, 1, STATES[i], STEPS[i]) && STATES[i + 1] == Apply(WAL, 1, STATES[i], STEPS[i])
    {
      assert StepOk(keys, i);
    }
  }
}
