/**
A run of the engine from an empty store that ends with a wrong read: one key written twice,
flushed, cut into two tables by an L0 compaction, and torn by the compaction of the first of
them (db/write.go, db/flush.go, db/compact.go, compaction/executor.go, compaction/picker.go).
*/
module TornKeys {
  import opened Optional
  import opened Bytes
  import opened Keys
  import opened Versions
  import opened Bloom
  import opened Tables
  import opened AgeOrder
  import opened Compaction
  import opened Engine
  import opened EngineApply
  import opened EngineSteps
  import opened EngineRuns
  import B = Blocks
  import F = TableFile

  const KEY: Bytes := [1]

  function Version(n: SeqNo, v: Byte): Entry {
    Entry(MakeInternalKey(KEY, n), Data([v]))
  }

  function Newer(): Entry {
    Version(2, 20)
  }

  function Older(): Entry {
    Version(1, 10)
  }

  function Ops(): seq<Op> {
    [Op(KEY, Data([10])), Op(KEY, Data([20]))]
  }

  /** The flushed table, the two the first compaction makes of it, and the one the second makes
      of the first of these. */
  datatype Files = Files(flushed: Table, first: Table, second: Table, moved: Table)

  ghost predicate Made(f: Files, hash: Bytes -> Word32) {
    && f.flushed.id == 1 && f.first.id == 3 && f.second.id == 4 && f.moved.id == 5
    && f.flushed.entries == [Newer(), Older()]
    && f.first.entries == f.moved.entries == [Newer()] && f.second.entries == [Older()]
    && TableValid(f.flushed, hash) && TableValid(f.first, hash) && TableValid(f.second, hash)
    && TableValid(f.moved, hash)
  }

  /** The table builder makes such files. */
  method MakeFiles(hash: Bytes -> Word32, fileSize: seq<Entry> -> nat) returns (f: Files)
    ensures Made(f, hash)
  {
    hide TableValid, MakeInternalKey, BloomFits, Less;
    InOrder();
    SmallFits(1);
    SmallFits(2);
    var flushed := FinishTable(1, [Newer(), Older()], hash, fileSize);
    var first := FinishTable(3, [Newer()], hash, fileSize);
    var second := FinishTable(4, [Older()], hash, fileSize);
    var moved := FinishTable(5, [Newer()], hash, fileSize);
    f := Files(flushed, first, second, moved);
  }

  lemma {:induction false} InOrder()
    ensures Sorted([Newer(), Older()]) && Less(Newer().key, Older().key)
    ensures UserKeyOf(Newer()) == UserKeyOf(Older()) == KEY && SeqOf(Newer()) == 2 && SeqOf(Older()) == 1
  {
    hide MakeInternalKey, Less;
    LessIrreflexive(KEY);
    InternalKeyOrder(KEY, 2, KEY, 1);
    SplitOfMake(KEY, 2);
    SplitOfMake(KEY, 1);
  }

  /** With a target that one entry reaches, the executor cuts between the two versions. */
  lemma {:induction false} CutBetween(estimate: seq<Entry> -> nat, target: nat)
    requires estimate([Newer()]) >= target
    ensures Pieces([Newer(), Older()], estimate, target) == [[Newer()], [Older()]]
  {
    hide Version;
    var es := [Newer(), Older()];
    assert [] + [es[0]] == [Newer()] && es[1..] == [Older()];
    assert [] + [es[1..][0]] == [Older()] && es[1..][1..] == [];
    assert Cut([], [], estimate, target) == [] && Cut([], [Older()], estimate, target) == [[Older()]];
    assert Cut(es[1..], [], estimate, target) == [[Older()]];
  }

  // ----- the run -----

  function Full(): Memtable {
    Memtable(1, [Newer(), Older()], OpsSize(Ops()))
  }

  function FromL0(f: Files): Result {
    Result(Task(0, 1, [f.flushed], [], FirstKey(f.flushed), LastKey(f.flushed)), [f.first, f.second])
  }

  function FromL1(f: Files): Result {
    Result(Task(1, 2, [f.first], [], FirstKey(f.first), LastKey(f.first)), [f.moved])
  }

  function Events(f: Files): (evs: seq<Event>)
    ensures |evs| == 9
  {
    [Wrote(Ops(), true), RotatedMemtable, FlushedMemtable(f.flushed),
     ReservedIds(2), LaunchedCompaction(FromL0(f)), AppliedCompaction,
     ReservedIds(1), LaunchedCompaction(FromL1(f)), AppliedCompaction]
  }

  function Stored(levels: seq<seq<Table>>, l0: seq<Table>, nextMemID: nat, inFlight: Option<Result>): State {
    State(Memtable(2, [], 0), [], l0, levels, nextMemID, 2, inFlight)
  }

  function States(f: Files): (states: seq<State>)
    ensures |states| == 10
  {
    var none: seq<seq<Table>> := [[], [], []];
    var two := [[], [f.first, f.second], []];
    [State(Memtable(1, [], 0), [], [], none, 1, 0, None),
     State(Full(), [], [], none, 1, 2, None),
     State(Memtable(2, [], 0), [Full()], [], none, 2, 2, None),
     Stored(none, [f.flushed], 2, None),
     Stored(none, [f.flushed], 4, None),
     Stored(none, [f.flushed], 4, Some(FromL0(f))),
     Stored(two, [], 4, None),
     Stored(two, [], 5, None),
     Stored(two, [], 5, Some(FromL1(f))),
     Stored([[], [f.second], [f.moved]], [], 5, None)]
  }

  lemma {:induction false} Wrote2()
    ensures WriteOps([], Ops(), 0) == [Newer(), Older()]
  {
    hide Less, MakeInternalKey;
    InOrder();
    assert Ops()[1..] == [Op(KEY, Data([20]))] && Ops()[1..][1..] == [];
    var one := Insert([], Older());
    assert one == [Older()];
    LessAsymmetric(Newer().key, Older().key);
    assert Insert(one, Newer()) == [Newer(), Older()];
  }

  lemma {:induction false} FirstSteps(f: Files, hash: Bytes -> Word32)
    requires Made(f, hash)
    ensures forall i :: 0 <= i < 4 ==> Move(States(f)[i], Events(f)[i], States(f)[i + 1], iset{KEY}, hash)
  {
    hide MakeInternalKey, TableValid, FirstKey, LastKey, OpsSize, WriteOps, Newer, Older;
    Wrote2();
  }

  lemma {:induction false} TwoFlat(a: Table, b: Table)
    ensures TablesFlat([a, b]) == a.entries + b.entries
  {
    hide TablesFlat;
    assert [a, b] == [a] + [b];
    TablesFlatConcat([a], [b]);
    TablesFlatSingle(a);
    TablesFlatSingle(b);
  }

  lemma {:induction false} L0Executed(s: State, f: Files, hash: Bytes -> Word32)
    requires Made(f, hash) && s == Stored([[], [], []], [f.flushed], 4, None)
    ensures Executed(s, FromL0(f), hash)
  {
    hide TableValid, Version, TablesFlat, FirstKey, LastKey, Spans, Numbering, Sorted;
    var r := FromL0(f);
    InOrder();
    TwoFlat(f.first, f.second);
    TablesFlatSingle(f.flushed);
    TableSpans(f.flushed);
    assert r.task.inputs + r.task.overlapping == [f.flushed];
    assert [Newer()] + [Older()] == [Newer(), Older()];
    assert s.l0[0..] == s.l0 && Overlapping([], r.task.minKey, r.task.maxKey) == [];
    L0Numbered(s, f);
  }

  lemma {:induction false} L0Numbered(s: State, f: Files)
    requires f.flushed.id == 1 && f.first.id == 3 && f.second.id == 4 && s == Stored([[], [], []], [f.flushed], 4, None)
    ensures Numbering(s, [f.first, f.second])
  {
    assert TableIds([f.first, f.second]) == [3, 4];
    assert Deeper(s.levels) == [[], []];
    ConcatTwo([], []);
    assert Searched(s) == [f.flushed] && TableIds(Searched(s)) == [1] && MemIds(s.immutables) == [];
    assert NewTables(s) == [];
    assert AllIds(s) == [2, 1];
  }

  lemma {:induction false} ConcatTwo(a: seq<Table>, b: seq<Table>)
    ensures Concat([a, b]) == a + b
  {
    assert [a, b][1..] == [b] && [b][1..] == [];
    assert Concat([b]) == b + Concat([]);
  }

  lemma {:induction false} L0Applied(s: State, f: Files, hash: Bytes -> Word32)
    requires Made(f, hash) && s == Stored([[], [], []], [f.flushed], 4, Some(FromL0(f)))
    ensures Applied(s) == Stored([[], [f.first, f.second], []], [], 4, None)
  {
    hide TableValid, Version, Less, FirstKey, LastKey, SortTables, Obsolete, DropIds;
    var r := FromL0(f);
    assert Obsolete(r.task) == {1} by { OneObsolete(r.task, f.flushed); }
    OneDropped(f.flushed);
    TwoSorted(f, hash);
    assert DropIds([], {1}) + r.newTables == r.newTables;
    assert ApplyLevels(s.levels, r) == [[], r.newTables, []];
  }

  lemma {:induction false} OneObsolete(task: Task, t: Table)
    requires task.inputs == [t] && task.overlapping == []
    ensures Obsolete(task) == {t.id}
  {
    assert task.inputs + task.overlapping == [t];
  }

  lemma {:induction false} OneDropped(t: Table)
    ensures DropIds([t], {t.id}) == [] && DropIds([], {t.id}) == []
  {
    DropIdsAll([t], {t.id});
  }

  lemma {:induction false} TwoSorted(f: Files, hash: Bytes -> Word32)
    requires Made(f, hash)
    ensures SortTables([f.first, f.second]) == [f.first, f.second]
  {
    hide TableValid, Version, Less, SortTables;
    InOrder();
    SortTablesIs([f.first, f.second], [f.first, f.second]);
  }

  lemma {:induction false} L1Executed(s: State, f: Files, hash: Bytes -> Word32)
    requires Made(f, hash) && s == Stored([[], [f.first, f.second], []], [], 5, None)
    ensures Executed(s, FromL1(f), hash)
  {
    hide TableValid, Version, TablesFlat, FirstKey, LastKey, Numbering;
    var r := FromL1(f);
    TablesFlatSingle(f.moved);
    TablesFlatSingle(f.first);
    assert r.task.inputs + r.task.overlapping == [f.first];
    assert Overlapping([], r.task.minKey, r.task.maxKey) == [];
    L1Numbered(s, f);
  }

  lemma {:induction false} L1Numbered(s: State, f: Files)
    requires f.first.id == 3 && f.second.id == 4 && f.moved.id == 5
    requires s == Stored([[], [f.first, f.second], []], [], 5, None)
    ensures Numbering(s, [f.moved])
  {
    assert TableIds([f.moved]) == [5];
    assert Deeper(s.levels) == [[f.first, f.second], []];
    ConcatTwo([f.first, f.second], []);
    assert Searched(s) == [f.first, f.second] && TableIds(Searched(s)) == [3, 4];
    assert MemIds(s.immutables) == [] && NewTables(s) == [];
    assert AllIds(s) == [2, 3, 4];
  }

  lemma {:induction false} L1Applied(s: State, f: Files, hash: Bytes -> Word32)
    requires Made(f, hash) && s == Stored([[], [f.first, f.second], []], [], 5, Some(FromL1(f)))
    ensures Applied(s) == Stored([[], [f.second], [f.moved]], [], 5, None)
  {
    hide TableValid, Version, Less, FirstKey, LastKey, SortTables, Obsolete, DropIds;
    var r := FromL1(f);
    assert Obsolete(r.task) == {3} by { OneObsolete(r.task, f.first); }
    FirstDropped(f.first, f.second);
    assert DropIds([], {3}) + r.newTables == [f.moved] by { OneDropped(f.first); }
    SortTablesIs([f.moved], [f.moved]);
    assert ApplyLevels(s.levels, r) == [[], [f.second], [f.moved]];
  }

  lemma {:induction false} FirstDropped(a: Table, b: Table)
    requires a.id != b.id
    ensures DropIds([a, b], {a.id}) == [b]
  {
    assert [a, b][1..] == [b] && [b][1..] == [];
    assert DropIds([b], {a.id}) == [b];
  }

  /** The engine takes these steps from its initial state; all but the last launch tear no key. */
  lemma {:induction false} TornKeyRun(f: Files, hash: Bytes -> Word32)
    requires Made(f, hash)
    ensures Init(States(f)[0], 3)
    ensures forall i :: 0 <= i < 9 ==> Move(States(f)[i], Events(f)[i], States(f)[i + 1], iset{KEY}, hash)
    ensures forall i :: 0 <= i < 9 && i != 7 ==> Step(States(f)[i], Events(f)[i], States(f)[i + 1], iset{KEY}, hash)
  {
    hide Made, Executed, Applied, TableValid, NoSharedKey, WriteOps, OpsSize, FirstKey, LastKey, Newer, Older;
    FirstSteps(f, hash);
    L0Executed(States(f)[4], f, hash);
    L0Applied(States(f)[5], f, hash);
    L1Executed(States(f)[7], f, hash);
    L1Applied(States(f)[8], f, hash);
    L0AlwaysSafe(States(f)[5]);
    assert States(f)[0].levels == seq(3, _ => []);
  }

  function LevelsAt(f: Files, i: nat): LevelState
    requires i < 10
  {
    LevelState(States(f)[i].l0, States(f)[i].levels)
  }

  /** With these settings, in which L1 may not hold both tables, the picker picks these two tasks,
      and can pick no other. */
  lemma {:induction false} TornKeyPicked(f: Files, hash: Bytes -> Word32, cfg: Config, task: Option<Task>)
    requires Made(f, hash) && cfg.l0Trigger == 1 && cfg.maxLevels == 3
    requires cfg.levelSizeBase < f.first.fileSize + f.second.fileSize
    ensures Picked(LevelsAt(f, 3), cfg, task) <==> task == Some(FromL0(f).task)
    ensures Picked(LevelsAt(f, 6), cfg, task) <==> task == Some(FromL1(f).task)
  {
    hide Made, FirstKey, LastKey, Newer, Older, OpsSize;
    L0Picked(f, hash, cfg, task);
    L1Picked(f, cfg, task);
  }

  lemma {:induction false} L0Picked(f: Files, hash: Bytes -> Word32, cfg: Config, task: Option<Task>)
    requires Made(f, hash) && cfg.l0Trigger == 1
    ensures Picked(LevelState([f.flushed], [[], [], []]), cfg, task) <==> task == Some(FromL0(f).task)
  {
    hide TableValid, FirstKey, LastKey, Newer, Older, Less, FirstOverfull, LevelTask;
    TableSpans(f.flushed);
    assert Overlapping([], FirstKey(f.flushed), LastKey(f.flushed)) == [];
    if task.Some? && task.value.inputs == [f.flushed] && Spans([f.flushed], task.value.minKey, task.value.maxKey) {
      assert task.value.minKey == FirstKey(f.flushed) && task.value.maxKey == LastKey(f.flushed);
      assert Overlapping([], task.value.minKey, task.value.maxKey) == [];
    }
  }

  lemma {:induction false} L1Picked(f: Files, cfg: Config, task: Option<Task>)
    requires cfg.l0Trigger == 1 && cfg.maxLevels == 3 && cfg.levelSizeBase < f.first.fileSize + f.second.fileSize
    ensures Picked(LevelState([], [[], [f.first, f.second], []]), cfg, task) <==> task == Some(FromL1(f).task)
  {
    hide FirstKey, LastKey, L0Task, Overlaps;
    var state := LevelState([], [[], [f.first, f.second], []]);
    L1Bytes(f);
    assert FirstOverfull(state, cfg, 1);
    assert Overlapping([], FirstKey(f.first), LastKey(f.first)) == [];
  }

  lemma {:induction false} L1Bytes(f: Files)
    ensures LevelBytes(LevelState([], [[], [f.first, f.second], []]), 1) == f.first.fileSize + f.second.fileSize
  {
    var ts := [f.first, f.second];
    assert ts[1..] == [f.second] && [f.second][1..] == [];
    assert SumSizes([]) == 0 && SumSizes([f.second]) == f.second.fileSize + SumSizes([]);
    assert SumSizes(ts) == f.first.fileSize + SumSizes([f.second]);
  }

  /** The executor cuts the merged inputs of both tasks into these tables, if a table with the newer
      version alone has reached the target size. */
  lemma {:induction false} TornKeyCut(f: Files, hash: Bytes -> Word32, estimate: seq<Entry> -> nat, target: nat,
                                      run: seq<Entry>)
    requires Made(f, hash) && estimate([Newer()]) >= target
    ensures Merges(run, FromL0(f).task) ==> Pieces(run, estimate, target) == EntryLists(FromL0(f).newTables)
    ensures Merges(run, FromL1(f).task) ==> Pieces(run, estimate, target) == EntryLists(FromL1(f).newTables)
  {
    hide TableValid, Version, TablesFlat, FirstKey, LastKey, Sorted, Ordered, Cut;
    InOrder();
    TablesFlatSingle(f.flushed);
    TablesFlatSingle(f.first);
    assert [f.flushed] + [] == [f.flushed] && [f.first] + [] == [f.first];
    if Merges(run, FromL0(f).task) {
      OnlyOrder(run);
      CutBetween(estimate, target);
    }
    if Merges(run, FromL1(f).task) {
      OneOrder(run);
      CutOne(estimate, target);
    }
  }

  lemma {:induction false} OnlyOrder(run: seq<Entry>)
    requires Ordered(run) && multiset(run) == multiset([Newer(), Older()])
    ensures run == [Newer(), Older()]
  {
    hide Newer, Older, Less;
    InOrder();
    assert |run| == |multiset(run)| == |multiset([Newer(), Older()])| == 2;
    assert run[0] in multiset(run) && run[1] in multiset(run);
    assert run == [run[0], run[1]];
    assert multiset(run) == multiset{run[0], run[1]};
    LessIrreflexive(Older().key);
    LessAsymmetric(Newer().key, Older().key);
    assert LessEq(run[0].key, run[1].key);
  }

  lemma {:induction false} OneOrder(run: seq<Entry>)
    requires multiset(run) == multiset([Newer()])
    ensures run == [Newer()]
  {
    hide Newer;
    assert |run| == |multiset(run)| == |multiset([Newer()])| == 1;
    assert run[0] in multiset(run);
  }

  lemma {:induction false} CutOne(estimate: seq<Entry> -> nat, target: nat)
    requires estimate([Newer()]) >= target
    ensures Pieces([Newer()], estimate, target) == [[Newer()]]
  {
    hide Version;
    assert [] + [[Newer()][0]] == [Newer()] && [Newer()][1..] == [];
    assert Cut([], [], estimate, target) == [];
  }

  /** Such settings exist: with LevelSizeBase 100 the target is 10 bytes, less than the builder has
      collected with one entry, and two files of one entry each are larger than 100. */
  lemma {:induction false} TornKeySizes(bloom: Bytes, crc: Bytes -> Word32)
    ensures |B.EntriesBytes([Newer()])| >= 100 / 10
    ensures |F.FileBytes([[Newer()]], bloom, crc)| + |F.FileBytes([[Older()]], bloom, crc)| > 100
  {
    hide F.FileBytes, B.EntriesBytes, F.BlocksBytes, F.IndexBytes, MakeInternalKey;
    OneEntry(Newer(), bloom, crc);
    OneEntry(Older(), bloom, crc);
  }

  lemma {:induction false} OneEntry(e: Entry, bloom: Bytes, crc: Bytes -> Word32)
    requires e == Newer() || e == Older()
    ensures |B.EntriesBytes([e])| >= 10 && |F.FileBytes([[e]], bloom, crc)| > 50
  {
    hide B.EntryBytes, B.TableBytes, MakeInternalKey, F.FooterBytes, F.IndexBytes, F.Metas;
    assert [e][..0] == [] && [[e]][..0] == [];
    assert |e.key| == 9;
    assert B.EntriesBytes([e]) == B.EntryBytes(e);
    F.FileParts([[e]], bloom, crc);
    assert |F.StoredBlock([e], crc)| >= 19;
  }

  lemma {:induction false} LevelsFlat(s: State, a: seq<Table>, b: seq<Table>)
    requires s == Stored([[], a, b], [], s.nextMemID, s.inFlight)
    ensures Flat(s) == TablesFlat(a + b)
  {
    hide TablesFlat;
    assert Deeper(s.levels) == [a, b];
    ConcatTwo(a, b);
    assert Searched(s) == a + b && MemsFlat(s.immutables) == [];
  }

  lemma {:induction false} FlatBefore(f: Files, hash: Bytes -> Word32)
    requires Made(f, hash)
    ensures Flat(States(f)[8]) == [Newer(), Older()]
  {
    hide TableValid, Version, TablesFlat, FirstKey, LastKey, Flat;
    LevelsFlat(States(f)[8], [f.first, f.second], []);
    TwoFlat(f.first, f.second);
    assert [f.first, f.second] + [] == [f.first, f.second];
    assert [Newer()] + [Older()] == [Newer(), Older()];
  }

  lemma {:induction false} FlatAfter(f: Files, hash: Bytes -> Word32)
    requires Made(f, hash)
    ensures Flat(States(f)[9]) == [Older(), Newer()]
  {
    hide TableValid, Version, TablesFlat, FirstKey, LastKey, Flat;
    LevelsFlat(States(f)[9], [f.second], [f.moved]);
    TwoFlat(f.second, f.moved);
    assert [f.second] + [f.moved] == [f.second, f.moved];
    assert [Older()] + [Newer()] == [Older(), Newer()];
  }

  /** Before its last step the run reads the newer version of the key; after it, the older. */
  lemma {:induction false} TornKeyMisread(f: Files, hash: Bytes -> Word32)
    requires Made(f, hash)
    ensures FirstVisible(Flat(States(f)[8]), KEY, 2) == Some(Newer())
    ensures FirstVisible(Flat(States(f)[9]), KEY, 2) == Some(Older())
  {
    hide Made, Version, Flat;
    FlatBefore(f, hash);
    FlatAfter(f, hash);
    InOrder();
  }
}
