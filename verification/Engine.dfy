/**
The storage engine as a state machine (db/db.go, db/write.go, db/batch.go, db/flush.go,
db/compact.go): memtables, L0 and the deeper levels, changed by writes, rotations, flushes
and two-phase compactions that may interleave.
*/
module Engine {
  import opened Optional
  import opened Bytes
  import opened Keys
  import opened Versions
  import opened Tables
  import opened Iterators
  import opened Compaction
  import opened LevelMerge

  datatype Memtable = Memtable(id: nat, entries: seq<Entry>, size: nat)

  datatype Op = Op(key: Bytes, value: Value)

  /** A compaction that has been executed but not applied yet. */
  datatype Result = Result(task: Task, newTables: seq<Table>)

  datatype State = State(active: Memtable, immutables: seq<Memtable>, l0: seq<Table>, levels: seq<seq<Table>>,
                         nextMemID: nat, nextSeq: nat, inFlight: Option<Result>)

  // ----- search order -----

  function MemsFlat(ms: seq<Memtable>): seq<Entry> {
    if ms == [] then [] else ms[0].entries + MemsFlat(ms[1..])
  }

  function MemLists(ms: seq<Memtable>): seq<seq<Entry>> {
    seq(|ms|, i requires 0 <= i < |ms| => ms[i].entries)
  }

  lemma {:induction false} FlattenMemLists(ms: seq<Memtable>)
    ensures Flatten(MemLists(ms)) == MemsFlat(ms)
  {
    if ms != [] {
      assert MemLists(ms)[1..] == MemLists(ms[1..]);
      FlattenMemLists(ms[1..]);
    }
  }

  function Concat(levels: seq<seq<Table>>): seq<Table> {
    if levels == [] then [] else levels[0] + Concat(levels[1..])
  }

  /** L1 and below; levels[0] is unused. */
  function Deeper(levels: seq<seq<Table>>): seq<seq<Table>> {
    if |levels| > 1 then levels[1..] else []
  }

  /** The tables in the order a read visits them. */
  function Searched(s: State): seq<Table> {
    s.l0 + Concat(Deeper(s.levels))
  }

  /** All entries in the order a read visits them. */
  function Flat(s: State): seq<Entry> {
    s.active.entries + (MemsFlat(s.immutables) + TablesFlat(Searched(s)))
  }

  lemma {:induction false} MemsFlatConcat(a: seq<Memtable>, b: seq<Memtable>)
    ensures MemsFlat(a + b) == MemsFlat(a) + MemsFlat(b)
  {
    if a == [] {
      assert a + b == b;
    } else {
      assert (a + b)[0] == a[0] && (a + b)[1..] == a[1..] + b;
      MemsFlatConcat(a[1..], b);
    }
  }

  lemma {:induction false} ConcatConcat(a: seq<seq<Table>>, b: seq<seq<Table>>)
    ensures Concat(a + b) == Concat(a) + Concat(b)
  {
    if a == [] {
      assert a + b == b;
    } else {
      assert (a + b)[0] == a[0] && (a + b)[1..] == a[1..] + b;
      ConcatConcat(a[1..], b);
    }
  }

  /** A level in its place among the levels. */
  lemma {:induction false} ConcatAt(levels: seq<seq<Table>>, n: nat)
    requires n < |levels|
    ensures Concat(levels) == Concat(levels[..n]) + (levels[n] + Concat(levels[n + 1..]))
  {
    assert levels == levels[..n] + ([levels[n]] + levels[n + 1..]);
    ConcatConcat(levels[..n], [levels[n]] + levels[n + 1..]);
    var tail := [levels[n]] + levels[n + 1..];
    assert tail[0] == levels[n] && tail[1..] == levels[n + 1..];
    assert Concat(tail) == levels[n] + Concat(levels[n + 1..]);
  }

  // ----- steps -----

  function VersionOf(op: Op, s: SeqNo): Entry {
    Entry(MakeInternalKey(op.key, s), op.value)
  }

  /** Put each operation into the memtable under the next sequence number. */
  /** The version a write makes: its key, its number, its value. */
  lemma {:induction false} VersionIs(op: Op, s: SeqNo)
    ensures UserKeyOf(VersionOf(op, s)) == op.key && SeqOf(VersionOf(op, s)) == s && VersionOf(op, s).value == op.value
  {
    SplitOfMake(op.key, s);
  }

  function WriteOps(es: seq<Entry>, ops: seq<Op>, lastSeq: nat): seq<Entry>
    requires lastSeq + |ops| <= MAX_SEQ
    decreases ops
  {
    if ops == [] then es
    else WriteOps(Insert(es, VersionOf(ops[0], lastSeq + 1)), ops[1..], lastSeq + 1)
  }

  /** len(internalKey) + len(value) + 1, as SkipList.Put counts it. */
  function OpSize(op: Op): nat {
    |op.key| + SEQ_SIZE + (if op.value.Data? then |op.value.bytes| else 0) + 1
  }

  function OpsSize(ops: seq<Op>): nat {
    if ops == [] then 0 else OpSize(ops[0]) + OpsSize(ops[1..])
  }

  function Written(s: State, ops: seq<Op>): State
    requires s.nextSeq + |ops| <= MAX_SEQ
  {
    s.(active := Memtable(s.active.id, WriteOps(s.active.entries, ops, s.nextSeq), s.active.size + OpsSize(ops)),
       nextSeq := s.nextSeq + |ops|)
  }

  /** The sequence numbers are used up but the log write failed. */
  function Skipped(s: State, n: nat): State {
    s.(nextSeq := s.nextSeq + n)
  }

  function Rotated(s: State): State {
    s.(immutables := [s.active] + s.immutables,
       active := Memtable(s.nextMemID + 1, [], 0),
       nextMemID := s.nextMemID + 1)
  }

  /** The oldest immutable memtable has become the newest L0 table. */
  function Flushed(s: State, t: Table): State
    requires s.immutables != []
  {
    s.(immutables := s.immutables[..|s.immutables| - 1], l0 := [t] + s.l0)
  }

  /** Identifiers taken for tables that a compaction is writing. */
  function Reserved(s: State, n: nat): State {
    s.(nextMemID := s.nextMemID + n)
  }

  function Launched(s: State, r: Result): State {
    s.(inFlight := Some(r))
  }

  function Obsolete(task: Task): set<nat> {
    IdsOf(task.inputs + task.overlapping)
  }

  function ApplyLevels(levels: seq<seq<Table>>, r: Result): seq<seq<Table>> {
    var obsolete := Obsolete(r.task);
    var n, m := r.task.inputLevel, r.task.outputLevel;
    var thinned := if 0 < n < |levels| then levels[n := DropIds(levels[n], obsolete)] else levels;
    if m < |levels| then thinned[m := SortTables(DropIds(thinned[m], obsolete) + r.newTables)] else thinned
  }

  function Applied(s: State): State
    requires s.inFlight.Some?
  {
    var r := s.inFlight.value;
    s.(l0 := if r.task.inputLevel == 0 then DropIds(s.l0, Obsolete(r.task)) else s.l0,
       levels := ApplyLevels(s.levels, r),
       inFlight := None)
  }

  // ----- well-formed states -----

  function TableIds(ts: seq<Table>): (ids: seq<nat>)
    ensures |ids| == |ts| && forall i :: 0 <= i < |ts| ==> ids[i] == ts[i].id
  {
    seq(|ts|, i requires 0 <= i < |ts| => ts[i].id)
  }

  function MemIds(ms: seq<Memtable>): (ids: seq<nat>)
    ensures |ids| == |ms| && forall i :: 0 <= i < |ms| ==> ids[i] == ms[i].id
  {
    seq(|ms|, i requires 0 <= i < |ms| => ms[i].id)
  }

  lemma {:induction false} TableIdsConcat(a: seq<Table>, b: seq<Table>)
    ensures TableIds(a + b) == TableIds(a) + TableIds(b)
  {
  }

  lemma {:induction false} MemIdsConcat(a: seq<Memtable>, b: seq<Memtable>)
    ensures MemIds(a + b) == MemIds(a) + MemIds(b)
  {
  }

  function NewTables(s: State): seq<Table> {
    if s.inFlight.Some? then s.inFlight.value.newTables else []
  }

  /** Memtables and tables share one namespace. */
  function AllIds(s: State): seq<nat> {
    [s.active.id] + (MemIds(s.immutables) + (TableIds(Searched(s)) + TableIds(NewTables(s))))
  }

  predicate OneEach(ids: seq<nat>) {
    forall i, j :: 0 <= i < j < |ids| ==> ids[i] != ids[j]
  }

  ghost predicate IdsOk(s: State) {
    && OneEach(AllIds(s))
    && forall id :: id in AllIds(s) ==> id <= s.nextMemID
  }

  ghost predicate MemsOk(s: State) {
    && Sorted(s.active.entries)
    && forall m :: m in s.immutables ==> Sorted(m.entries) && m.entries != []
  }

  ghost predicate LevelsOk(s: State, hash: Bytes -> Word32) {
    && TablesValid(Searched(s), hash)
    && (forall n :: 1 <= n < |s.levels| ==> Sorted(TablesFlat(s.levels[n])))
    && (|s.levels| > 0 ==> s.levels[0] == [])
  }

  /** L0 without the tables flushed since the inputs were picked. */
  function PickedL0(s: State, task: Task): seq<Table> {
    if |task.inputs| <= |s.l0| then s.l0[|s.l0| - |task.inputs|..] else []
  }

  /** An executed compaction still fits the state it will be applied to. */
  ghost predicate InFlightOk(s: State, r: Result, hash: Bytes -> Word32) {
    && r.task.outputLevel < |s.levels|
    && (if r.task.inputLevel == 0 then L0Task(LevelState(PickedL0(s, r.task), s.levels), r.task)
        else LevelTask(LevelState(s.l0, s.levels), r.task))
    && TablesValid(r.newTables, hash)
    && Sorted(TablesFlat(r.newTables))
    && multiset(TablesFlat(r.newTables)) == multiset(TablesFlat(r.task.inputs + r.task.overlapping))
  }

  /** Everything but the age order. */
  ghost predicate Wf(s: State, keys: iset<Bytes>, hash: Bytes -> Word32) {
    && SeparableSpace(keys)
    && AllInSpace(Flat(s), keys)
    && UniqueKeys(multiset(Flat(s)))
    && (forall e :: e in Flat(s) ==> SeqOf(e) <= s.nextSeq)
    && s.nextSeq <= MAX_SEQ
    && MemsOk(s)
    && LevelsOk(s, hash)
    && IdsOk(s)
    && (s.inFlight.Some? ==> InFlightOk(s, s.inFlight.value, hash))
  }
}
