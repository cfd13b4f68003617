/**
A flush interrupted between the manifest and the removal of the log (db/flush.go).
*/
module CrashPoints {
  import opened Bytes
  import opened Keys
  import opened Versions
  import opened Tables
  import opened Iterators
  import opened Compaction
  import opened AgeOrder
  import opened Engine
  import opened EngineSteps
  import opened EngineRuns
  import opened Recovery
  import opened Durability
  import opened DurableSteps
  import opened DurableRuns
  import M = Manifest

  // ----- inside a flush -----

  /** The state a crash between the manifest and the removal of the log leads to: the memtable is
      back although its table is already listed. */
  function Doubled(s: State, t: Table): State {
    s.(l0 := [t] + s.l0)
  }

  lemma {:induction false} DoubledTables(s: State, d: Disk, t: Table, d': Disk, s': State, keys: iset<Bytes>,
                                         hash: Bytes -> Word32, crc: Bytes -> Word32)
    requires s.immutables != [] && t.id == s.immutables[|s.immutables| - 1].id && t.id < U64
    requires Wf(s, keys, hash) && LevelsOk(Flushed(s, t), hash) && Durable(s, d, crc)
    requires d'.tables == d.tables[t.id := t] && M.Replayed(d'.manifest, M.EMPTY, crc).Ok?
    requires TablesIn(d', crc) == TablesIn(d, crc)[t.id := InfoOf(t, 0)] && Rebuilt(d', |s.levels|, crc, s')
    ensures s'.l0 == [t] + s.l0 && s'.levels == s.levels
  {
    hide Wf, Catalogued, Stored, Counted, Journaled, M.Replayed, LevelRebuilt, LevelsRebuilt, MemsRebuilt, LevelsOk,
      IdsOk, InFlightOk, InfoOf, Falling, TableIds, MemIds;
    var s0 := Flushed(s, t);
    WfParts(s, keys, hash);
    FlushShape(s, t);
    FallingMems(s0);
    FlushCatalogued(s, t, TablesIn(d, crc));
    FlushStored(s, t, d, hash);
    TablesRestored(s0, d', TablesIn(d', crc), hash, s');
  }

  lemma {:induction false} DoubledMems(s: State, d: Disk, d': Disk, s': State, crc: Bytes -> Word32)
    requires Durable(s, d, crc) && d'.logs == d.logs && Rebuilt(d', |s.levels|, crc, s')
    ensures s'.active == s.active && s'.immutables == s.immutables
  {
    hide Catalogued, Stored, Counted, Journals, M.Replayed, LevelRebuilt, LevelsRebuilt, Births, Falling, MemIds,
      TableIds;
    var m := M.Replayed(d'.manifest, M.EMPTY, crc).value;
    var ids :| MemsFrom(d', m, ids, s', crc);
    FallingMems(s);
    MemsRestored(s, d', m, ids, crc, s');
    assert MemsOf(s')[0] == MemsOf(s)[0] && MemsOf(s')[1..] == MemsOf(s)[1..];
  }

  /** Both copies of a flushed memtable are next to each other in search order. */
  lemma {:induction false} DoubledFlat(s: State, t: Table)
    requires s.immutables != [] && t.entries == s.immutables[|s.immutables| - 1].entries
    ensures var k := |s.immutables| - 1;
      var above, below := s.active.entries + MemsFlat(s.immutables[..k]), TablesFlat(Searched(s));
      && Flat(s) == above + (t.entries + below)
      && Flat(Doubled(s, t)) == above + (t.entries + (t.entries + below))
  {
    hide TablesFlat, MemsFlat, Concat, Deeper;
    var k, s' := |s.immutables| - 1, Doubled(s, t);
    assert s.immutables == s.immutables[..k] + [s.immutables[k]];
    MemsFlatConcat(s.immutables[..k], [s.immutables[k]]);
    OneMem(s.immutables[k]);
    assert Searched(s') == [t] + Searched(s);
    TablesFlatConcat([t], Searched(s));
    TablesFlatSingle(t);
  }

  /** A crash after the manifest lists the table and before the log is gone: every read is as
      before, but the versions of the memtable are stored twice. */
  lemma {:induction false} CrashInFlush(s: State, d: Disk, t: Table, d': Disk, s': State, keys: iset<Bytes>,
                                        hash: Bytes -> Word32, crc: Bytes -> Word32)
    requires DurableInv(s, d, keys, hash, crc) && s.immutables != [] && TableValid(t, hash) && t.id < U64
    requires t.id == s.immutables[|s.immutables| - 1].id && t.entries == s.immutables[|s.immutables| - 1].entries
    requires d'.tables == d.tables[t.id := t] && d'.logs == d.logs && M.Replayed(d'.manifest, M.EMPTY, crc).Ok?
    requires TablesIn(d', crc) == TablesIn(d, crc)[t.id := InfoOf(t, 0)] && Rebuilt(d', |s.levels|, crc, s')
    ensures forall u, m: nat :: FirstVisible(Flat(s'), u, m) == FirstVisible(Flat(s), u, m)
    ensures !UniqueKeys(multiset(Flat(s'))) && !Wf(s', keys, hash)
  {
    hide Wf, VersionsDescend, Untorn, Staged, Durable, Rebuilt, Flat, FirstVisible, TablesIn, InfoOf, LevelsOk,
      M.Replayed, TablesFlat, MemsFlat, Searched, SeqNum, UserKey;
    FlushKeeps(s, t, keys, hash);
    WfParts(Flushed(s, t), keys, hash);
    DoubledTables(s, d, t, d', s', keys, hash, crc);
    DoubledMems(s, d, d', s', crc);
    SameFlat(s', Doubled(s, t));
    DoubledFlat(s, t);
    var k := |s.immutables| - 1;
    var above, below := s.active.entries + MemsFlat(s.immutables[..k]), TablesFlat(Searched(s));
    forall u, m: nat ensures FirstVisible(Flat(s'), u, m) == FirstVisible(Flat(s), u, m) {
      ReadTwice(above, t.entries, below, u, m);
    }
    StoredTwice(above, t.entries, below);
    NotWf(s', keys, hash);
  }

  lemma {:induction false} SameFlat(s: State, s': State)
    requires s.active == s'.active && s.immutables == s'.immutables && s.l0 == s'.l0 && s.levels == s'.levels
    ensures Flat(s) == Flat(s')
  {
  }

  lemma {:induction false} NotWf(s: State, keys: iset<Bytes>, hash: Bytes -> Word32)
    requires !UniqueKeys(multiset(Flat(s)))
    ensures !Wf(s, keys, hash)
  {
  }

  lemma {:induction false} ReadTwice(above: seq<Entry>, es: seq<Entry>, below: seq<Entry>, u: Bytes, m: nat)
    ensures FirstVisible(above + (es + (es + below)), u, m) == FirstVisible(above + (es + below), u, m)
  {
    hide FirstVisible;
    FirstVisibleConcat(above, es + (es + below), u, m);
    FirstVisibleConcat(above, es + below, u, m);
    FirstVisibleConcat(es, es + below, u, m);
    FirstVisibleConcat(es, below, u, m);
  }

  lemma {:induction false} StoredTwice(above: seq<Entry>, es: seq<Entry>, below: seq<Entry>)
    requires es != []
    ensures !UniqueKeys(multiset(above + (es + (es + below))))
  {
    var all := above + (es + (es + below));
    assert all[|above|] == es[0] && all[|above| + |es|] == es[0];
    RepeatedElement(all, |above|, |above| + |es|);
    assert es[0] in multiset(all);
  }

  // ----- between the swap and the removal of the log -----

  /** Everything in the memtable has been flushed, and nothing newer: the tables hold all its
      entries, at whatever level, and otherwise only older versions of its user keys. */
  ghost predicate Overtaken(c: State, m: Memtable) {
    var stored := TablesFlat(Searched(c));
    && m.entries != [] && VersionsDescend(m.entries) && (forall x :: x in m.entries ==> x in stored)
    && forall x, y :: x in m.entries && y in stored && UserKeyOf(x) == UserKeyOf(y) && y !in m.entries ==>
      SeqOf(y) < SeqOf(x)
  }

  /** So it is after the flush, and so it stays as compactions only move entries about. */
  lemma {:induction false} FlushedOvertakes(s: State, t: Table, c: State, keys: iset<Bytes>, hash: Bytes -> Word32)
    requires Inv(s, keys, hash) && s.immutables != [] && t.entries == s.immutables[|s.immutables| - 1].entries != []
    requires multiset(TablesFlat(Searched(c))) == multiset(TablesFlat(Searched(Flushed(s, t))))
    ensures Overtaken(c, s.immutables[|s.immutables| - 1])
  {
    hide Wf, VersionsDescend, TablesFlat, MemsFlat, Searched, UserKey, SeqNum;
    var k := |s.immutables| - 1;
    var above, below := s.active.entries + MemsFlat(s.immutables[..k]), TablesFlat(Searched(s));
    DoubledFlat(s, t);
    DescendConcat(above, t.entries + below);
    DescendConcat(t.entries, below);
    FlushedTables(s, t);
    SameBag(TablesFlat(Searched(c)), t.entries + below);
  }

  lemma {:induction false} FlushedTables(s: State, t: Table)
    requires s.immutables != []
    ensures TablesFlat(Searched(Flushed(s, t))) == t.entries + TablesFlat(Searched(s))
  {
    hide TablesFlat, Concat, Deeper;
    assert Searched(Flushed(s, t)) == [t] + Searched(s);
    TablesFlatConcat([t], Searched(s));
    TablesFlatSingle(t);
  }

  lemma {:induction false} SameBag(a: seq<Entry>, b: seq<Entry>)
    requires multiset(a) == multiset(b)
    ensures forall x :: x in a <==> x in b
  {
    assert forall x :: x in a <==> x in multiset(a);
    assert forall x :: x in b <==> x in multiset(b);
  }

  lemma {:induction false} CompactionMoves(s: State, keys: iset<Bytes>, hash: Bytes -> Word32)
    requires Wf(s, keys, hash) && s.inFlight.Some?
    ensures multiset(TablesFlat(Searched(Applied(s)))) == multiset(TablesFlat(Searched(s)))
  {
    hide Wf, TablesFlat, MemsFlat, Searched, ApplyLevels;
    ApplyKeepsVersions(s, keys, hash);
    var s' := Applied(s);
    var mems, a, b := s.active.entries + MemsFlat(s.immutables), TablesFlat(Searched(s)), TablesFlat(Searched(s'));
    assert Flat(s) == mems + a && Flat(s') == mems + b;
    assert multiset(Flat(s)) == multiset(mems) + multiset(a) && multiset(Flat(s')) == multiset(mems) + multiset(b);
    assert multiset(b) == multiset(Flat(s')) - multiset(mems);
  }

  /** A second copy in front of the tables changes no read. */
  lemma {:induction false} OvertakenReads(c: State, m: Memtable, mems: seq<Entry>, u: Bytes, n: nat)
    requires Overtaken(c, m) && VersionsDescend(TablesFlat(Searched(c)))
    ensures var stored := TablesFlat(Searched(c));
      FirstVisible(mems + (m.entries + stored), u, n) == FirstVisible(mems + stored, u, n)
  {
    hide FirstVisible, TablesFlat, Searched, UserKey, SeqNum;
    var stored := TablesFlat(Searched(c));
    FirstVisibleConcat(mems, m.entries + stored, u, n);
    FirstVisibleConcat(mems, stored, u, n);
    FirstVisibleConcat(m.entries, stored, u, n);
    FirstVisibleIsNewest(m.entries, u, n);
    FirstVisibleIsNewest(stored, u, n);
    var v, w := FirstVisible(m.entries, u, n), FirstVisible(stored, u, n);
    if v.Some? {
      assert v.value in stored && Visible(v.value, u, n);
      assert w.Some? && SeqOf(w.value) >= SeqOf(v.value);
      assert w.value in m.entries;
      SameVersion(stored, v.value, w.value);
    }
  }

  lemma {:induction false} SameVersion(es: seq<Entry>, x: Entry, y: Entry)
    requires VersionsDescend(es) && x in es && y in es && UserKeyOf(x) == UserKeyOf(y) && SeqOf(x) == SeqOf(y)
    ensures x == y
  {
    hide UserKey, SeqNum;
    var i :| 0 <= i < |es| && es[i] == x;
    var j :| 0 <= j < |es| && es[j] == y;
  }

  /** A crash after the swap and before the log is gone, whatever compactions were applied between
      the two: the memtable is back behind the others, every read is as before, and the versions of
      the memtable are stored twice, on any level. */
  lemma {:induction false} CrashAfterSwap(c: State, e: Disk, m: Memtable, log: Bytes, d: Disk, s: State,
                                          keys: iset<Bytes>, hash: Bytes -> Word32, crc: Bytes -> Word32)
    requires DurableInv(c, e, keys, hash, crc) && Overtaken(c, m) && Journals(log, m, crc)
    requires m.id !in e.logs && forall x :: x in MemsOf(c) ==> m.id < x.id
    requires d == e.(logs := e.logs[m.id := log]) && Rebuilt(d, |c.levels|, crc, s)
    ensures s.active == c.active && s.immutables == c.immutables + [m] && s.l0 == c.l0 && s.levels == c.levels
    ensures forall u, n: nat :: FirstVisible(Flat(s), u, n) == FirstVisible(Flat(c), u, n)
    ensures !UniqueKeys(multiset(Flat(s)))
  {
    hide Wf, VersionsDescend, Untorn, Staged, Durable, Rebuilt, FirstVisible, LevelsOk, TablesFlat, MemsFlat, Searched,
      SeqNum, UserKey, Journals, Overtaken;
    BackBehind(c, e, m, log, d, s, keys, hash, crc);
    var mems, stored := c.active.entries + MemsFlat(c.immutables), TablesFlat(Searched(c));
    SearchedSame(s, c);
    MemsFlatConcat(c.immutables, [m]);
    OneMem(m);
    assert Flat(s) == mems + (m.entries + stored) && Flat(c) == mems + stored;
    DescendConcat(mems, stored);
    forall u, n: nat ensures FirstVisible(Flat(s), u, n) == FirstVisible(Flat(c), u, n) {
      OvertakenReads(c, m, mems, u, n);
    }
    StoredAgain(mems, m.entries, stored, c, m);
  }

  lemma {:induction false} SearchedSame(s: State, c: State)
    requires s.l0 == c.l0 && s.levels == c.levels
    ensures Searched(s) == Searched(c)
  {
  }

  lemma {:induction false} StoredAgain(mems: seq<Entry>, es: seq<Entry>, stored: seq<Entry>, c: State, m: Memtable)
    requires Overtaken(c, m) && es == m.entries && stored == TablesFlat(Searched(c))
    ensures !UniqueKeys(multiset(mems + (es + stored)))
  {
    hide TablesFlat, Searched, UserKey, SeqNum;
    var all := mems + (es + stored);
    assert es[0] in stored;
    var j :| 0 <= j < |stored| && stored[j] == es[0];
    assert all[|mems|] == es[0] && all[|mems| + |es| + j] == es[0];
    RepeatedElement(all, |mems|, |mems| + |es| + j);
    assert es[0] in multiset(all);
  }

  lemma {:induction false} BackBehind(c: State, e: Disk, m: Memtable, log: Bytes, d: Disk, s: State, keys: iset<Bytes>,
                                      hash: Bytes -> Word32, crc: Bytes -> Word32)
    requires Wf(c, keys, hash) && Durable(c, e, crc) && Journals(log, m, crc)
    requires m.id !in e.logs && forall x :: x in MemsOf(c) ==> m.id < x.id
    requires d == e.(logs := e.logs[m.id := log]) && Rebuilt(d, |c.levels|, crc, s)
    ensures s.active == c.active && s.immutables == c.immutables + [m] && s.l0 == c.l0 && s.levels == c.levels
  {
    hide Wf, Catalogued, Stored, Counted, Journaled, M.Replayed, LevelRebuilt, LevelsRebuilt, Births, Falling, MemIds,
      TableIds, LevelsOk, IdsOk, InFlightOk;
    WfParts(c, keys, hash);
    FallingMems(c);
    var mf := M.Replayed(d.manifest, M.EMPTY, crc).value;
    TablesRestored(c, d, mf.tables, hash, s);
    var x := c.(immutables := c.immutables + [m]);
    MoreJournaled(c, x, m, e.logs, log, crc);
    MoreFalling(c, x, m);
    var ids :| MemsFrom(d, mf, ids, s, crc);
    MemsRestored(x, d, mf, ids, crc, s);
    assert MemsOf(s)[0] == MemsOf(x)[0] && MemsOf(s)[1..] == MemsOf(x)[1..];
  }

  lemma {:induction false} MoreJournaled(c: State, x: State, m: Memtable, logs: map<nat, Bytes>, log: Bytes,
                                         crc: Bytes -> Word32)
    requires Journaled(c, logs, crc) && Journals(log, m, crc) && m.id !in logs
    requires x == c.(immutables := c.immutables + [m])
    ensures Journaled(x, logs[m.id := log], crc)
  {
    hide Journals;
    assert MemsOf(x) == MemsOf(c) + [m];
  }

  lemma {:induction false} MoreFalling(c: State, x: State, m: Memtable)
    requires Falling(MemIds(MemsOf(c))) && x == c.(immutables := c.immutables + [m])
    requires forall y :: y in MemsOf(c) ==> m.id < y.id
    ensures Falling(MemIds(MemsOf(x)))
  {
    assert MemsOf(x) == MemsOf(c) + [m];
    var a, b := MemIds(MemsOf(c)), MemIds(MemsOf(x));
    assert forall i :: 0 <= i < |a| ==> b[i] == a[i] && MemsOf(c)[i] in MemsOf(c);
  }

  // ----- after such a crash -----

  /** While L0 holds a table twice, no compaction of L0 that fits one table can succeed, as the
      table builder refuses an internal key twice; a larger one succeeds only if a table happens
      to end between the two copies of every version. */
  lemma {:induction false} CompactionStuck(state: LevelState, i: nat, j: nat, task: Task, merged: seq<Entry>,
                                           estimate: seq<Entry> -> nat, target: nat)
    requires i < j < |state.l0| && state.l0[i].entries == state.l0[j].entries != []
    requires L0Task(state, task) && Ordered(merged)
    requires multiset(merged) == multiset(TablesFlat(task.inputs + task.overlapping))
    ensures Growing(merged, estimate, target) ==> !AllSorted(Pieces(merged, estimate, target))
    ensures AllSorted(Pieces(merged, estimate, target)) ==> forall e :: e in state.l0[i].entries ==>
      var pieces := Pieces(merged, estimate, target);
      exists p, q :: 0 <= p < q < |pieces| && e in pieces[p] && e in pieces[q]
  {
    hide Ordered, AllSorted, Pieces, Growing, TablesFlat, Spans, Overlapping, UniqueKeys;
    forall e | e in state.l0[i].entries ensures multiset(merged)[e] >= 2 {
      CopiesCounted(task.inputs + task.overlapping, i, j, e);
    }
    var first := state.l0[i].entries[0];
    assert first in state.l0[i].entries;
    if Growing(merged, estimate, target) {
      OnePieceIff(merged, estimate, target);
      NotUnique(merged, first);
    }
    if AllSorted(Pieces(merged, estimate, target)) {
      forall e | e in state.l0[i].entries
        ensures var pieces := Pieces(merged, estimate, target);
          exists p, q :: 0 <= p < q < |pieces| && e in pieces[p] && e in pieces[q]
      {
        CopiesSeparated(merged, e, estimate, target);
      }
    }
  }

  /** The same for a table of L0 and one that the compaction takes along from L1. */
  lemma {:induction false} CopiesStuck(task: Task, i: nat, j: nat, e: Entry, merged: seq<Entry>,
                                       estimate: seq<Entry> -> nat, target: nat)
    requires i < |task.inputs| && j < |task.overlapping| && e in task.inputs[i].entries
    requires e in task.overlapping[j].entries
    requires Merges(merged, task)
    ensures Growing(merged, estimate, target) ==> !AllSorted(Pieces(merged, estimate, target))
    ensures AllSorted(Pieces(merged, estimate, target)) ==>
      var pieces := Pieces(merged, estimate, target);
      exists p, q :: 0 <= p < q < |pieces| && e in pieces[p] && e in pieces[q]
  {
    hide Ordered, AllSorted, Pieces, Growing, TablesFlat, UniqueKeys;
    var all := task.inputs + task.overlapping;
    assert all[i] == task.inputs[i] && all[|task.inputs| + j] == task.overlapping[j];
    CopiesCounted(all, i, |task.inputs| + j, e);
    if Growing(merged, estimate, target) {
      OnePieceIff(merged, estimate, target);
      NotUnique(merged, e);
    }
    if AllSorted(Pieces(merged, estimate, target)) { CopiesSeparated(merged, e, estimate, target); }
  }

  lemma {:induction false} NotUnique(es: seq<Entry>, e: Entry)
    requires multiset(es)[e] >= 2
    ensures !UniqueKeys(multiset(es))
  {
  }

  lemma {:induction false} CopiesCounted(ts: seq<Table>, i: nat, j: nat, e: Entry)
    requires i < j < |ts| && e in ts[i].entries && e in ts[j].entries
    ensures multiset(TablesFlat(ts))[e] >= 2
  {
    hide TablesFlat;
    assert ts == ts[..j] + ts[j..];
    TablesFlatConcat(ts[..j], ts[j..]);
    TableInFlat(ts[..j], i);
    TableInFlat(ts[j..], 0);
    assert e in multiset(TablesFlat(ts[..j])) && e in multiset(TablesFlat(ts[j..]));
  }
}
