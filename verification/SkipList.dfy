/**
The memtable's skip list (memtable/skiplist.go): linked nodes with forward pointers at
several levels. Random heights are an argument of Put: everything holds for any choice.
*/
module SkipLists {
  import opened Optional
  import opened Bytes
  import opened Keys
  import opened Versions

  const MAX_HEIGHT: nat := 12

  /** The size a value is charged at. */
  function EncodedSize(v: Value): nat {
    |DataOf(v)| + 1
  }

  // ----- where forward pointers must lead -----

  /** Given the heights along the bottom level, the next position after p that is present at
      level i, or the end. */
  function NextPos(hs: seq<nat>, p: nat, i: nat): (q: nat)
    requires p < |hs|
    ensures p < q <= |hs|
    ensures q < |hs| ==> hs[q] > i
    ensures forall r :: p < r < q ==> hs[r] <= i
    decreases |hs| - p
  {
    if p + 1 == |hs| || hs[p + 1] > i then p + 1 else NextPos(hs, p + 1, i)
  }

  lemma {:induction false} NextPosUnique(hs: seq<nat>, p: nat, i: nat, q: nat)
    requires p < q <= |hs|
    requires q < |hs| ==> hs[q] > i
    requires forall r :: p < r < q ==> hs[r] <= i
    ensures NextPos(hs, p, i) == q
  {
    var n := NextPos(hs, p, i);
  }

  /** A position after an insertion behind k. */
  function Shift(p: nat, k: nat): nat {
    if p <= k then p else p + 1
  }

  function InsertAt(hs: seq<nat>, k: nat, h: nat): (r: seq<nat>)
    requires k < |hs|
    ensures |r| == |hs| + 1 && r[k + 1] == h
    ensures forall p :: 0 <= p < |hs| ==> r[Shift(p, k)] == hs[p]
  {
    hs[..k + 1] + [h] + hs[k + 1..]
  }

  /** Inserting a node of height h behind position k redirects, at each level below h, the one
      pointer that crosses the gap, and no other. */
  lemma {:induction false} NextPosInsert(hs: seq<nat>, k: nat, h: nat, p: nat, i: nat)
    requires k < |hs| && p < |hs|
    ensures NextPos(InsertAt(hs, k, h), Shift(p, k), i) ==
            if i < h && p <= k < NextPos(hs, p, i) then k + 1 else Shift(NextPos(hs, p, i), k)
  {
    hide NextPos, InsertAt;
    var hs', q := InsertAt(hs, k, h), NextPos(hs, p, i);
    var q' := if i < h && p <= k < q then k + 1 else Shift(q, k);
    forall r | Shift(p, k) < r < q' ensures hs'[r] <= i {
      if r != k + 1 {
        var r0 := if r <= k then r else r - 1;
        assert r == Shift(r0, k) && p < r0 < q;
      }
    }
    NextPosUnique(hs', Shift(p, k), i, q');
  }

  /** The new node inherits the redirected pointers. */
  lemma {:induction false} NextPosOfNew(hs: seq<nat>, k: nat, h: nat, p: nat, i: nat)
    requires p <= k < |hs| && k < NextPos(hs, p, i)
    ensures NextPos(InsertAt(hs, k, h), k + 1, i) == NextPos(hs, p, i) + 1
  {
    hide NextPos, InsertAt;
    var hs', q := InsertAt(hs, k, h), NextPos(hs, p, i);
    forall r | k + 1 < r < q + 1 ensures hs'[r] <= i {
      assert r == Shift(r - 1, k);
    }
    assert q < |hs| ==> Shift(q, k) == q + 1;
    NextPosUnique(hs', k + 1, i, q + 1);
  }

  class Node {
    const key: Bytes
    const value: Value
    var next: seq<Node?>

    constructor (key: Bytes, value: Value, height: nat)
      ensures this.key == key && this.value == value && next == seq(height, _ => null)
    {
      this.key, this.value, this.next := key, value, seq(height, _ => null);
    }
  }

  /** Where the pointer of position p at level i must lead. */
  ghost function TargetOf(all: seq<Node>, hs: seq<nat>, p: nat, i: nat): Node?
    requires p < |hs| == |all|
  {
    var q := NextPos(hs, p, i);
    if q < |hs| then all[q] else null
  }

  /** The pointers of all nodes, listed along the bottom level, are as they must be. */
  ghost predicate LinksOk(all: seq<Node>, hs: seq<nat>, links: seq<seq<Node?>>) {
    && |all| == |hs| == |links|
    && forall p :: 0 <= p < |hs| ==> |links[p]| == hs[p] && LinkRow(all, hs, p, links[p])
  }

  ghost predicate LinkRow(all: seq<Node>, hs: seq<nat>, p: nat, row: seq<Node?>)
    requires p < |hs| == |all|
  {
    forall i :: 0 <= i < |row| ==> row[i] == TargetOf(all, hs, p, i)
  }

  /** p is the last position at or before k that is present at level i. */
  predicate Before(hs: seq<nat>, p: nat, i: nat, k: nat) {
    p <= k < |hs| && i < hs[p] && k < NextPos(hs, p, i)
  }

  /** The predecessors of the gap behind k at the levels below h. */
  predicate Gap(hs: seq<nat>, at: seq<nat>, h: nat, k: nat) {
    |at| >= h && forall i {:trigger at[i]} :: 0 <= i < h ==> Before(hs, at[i], i, k)
  }

  lemma {:induction false} BeforeUnique(hs: seq<nat>, p: nat, q: nat, i: nat, k: nat)
    requires Before(hs, p, i, k) && Before(hs, q, i, k)
    ensures p == q
  {
  }

  lemma {:induction false} GapBelow(hs: seq<nat>, at: seq<nat>, height: nat, h: nat, k: nat)
    requires Gap(hs, at, height, k) && h <= height
    ensures Gap(hs, at, h, k)
  {
  }

  function Spliced<T>(s: seq<T>, k: nat, x: T): seq<T>
    requires k < |s|
  {
    s[..k + 1] + [x] + s[k + 1..]
  }

  /** The pointers of position p after the first h predecessors were redirected to the new node. */
  ghost predicate Redirected(at: seq<nat>, h: nat, p: nat, node: Node, row: seq<Node?>, row': seq<Node?>)
    requires h <= |at|
  {
    |row'| == |row| && forall i :: 0 <= i < |row| ==> row'[i] == if i < h && at[i] == p then node else row[i]
  }

  ghost predicate AllRedirected(at: seq<nat>, h: nat, node: Node, links: seq<seq<Node?>>, links': seq<seq<Node?>>)
    requires h <= |at|
  {
    |links'| == |links| && forall p :: 0 <= p < |links| ==> Redirected(at, h, p, node, links[p], links'[p])
  }

  lemma {:induction false} RedirectedNone(at: seq<nat>, node: Node, links: seq<seq<Node?>>, row: seq<Node?>)
    ensures AllRedirected(at, 0, node, links, links) && Inherited(at, 0, links, row)
  {
  }

  /** The new node's pointers below level i are those its predecessors had. */
  ghost predicate Inherited(at: seq<nat>, i: nat, links: seq<seq<Node?>>, row: seq<Node?>) {
    i <= |at| && i <= |row| &&
    forall j :: 0 <= j < i ==> at[j] < |links| && j < |links[at[j]]| && row[j] == links[at[j]][j]
  }

  lemma {:induction false} RedirectedNext(hs: seq<nat>, at: seq<nat>, h: nat, i: nat, k: nat, node: Node,
                                          links: seq<seq<Node?>>, rows: seq<seq<Node?>>, row: seq<Node?>)
    requires Gap(hs, at, h, k) && i < h == |row| && |links| == |hs|
    requires forall p :: 0 <= p < |hs| ==> |links[p]| == hs[p]
    requires AllRedirected(at, i, node, links, rows) && Inherited(at, i, links, row)
    ensures at[i] < |rows| == |links| && i < |rows[at[i]]| == |links[at[i]]| && rows[at[i]][i] == links[at[i]][i]
    ensures AllRedirected(at, i + 1, node, links, rows[at[i] := rows[at[i]][i := node]])
    ensures Inherited(at, i + 1, links, row[i := links[at[i]][i]])
  {
    hide NextPos;
    var q := at[i];
    assert Before(hs, q, i, k);
    assert Redirected(at, i, q, node, links[q], rows[q]);
  }

  /** One row of pointers after the insertion. */
  lemma {:induction false} RelinkRow(all: seq<Node>, hs: seq<nat>, k: nat, node: Node, h: nat, at: seq<nat>, p: nat,
                                     old_: seq<Node?>, new_: seq<Node?>)
    requires k < |hs| == |all| && p < |hs| && Gap(hs, at, h, k)
    requires |old_| == hs[p] && LinkRow(all, hs, p, old_) && Redirected(at, h, p, node, old_, new_)
    ensures LinkRow(Spliced(all, k, node), InsertAt(hs, k, h), Shift(p, k), new_)
  {
    hide NextPos;
    var all', hs' := Spliced(all, k, node), InsertAt(hs, k, h);
    forall i | 0 <= i < |new_| ensures new_[i] == TargetOf(all', hs', Shift(p, k), i) {
      NextPosInsert(hs, k, h, p, i);
      assert old_[i] == TargetOf(all, hs, p, i);
      if i < h && Before(hs, p, i, k) { BeforeUnique(hs, p, at[i], i, k); }
    }
  }

  lemma {:induction false} NewRow(all: seq<Node>, hs: seq<nat>, k: nat, node: Node, h: nat, at: seq<nat>,
                                  links: seq<seq<Node?>>, row: seq<Node?>)
    requires k < |hs| && Gap(hs, at, h, k) && LinksOk(all, hs, links)
    requires |row| == h && Inherited(at, h, links, row)
    ensures LinkRow(Spliced(all, k, node), InsertAt(hs, k, h), k + 1, row)
  {
    hide NextPos;
    var all', hs' := Spliced(all, k, node), InsertAt(hs, k, h);
    forall i | 0 <= i < |row| ensures row[i] == TargetOf(all', hs', k + 1, i) {
      NextPosOfNew(hs, k, h, at[i], i);
      assert LinkRow(all, hs, at[i], links[at[i]]);
      assert links[at[i]][i] == TargetOf(all, hs, at[i], i);
    }
  }

  /** Splicing a node in at the recorded predecessors keeps every level linked. */
  lemma {:induction false} Relinked(all: seq<Node>, hs: seq<nat>, k: nat, node: Node, h: nat, at: seq<nat>,
                                    links: seq<seq<Node?>>, row: seq<Node?>, links': seq<seq<Node?>>)
    requires k < |hs| && Gap(hs, at, h, k) && LinksOk(all, hs, links)
    requires |row| == h && Inherited(at, h, links, row)
    requires AllRedirected(at, h, node, links, links')
    ensures |links'| == |hs| && LinksOk(Spliced(all, k, node), InsertAt(hs, k, h), Spliced(links', k, row))
  {
    hide NextPos, LinkRow, Gap;
    var all', hs', new_ := Spliced(all, k, node), InsertAt(hs, k, h), Spliced(links', k, row);
    forall p' | 0 <= p' < |hs'| ensures |new_[p']| == hs'[p'] && LinkRow(all', hs', p', new_[p']) {
      if p' == k + 1 {
        NewRow(all, hs, k, node, h, at, links, row);
      } else {
        var p := if p' <= k then p' else p' - 1;
        assert p' == Shift(p, k) && new_[p'] == links'[p];
        RelinkRow(all, hs, k, node, h, at, p, links[p], links'[p]);
      }
    }
  }

  /** The forward pointers of a list of nodes. */
  ghost predicate Rows(all: seq<Node>, rows: seq<seq<Node?>>)
    reads all
  {
    |rows| == |all| && forall p :: 0 <= p < |all| ==> all[p].next == rows[p]
  }

  /** The key-value pairs of a list of nodes. */
  function EntriesOf(nodes: seq<Node>): (es: seq<Entry>)
    ensures |es| == |nodes| && forall i :: 0 <= i < |nodes| ==> es[i] == Entry(nodes[i].key, nodes[i].value)
  {
    seq(|nodes|, i requires 0 <= i < |nodes| => Entry(nodes[i].key, nodes[i].value))
  }

  ghost predicate Distinct(all: seq<Node>) {
    forall p, q :: 0 <= p < q < |all| ==> all[p] != all[q]
  }

  lemma {:induction false} SplicedTail(head: Node, nodes: seq<Node>, k: nat, node: Node)
    requires k <= |nodes|
    ensures var all := Spliced([head] + nodes, k, node);
      && [head] + all[1..] == all && ([head] + nodes)[1..] == nodes
      && forall n :: n in all <==> n == head || n in nodes || n == node
  {
  }

  lemma {:induction false} DistinctSpliced(all: seq<Node>, k: nat, node: Node)
    requires k < |all| && Distinct(all) && node !in all
    ensures Distinct(Spliced(all, k, node))
  {
  }

  lemma {:induction false} EntriesSpliced(all: seq<Node>, k: nat, node: Node)
    requires k < |all|
    ensures var es := EntriesOf(all[1..]);
      EntriesOf(Spliced(all, k, node)[1..]) == es[..k] + [Entry(node.key, node.value)] + es[k..]
  {
    assert Spliced(all, k, node)[1..] == all[1..][..k] + [node] + all[1..][k..];
  }

  lemma {:induction false} RowsSpliced(all: seq<Node>, rows: seq<seq<Node?>>, k: nat, node: Node,
                                       rows': seq<seq<Node?>>)
    requires k < |all| && Rows(all, rows) && Rows(Spliced(all, k, node), rows')
    ensures rows' == Spliced(rows, k, node.next)
  {
    var all' := Spliced(all, k, node);
    forall p | 0 <= p < |all'| ensures rows'[p] == Spliced(rows, k, node.next)[p] {
      assert all'[p].next == rows'[p];
    }
  }

  /** One pointer swing. */
  method Hook(x: Node, node: Node, i: nat, ghost all: seq<Node>, ghost p: nat, ghost rows: seq<seq<Node?>>)
    requires Rows(all, rows) && Distinct(all) && node !in all
    requires p < |all| && x == all[p] && i < |rows[p]| && i < |node.next|
    modifies x, node
    ensures node.next == old(node.next)[i := rows[p][i]]
    ensures Rows(all, rows[p := rows[p][i := node]])
  {
    node.next := node.next[i := x.next[i]];
    x.next := x.next[i := node];
  }

  /** The new node takes over its predecessors' pointers, level by level. */
  method Splice(prev: seq<Node>, ghost at: seq<nat>, ghost k: nat, node: Node, h: nat,
                ghost all: seq<Node>, ghost hs: seq<nat>, ghost links: seq<seq<Node?>>)
    returns (ghost rows: seq<seq<Node?>>)
    requires Rows(all, links) && Distinct(all) && LinksOk(all, hs, links)
    requires k < |hs| && Gap(hs, at, h, k) && |node.next| == h && node !in all
    requires h <= |prev| && forall i :: 0 <= i < h ==> prev[i] == all[at[i]]
    modifies all, node
    ensures |rows| == |hs| && Rows(all, rows)
    ensures LinksOk(Spliced(all, k, node), InsertAt(hs, k, h), Spliced(rows, k, node.next))
  {
    hide NextPos, LinkRow, AllRedirected, Before, Rows, Distinct, Inherited;
    rows := links;
    ghost var row := node.next;
    RedirectedNone(at, node, links, row);
    var i := 0;
    while i < h
      invariant 0 <= i <= h && Rows(all, rows) && node.next == row && |row| == h
      invariant Inherited(at, i, links, row) && AllRedirected(at, i, node, links, rows)
    {
      RedirectedNext(hs, at, h, i, k, node, links, rows, row);
      ghost var p := at[i];
      Hook(prev[i], node, i, all, p, rows);
      row, rows := row[i := links[p][i]], rows[p := rows[p][i := node]];
      i := i + 1;
    }
    Relinked(all, hs, k, node, h, at, links, row, rows);
  }

  class SkipList {
    const head: Node
    var height: nat
    var size: nat
    var dataSize: nat
    ghost var nodes: seq<Node>     // the bottom level, head excluded
    ghost var hs: seq<nat>         // heights, head first

    /** The bottom level, head first. */
    ghost function All(): seq<Node>
      reads this
    {
      [head] + nodes
    }

    ghost function Contents(): seq<Entry>
      reads this
    {
      EntriesOf(nodes)
    }

    ghost predicate Shape()
      reads this
    {
      && |hs| == |nodes| + 1
      && hs[0] == MAX_HEIGHT && 1 <= height <= MAX_HEIGHT
      && (forall p :: 0 < p < |hs| ==> 1 <= hs[p] <= height)
      && Distinct(All())
    }

    /** Every pointer at every level leads to the next node of that level: each level is a
        sub-list of the one below. */
    ghost predicate Linked()
      requires Shape()
      reads this, All()
    {
      LinksOk(All(), hs, Links())
    }

    ghost function Links(): (links: seq<seq<Node?>>)
      reads this, All()
      ensures |links| == |All()| && forall p :: 0 <= p < |All()| ==> links[p] == All()[p].next
    {
      seq(|All()|, p requires 0 <= p < |All()| reads this, All() => All()[p].next)
    }

    ghost predicate Valid()
      reads this, All()
    {
      Shape() && Linked() && Ordered(Contents()) && size == |nodes|
    }

    constructor ()
      ensures Valid() && Contents() == [] && size == 0 && dataSize == 0
      ensures fresh(head)
    {
      head := new Node([], Tombstone, MAX_HEIGHT);
      height, size, dataSize := 1, 0, 0;
      nodes, hs := [], [MAX_HEIGHT];
    }

    /** The first node whose key is at or above the target, and its predecessor at each level. */
    method FindGreaterOrEqual(target: Bytes) returns (found: Node?, prev: seq<Node>, ghost at: seq<nat>)
      requires Valid()
      ensures |prev| == MAX_HEIGHT && |at| == MAX_HEIGHT
      ensures var k := LowerBound(Contents(), target);
        && found == (if k < |nodes| then nodes[k] else null)
        && Gap(hs, at, height, k) && forall i :: 0 <= i < height ==> prev[i] == All()[at[i]]
    {
      hide Less, NextPos, LowerBound, Ordered, LinksOk, Distinct, Before, TargetOf;
      ghost var k := LowerBound(Contents(), target);
      prev, at := seq(MAX_HEIGHT, _ => head), seq(MAX_HEIGHT, _ => 0);
      var x := head;
      ghost var p: nat := 0;
      var i := height;
      while i > 0
        invariant 0 <= i <= height && |prev| == MAX_HEIGHT && |at| == MAX_HEIGHT
        invariant p <= k && x == All()[p] && hs[p] >= i && (i < height ==> hs[p] > i)
        invariant forall j :: i <= j < height ==> at[j] <= k && Before(hs, at[j], j, k) && prev[j] == All()[at[j]]
        invariant i == 0 ==> p == k
      {
        i := i - 1;
        x, p := Advance(x, p, i, target);
        prev, at := prev[i := x], at[i := p];
      }
      BottomLink(p);
      found := x.next[0];
    }

    /** The walk along one level: as far as keys stay below the target. */
    method Advance(from: Node, ghost start: nat, i: nat, target: Bytes) returns (x: Node, ghost p: nat)
      requires Valid() && start <= LowerBound(Contents(), target) && from == All()[start] && i < hs[start]
      ensures p <= LowerBound(Contents(), target) && x == All()[p] && i < hs[p]
      ensures Before(hs, p, i, LowerBound(Contents(), target))
      ensures i == 0 ==> p == LowerBound(Contents(), target)
    {
      hide Less, NextPos, LowerBound, Ordered, LinksOk;
      ghost var k := LowerBound(Contents(), target);
      x, p := from, start;
      LinkAt(p, i);
      while x.next[i] != null && Less(x.next[i].key, target)
        invariant p <= k && x == All()[p] && |x.next| == hs[p] > i
        decreases |hs| - p
      {
        p := StepAt(p, i, k, target);
        x := x.next[i];
        LinkAt(p, i);
      }
      StopAt(p, i, k, target);
    }

    /** Insertion with a node of any height puts the pair before the first entry not below its key. */
    method Put(internalKey: Bytes, value: Value, h: nat)
      requires Valid() && 1 <= h <= MAX_HEIGHT
      modifies this, All()
      ensures Valid() && Contents() == Insert(old(Contents()), Entry(internalKey, value))
      ensures size == old(size) + 1
      ensures dataSize == old(dataSize) + |internalKey| + 1 + (if value.Data? then |value.bytes| else 0)
      ensures forall n :: n in All() ==> n in old(All()) || fresh(n)
    {
      hide NextPos, LinksOk, Ordered, LowerBound, Gap, Rows, Distinct, Insert, EntriesOf;
      var _, prev, at := FindGreaterOrEqual(internalKey);
      ghost var k := LowerBound(Contents(), internalKey);
      if h > height {
        prev, at := Raise(prev, at, h, k);
      } else {
        GapBelow(hs, at, height, h, k);
      }
      var node := new Node(internalKey, value, h);
      Link(prev, at, node, h);
    }

    /** The pointer updates and the accounting of an insertion. */
    method Link(prev: seq<Node>, ghost at: seq<nat>, node: Node, h: nat)
      requires Valid() && 1 <= h <= height && |node.next| == h && node !in All()
      requires Gap(hs, at, h, LowerBound(Contents(), node.key))
      requires h <= |prev| && forall i :: 0 <= i < h ==> prev[i] == All()[at[i]]
      modifies this`nodes, this`hs, this`size, this`dataSize, All(), node
      ensures Valid() && Contents() == Insert(old(Contents()), Entry(node.key, node.value))
      ensures size == old(size) + 1 && dataSize == old(dataSize) + |node.key| + EncodedSize(node.value)
      ensures forall n :: n in All() ==> n in old(All()) || n == node
    {
      hide NextPos, LinksOk, Ordered, LowerBound, Gap, Rows, Distinct, Insert, EntriesOf, Links;
      ghost var k, all, hs0, es := LowerBound(Contents(), node.key), All(), hs, Contents();
      LinksAreRows();
      ghost var rows := Splice(prev, at, k, node, h, all, hs, Links());
      SplicedTail(head, nodes, k, node);
      nodes, hs := Spliced(all, k, node)[1..], InsertAt(hs, k, h);
      size := size + 1;
      dataSize := dataSize + |node.key| + EncodedSize(node.value);
      StillValid(all, hs0, k, node, h, rows, es);
    }

    lemma {:induction false} LinksAreRows()
      ensures Rows(All(), Links())
    {
    }

    /** The list with the node spliced in at its place is well formed again. */
    lemma {:induction false} StillValid(all: seq<Node>, hs0: seq<nat>, k: nat, node: Node, h: nat,
                                        rows: seq<seq<Node?>>, es: seq<Entry>)
      requires k < |all| == |hs0| == |rows| && Distinct(all) && node !in all && Rows(all, rows)
      requires all[0] == head && hs0[0] == MAX_HEIGHT && 1 <= h <= height <= MAX_HEIGHT
      requires forall p :: 0 < p < |hs0| ==> 1 <= hs0[p] <= height
      requires All() == Spliced(all, k, node) && hs == InsertAt(hs0, k, h)
      requires LinksOk(All(), hs, Spliced(rows, k, node.next))
      requires es == EntriesOf(all[1..]) && Ordered(es) && k == LowerBound(es, node.key)
      ensures Shape() && Linked() && Ordered(Contents()) && Contents() == Insert(es, Entry(node.key, node.value))
    {
      hide NextPos, LinksOk, Ordered, LowerBound, EntriesOf, Rows, Distinct, Links;
      assert nodes == All()[1..];
      EntriesSpliced(all, k, node);
      InsertKeepsOrder(es, Entry(node.key, node.value));
      DistinctSpliced(all, k, node);
      assert Links() == Spliced(rows, k, node.next) by { LinksAreRows(); RowsSpliced(all, rows, k, node, Links()); }
    }

    /** Levels not in use yet: the head precedes every gap. */
    method Raise(prev0: seq<Node>, ghost at0: seq<nat>, h: nat, ghost k: nat)
      returns (prev: seq<Node>, ghost at: seq<nat>)
      requires Valid() && height <= h <= MAX_HEIGHT && k < |hs|
      requires |prev0| == |at0| == MAX_HEIGHT && Gap(hs, at0, height, k)
      requires forall i :: 0 <= i < height ==> prev0[i] == All()[at0[i]]
      modifies this`height
      ensures Valid() && height == h
      ensures |prev| == |at| == MAX_HEIGHT && Gap(hs, at, h, k)
      ensures forall i :: 0 <= i < h ==> prev[i] == All()[at[i]]
    {
      hide NextPos, LinksOk, Ordered;
      ghost var all, links := All(), Links();
      prev, at := prev0, at0;
      var i := height;
      while i < h
        invariant old(height) <= i <= h && |prev| == |at| == MAX_HEIGHT && height == old(height)
        invariant Gap(hs, at, i, k) && forall j :: 0 <= j < i ==> prev[j] == All()[at[j]]
      {
        NextPosUnique(hs, 0, i, |hs|);
        prev, at := prev[i := head], at[i := 0];
        i := i + 1;
      }
      height := h;
      assert All() == all && Links() == links;
    }

    /** The newest version of the user key visible at maxSeq, for any key space whose internal
        keys separate. */
    method GetAt(userKey: Bytes, maxSeq: SeqNo, ghost keys: iset<Bytes>) returns (r: Option<Value>)
      requires Valid() && InSpace(Contents(), keys) && SeparableSpace(keys)
      ensures r == Found(FirstVisible(Contents(), userKey, maxSeq))
      ensures Answers(Elements(Contents()), userKey, maxSeq, r)
    {
      OrderedReads(Contents(), keys, userKey, maxSeq);
      hide NextPos, LinksOk, Ordered, LowerBound, Less, FirstVisible, InSpace, UserKey, SeqNum, MakeSearchKey, Gap,
        Linked, Distinct;
      var node, _, _ := FindGreaterOrEqual(MakeSearchKey(userKey));
      ghost var p := LowerBound(Contents(), MakeSearchKey(userKey));
      SeekAndWalk(Contents(), keys, userKey, maxSeq);
      while node != null && UserKey(node.key) == userKey
        invariant 0 <= p <= |nodes| && node == if p < |nodes| then nodes[p] else null
        invariant WalkVersions(Contents(), p, userKey, maxSeq) == FirstVisible(Contents(), userKey, maxSeq)
        decreases |nodes| - p
      {
        if SeqNum(node.key) <= maxSeq {
          return Some(node.value);
        }
        BottomLink(p + 1);
        node, p := node.next[0], p + 1;
      }
      r := None;
    }

    /** The newest version of the user key, with its sequence number. */
    method GetNewest(userKey: Bytes, ghost keys: iset<Bytes>) returns (r: Option<(Value, SeqNo)>)
      requires Valid() && InSpace(Contents(), keys) && SeparableSpace(keys)
      ensures var v := FirstVisible(Contents(), userKey, MAX_SEQ);
        r == if v.Some? then Some((v.value.value, SeqOf(v.value))) else None
      ensures r.Some? ==>
        exists e :: IsNewest(Elements(Contents()), userKey, MAX_SEQ, e) && r.value == (e.value, SeqOf(e))
      ensures r.None? ==> forall e :: e in Contents() ==> UserKeyOf(e) != userKey
    {
      hide NextPos, LinksOk, Ordered, LowerBound, Less, FirstVisible, InSpace, UserKey, SeqNum, MakeSearchKey, Gap,
        Linked, Distinct;
      var node, _, _ := FindGreaterOrEqual(MakeSearchKey(userKey));
      SeekAndWalk(Contents(), keys, userKey, MAX_SEQ);
      OrderedReads(Contents(), keys, userKey, MAX_SEQ);
      if node != null && UserKey(node.key) == userKey {
        return Some((node.value, SeqNum(node.key)));
      }
      r := None;
    }

    lemma {:induction false} LinkAt(p: nat, i: nat)
      requires Shape() && Linked() && p < |hs| && i < hs[p]
      ensures |All()[p].next| == hs[p] && All()[p].next[i] == TargetOf(All(), hs, p, i)
    {
      hide NextPos;
      assert Links()[p] == All()[p].next;
    }

    /** The bottom level visits every node. */
    lemma {:induction false} BottomLink(p: nat)
      requires Valid() && p < |All()|
      ensures |All()[p].next| > 0 && All()[p].next[0] == if p < |nodes| then nodes[p] else null
    {
      hide NextPos, LinksOk, Ordered, Distinct;
      LinkAt(p, 0);
      BottomNext(p);
    }

    lemma {:induction false} BottomNext(p: nat)
      requires Shape() && p < |hs|
      ensures NextPos(hs, p, 0) == p + 1
    {
      NextPosUnique(hs, p, 0, p + 1);
    }

    /** Following a pointer to a smaller key stays at or before the lower bound. */
    lemma {:induction false} StepAt(p: nat, i: nat, k: nat, target: Bytes) returns (q: nat)
      requires Valid() && k == LowerBound(Contents(), target)
      requires p <= k && i < hs[p] && All()[p].next[i] != null && Less(All()[p].next[i].key, target)
      ensures p < q <= k && All()[q] == All()[p].next[i] && hs[q] > i
    {
      hide Less, Ordered, LowerBound;
      q := NextPos(hs, p, i);
      LinkAt(p, i);
      BelowBound(Contents(), target, q - 1);
    }

    /** Where the search stops at a level, the next node there is past the lower bound. */
    lemma {:induction false} StopAt(p: nat, i: nat, k: nat, target: Bytes)
      requires Valid() && k == LowerBound(Contents(), target)
      requires p <= k && i < hs[p]
      requires All()[p].next[i] != null ==> !Less(All()[p].next[i].key, target)
      ensures Before(hs, p, i, k)
      ensures i == 0 ==> p == k
    {
      hide Less, Ordered, LowerBound;
      var q := NextPos(hs, p, i);
      LinkAt(p, i);
      if q < |hs| { BelowBound(Contents(), target, q - 1); }
      if i == 0 { BottomNext(p); }
    }
  }
}
