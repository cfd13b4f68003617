/**
The binary heaps of the beam search (vector/hnsw/search.go): items sifted up and down in
place, closest first or farthest first. Distances are reals: rounding plays no part.
*/
module DistHeaps {
  datatype Item = Item(id: nat, dist: real)

  /** The order of a heap: a belongs strictly above b. */
  predicate Above(max: bool, a: Item, b: Item) {
    if max then a.dist > b.dist else a.dist < b.dist
  }

  function Parent(i: nat): (p: nat)
    requires i > 0
    ensures p < i && (i == 2 * p + 1 || i == 2 * p + 2)
  {
    (i - 1) / 2
  }

  /** No item of the first n belongs above its parent, except possibly the item at skip. */
  predicate HeapBut(items: seq<Item>, n: nat, max: bool, skip: nat)
    requires n <= |items|
  {
    forall j :: 0 < j < n && j != skip ==> !Above(max, items[j], items[Parent(j)])
  }

  predicate HeapOk(items: seq<Item>, n: nat, max: bool)
    requires n <= |items|
  {
    forall j :: 0 < j < n ==> !Above(max, items[j], items[Parent(j)])
  }

  lemma {:induction false} RootExtreme(items: seq<Item>, n: nat, max: bool, j: nat)
    requires n <= |items| && HeapOk(items, n, max) && j < n
    ensures !Above(max, items[j], items[0])
  {
    if j > 0 { RootExtreme(items, n, max, Parent(j)); }
  }

  function Swap(items: seq<Item>, i: nat, j: nat): (r: seq<Item>)
    requires i < |items| && j < |items|
    ensures |r| == |items|
  {
    items[i := items[j]][j := items[i]]
  }

  lemma {:induction false} SwapKeeps(items: seq<Item>, i: nat, j: nat)
    requires i < |items| && j < |items|
    ensures multiset(Swap(items, i, j)) == multiset(items)
  {
  }

  /** The sift-up invariant at i: all is well but i against its parent, and i's children are
      well placed under that parent. */
  predicate UpInv(items: seq<Item>, max: bool, i: nat) {
    && i < |items| && HeapBut(items, |items|, max, i)
    && (i > 0 ==> forall j :: 0 < j < |items| && Parent(j) == i ==> !Above(max, items[j], items[Parent(i)]))
  }

  lemma {:induction false} UpStep(items: seq<Item>, max: bool, i: nat)
    requires UpInv(items, max, i) && i > 0 && Above(max, items[i], items[Parent(i)])
    ensures UpInv(Swap(items, i, Parent(i)), max, Parent(i))
  {
    var p, r := Parent(i), Swap(items, i, Parent(i));
    forall j | 0 < j < |r| && j != p ensures !Above(max, r[j], r[Parent(j)]) {
      if j != i { assert !Above(max, items[j], items[Parent(j)]); }
    }
    if p > 0 {
      forall j | 0 < j < |r| && Parent(j) == p ensures !Above(max, r[j], r[Parent(p)]) {
        assert !Above(max, items[p], items[Parent(p)]);
        if j != i { assert !Above(max, items[j], items[p]); }
      }
    }
  }

  /** The sift-down invariant at i: all is well but i's children against i, and those children
      are well placed under i's parent. */
  predicate DownInv(items: seq<Item>, n: nat, max: bool, i: nat) {
    && i < n <= |items|
    && (forall j :: 0 < j < n && Parent(j) != i ==> !Above(max, items[j], items[Parent(j)]))
    && (i > 0 ==> forall j :: 0 < j < n && Parent(j) == i ==> !Above(max, items[j], items[Parent(i)]))
  }

  lemma {:induction false} DownStep(items: seq<Item>, n: nat, max: bool, i: nat, c: nat)
    requires DownInv(items, n, max, i) && 0 < c < n && Parent(c) == i && Above(max, items[c], items[i])
    requires forall j :: 0 < j < n && Parent(j) == i ==> !Above(max, items[j], items[c])
    ensures DownInv(Swap(items, i, c), n, max, c)
  {
    var r := Swap(items, i, c);
    forall j | 0 < j < n && Parent(j) != c ensures !Above(max, r[j], r[Parent(j)]) {
      if Parent(j) != i { assert !Above(max, items[j], items[Parent(j)]); }
      if j == i { assert !Above(max, items[c], items[Parent(i)]); }
    }
    forall j | 0 < j < n && Parent(j) == c ensures !Above(max, r[j], r[Parent(c)]) {
      assert !Above(max, items[j], items[Parent(j)]);
    }
  }

  class DistHeap {
    const max: bool
    var items: seq<Item>

    ghost predicate Valid()
      reads this
    {
      HeapOk(items, |items|, max)
    }

    constructor (max: bool)
      ensures Valid() && items == [] && this.max == max
    {
      this.max, items := max, [];
    }

    method Up(start: nat)
      requires UpInv(items, max, start)
      modifies this
      ensures Valid() && multiset(items) == old(multiset(items))
    {
      var i: nat := start;
      while i != 0 && Above(max, items[i], items[Parent(i)])
        invariant i < |items| && UpInv(items, max, i) && multiset(items) == old(multiset(items))
      {
        hide UpInv, Swap;
        SwapKeeps(items, i, Parent(i));
        UpStep(items, max, i);
        UpIndex(Swap(items, i, Parent(i)), max, Parent(i));
        items := Swap(items, i, Parent(i));
        i := Parent(i);
      }
      UpDone(items, max, i);
    }

    method Down(start: nat, n: nat)
      requires start < n <= |items| && DownInv(items, n, max, start)
      modifies this
      ensures |items| == old(|items|) && HeapOk(items, n, max)
      ensures multiset(items) == old(multiset(items)) && items[n..] == old(items[n..])
    {
      hide Swap, DownInv, HeapOk, Above;
      var i: nat := start;
      while 2 * i + 1 < n
        invariant i < n && DownInv(items, n, max, i) && |items| == old(|items|)
        invariant multiset(items) == old(multiset(items)) && items[n..] == old(items[n..])
        decreases n - i
      {
        var c := 2 * i + 1;
        if c + 1 < n && Above(max, items[c + 1], items[c]) {
          c := c + 1;
        }
        ChildChosen(items, n, max, i, c);
        if !Above(max, items[c], items[i]) {
          NoChildAbove(items, n, max, i, c);
          break;
        }
        SwapKeeps(items, i, c);
        SwapTail(items, i, c, n);
        DownStep(items, n, max, i, c);
        items := Swap(items, i, c);
        i := c;
      }
      DownDone(items, n, max, i);
    }

    method Push(item: Item)
      requires Valid()
      modifies this
      ensures Valid() && multiset(items) == old(multiset(items)) + multiset{item}
    {
      items := items + [item];
      Up(|items| - 1);
    }

    /** Takes out an item that no other belongs above. */
    method Pop() returns (item: Item)
      requires Valid() && items != []
      modifies this
      ensures Valid() && multiset(items) == old(multiset(items)) - multiset{item} && item in old(items)
      ensures forall x :: x in old(items) ==> !Above(max, x, item)
    {
      hide HeapOk, Swap, DownInv, Above;
      var n := |items| - 1;
      RootFirst(items, max);
      SwapKeeps(items, 0, n);
      SwapLast(items, max);
      ghost var top := items[0];
      items := Swap(items, 0, n);
      if n > 0 {
        Down(0, n);
      }
      item := items[n];
      assert item == items[n..][0] == top;
      DropLast(items, n, max);
      items := items[..n];
    }

    function Peek(): Item
      requires items != []
      reads this
    {
      items[0]
    }

    lemma {:induction false} PeekExtreme()
      requires Valid() && items != []
      ensures forall x :: x in items ==> !Above(max, x, Peek())
    {
      RootFirst(items, max);
    }
  }

  lemma {:induction false} RootFirst(items: seq<Item>, max: bool)
    requires items != [] && HeapOk(items, |items|, max)
    ensures forall x :: x in items ==> !Above(max, x, items[0])
  {
    forall x | x in items ensures !Above(max, x, items[0]) {
      var j :| 0 <= j < |items| && items[j] == x;
      RootExtreme(items, |items|, max, j);
    }
  }

  /** With the last item moved to the root, the rest can be sifted. */
  lemma {:induction false} SwapLast(items: seq<Item>, max: bool)
    requires items != [] && HeapOk(items, |items|, max)
    ensures var n := |items| - 1; var r := Swap(items, 0, n);
      (if n > 0 then DownInv(r, n, max, 0) else HeapOk(r, n, max)) && r[n..] == [items[0]]
  {
    var n := |items| - 1;
    var r := Swap(items, 0, n);
    forall j | 0 < j < n && Parent(j) != 0 ensures !Above(max, r[j], r[Parent(j)]) {
      assert !Above(max, items[j], items[Parent(j)]);
    }
  }

  lemma {:induction false} DropLast(items: seq<Item>, n: nat, max: bool)
    requires |items| == n + 1 && HeapOk(items, n, max)
    ensures HeapOk(items[..n], n, max) && multiset(items[..n]) == multiset(items) - multiset{items[n]}
  {
    assert items == items[..n] + [items[n]];
  }

  /** The chosen child: no child of i belongs above it. */
  lemma {:induction false} ChildChosen(items: seq<Item>, n: nat, max: bool, i: nat, c: nat)
    requires n <= |items| && 2 * i + 1 < n
    requires c == if 2 * i + 2 < n && Above(max, items[2 * i + 2], items[2 * i + 1]) then 2 * i + 2 else 2 * i + 1
    ensures c < n && Parent(c) == i && forall j :: 0 < j < n && Parent(j) == i ==> !Above(max, items[j], items[c])
  {
  }

  lemma {:induction false} NoChildAbove(items: seq<Item>, n: nat, max: bool, i: nat, c: nat)
    requires i < n <= |items| && c < n && !Above(max, items[c], items[i])
    requires forall j :: 0 < j < n && Parent(j) == i ==> !Above(max, items[j], items[c])
    ensures forall j :: 0 < j < n && Parent(j) == i ==> !Above(max, items[j], items[i])
  {
  }

  lemma {:induction false} DownDone(items: seq<Item>, n: nat, max: bool, i: nat)
    requires DownInv(items, n, max, i)
    requires forall j :: 0 < j < n && Parent(j) == i ==> !Above(max, items[j], items[i])
    ensures HeapOk(items, n, max)
  {
  }

  lemma {:induction false} UpIndex(items: seq<Item>, max: bool, i: nat)
    requires UpInv(items, max, i)
    ensures i < |items|
  {
  }

  lemma {:induction false} UpDone(items: seq<Item>, max: bool, i: nat)
    requires UpInv(items, max, i) && (i > 0 ==> !Above(max, items[i], items[Parent(i)]))
    ensures HeapOk(items, |items|, max)
  {
  }

  lemma {:induction false} SwapTail(items: seq<Item>, i: nat, j: nat, n: nat)
    requires i < n <= |items| && j < n
    ensures Swap(items, i, j)[n..] == items[n..]
  {
  }
}
