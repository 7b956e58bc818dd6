/** The bounded min-heap of heavy hitters: internal/promsketch/heap.go. */
module TopK {

  datatype Item = Item(key: string, count: int)

  function LeftChild(i: nat): nat { 2 * i + 1 }

  function RightChild(i: nat): nat { 2 * i + 2 }

  function Parent(i: nat): nat
    requires i > 0
  {
    (i - 1) / 2
  }

  /** Item j is not smaller than its parent. */
  ghost predicate Above(h: seq<Item>, j: nat)
    requires j < |h|
  {
    j > 0 ==> h[Parent(j)].count <= h[j].count
  }

  ghost predicate MinHeap(h: seq<Item>) {
    forall j :: 0 <= j < |h| ==> Above(h, j)
  }

  ghost predicate DistinctKeys(h: seq<Item>) {
    forall i, j :: 0 <= i < j < |h| ==> h[i].key != h[j].key
  }

  /** The parent of i is not larger than j, a child of i. */
  ghost predicate Over(h: seq<Item>, i: nat, j: nat)
    requires i < |h| && j < |h|
  {
    i > 0 && j > 0 && Parent(j) == i ==> h[Parent(i)].count <= h[j].count
  }

  /** Only the link from i to its parent may be broken. */
  ghost predicate MinHeapBelow(h: seq<Item>, i: nat)
    requires i < |h|
  {
    && (forall j :: 0 < j < |h| && j != i ==> Above(h, j))
    && (forall j :: 0 < j < |h| ==> Over(h, i, j))
  }

  /** Index `at` may be above its children; the link from `from` to its parent only counts once the item has moved. */
  ghost predicate SinkingFrom(h: seq<Item>, from: nat, at: nat)
    requires at < |h|
  {
    && (forall j :: 0 < j < |h| && (j != from || at > from) && Parent(j) != at ==> Above(h, j))
    && (forall j :: 0 < j < |h| ==> Over(h, at, j))
  }

  function Swapped(h: seq<Item>, i: nat, j: nat): seq<Item>
    requires i < |h| && j < |h|
  {
    h[i := h[j]][j := h[i]]
  }

  /** Moving a too small item above its parent. */
  lemma RiseStep(h: seq<Item>, at: nat)
    requires 0 < at < |h| && MinHeapBelow(h, at) && h[Parent(at)].count > h[at].count
    ensures MinHeapBelow(Swapped(h, Parent(at), at), Parent(at))
  {
    var par := Parent(at);
    var g := Swapped(h, par, at);
    forall j | 0 < j < |g| && j != par
      ensures Above(g, j)
    {
      assert j != at ==> Above(h, j);
      assert Over(h, at, j);
    }
    forall j | 0 < j < |g|
      ensures Over(g, par, j)
    {
      assert j != at ==> Above(h, j);
      assert Above(h, par);
    }
  }

  /** Changing the count at one place of a min-heap disturbs only that place. */
  lemma OnePlaceChanged(h: seq<Item>, i: nat, x: Item)
    requires MinHeap(h) && i < |h|
    ensures SinkingFrom(h[i := x], i, i)
  {
    var g := h[i := x];
    forall j | 0 < j < |g| && j != i && Parent(j) != i
      ensures Above(g, j)
    {
      assert Above(h, j);
    }
    forall j | 0 < j < |g|
      ensures Over(g, i, j)
    {
      assert Above(h, j) && Above(h, i);
    }
  }

  lemma Appended(h: seq<Item>, x: Item)
    requires MinHeap(h)
    ensures MinHeapBelow(h + [x], |h|)
    ensures DistinctKeys(h) && !HasKey(h, x.key) ==> DistinctKeys(h + [x])
  {
    var g := h + [x];
    forall j | 0 < j < |g| && j != |h|
      ensures Above(g, j)
    {
      assert Above(h, j);
    }
  }

  lemma KeysAfterReplace(h: seq<Item>, i: nat, x: Item)
    requires i < |h| && DistinctKeys(h)
    requires h[i].key == x.key || !HasKey(h, x.key)
    ensures DistinctKeys(h[i := x])
  {
    var g := h[i := x];
    forall p, q | 0 <= p < q < |g|
      ensures g[p].key != g[q].key
    {
      assert h[p].key != h[q].key;
    }
  }

  lemma RiseEnd(h: seq<Item>, at: nat)
    requires at < |h| && MinHeapBelow(h, at) && Above(h, at)
    ensures MinHeap(h)
  {
    forall j | 0 <= j < |h|
      ensures Above(h, j)
    {
    }
  }

  /** Moving a too large item below its smaller child. */
  lemma SinkStep(h: seq<Item>, from: nat, at: nat, child: nat)
    requires from <= at < child < |h| && SinkingFrom(h, from, at) && Parent(child) == at
    requires h[child].count < h[at].count
    requires forall j :: 0 < j < |h| && Parent(j) == at ==> h[child].count <= h[j].count
    ensures SinkingFrom(Swapped(h, child, at), from, child)
  {
    var g := Swapped(h, child, at);
    forall j | 0 < j < |g| && Parent(j) != child
      ensures Above(g, j)
    {
      assert Over(h, at, child);
      if Parent(j) != at && j != at {
        assert Above(h, j);
      }
    }
    forall j | 0 < j < |g|
      ensures Over(g, child, j)
    {
      if Parent(j) == child {
        assert j != from && Parent(j) != at;
        assert Above(h, j);
      }
    }
  }

  /** No smaller child: the item has reached its place. */
  lemma SinkEnd(h: seq<Item>, from: nat, at: nat)
    requires from <= at < |h| && SinkingFrom(h, from, at)
    requires forall j :: 0 < j < |h| && Parent(j) == at ==> h[at].count <= h[j].count
    ensures at > from ==> MinHeap(h)
    ensures at == from ==> MinHeapBelow(h, from)
  {
    forall j | 0 < j < |h| && (j != from || at > from)
      ensures Above(h, j)
    {
    }
  }

  /** In a min-heap the root is a smallest item. */
  lemma {:induction false} RootIsSmallest(h: seq<Item>, j: nat)
    requires MinHeap(h) && j < |h|
    ensures h[0].count <= h[j].count
    decreases j
  {
    if j > 0 {
      RootIsSmallest(h, Parent(j));
      assert Above(h, j);
    }
  }

  ghost predicate HasKey(h: seq<Item>, key: string) {
    exists i :: 0 <= i < |h| && h[i].key == key
  }

  // ------------------------------------------------------------------ which items are kept

  /**
    Of everything seen, `kept` is a choice of the k largest: all of it while there is room,
    and otherwise k items none of which is smaller than one left out.
   */
  ghost predicate KeepsLargest(kept: multiset<Item>, seen: multiset<Item>, k: nat) {
    && kept <= seen
    && |kept| == (if |seen| <= k then |seen| else k)
    && forall x, y :: x in kept && y in seen - kept ==> y.count <= x.count
  }

  lemma SameSize(kept: multiset<Item>, seen: multiset<Item>)
    requires kept <= seen && |kept| == |seen|
    ensures kept == seen
  {
    assert seen == kept + (seen - kept);
    assert |seen - kept| == 0;
  }

  /** The three outcomes of inserting an item whose key has not been seen. */
  lemma InsertKeepsLargest(kept: multiset<Item>, seen: multiset<Item>, k: nat, x: Item, root: Item,
                           after: multiset<Item>)
    requires k >= 1 && KeepsLargest(kept, seen, k)
    requires |kept| == k ==> root in kept && forall y :: y in kept ==> root.count <= y.count
    requires after ==
      if |kept| < k then kept + multiset{x}
      else if root.count < x.count then kept - multiset{root} + multiset{x}
      else kept
    ensures KeepsLargest(after, seen + multiset{x}, k)
  {
    if |kept| < k {
      SameSize(kept, seen);
      assert seen + multiset{x} - after == multiset{};
    } else if root.count < x.count {
      forall u, v | u in after && v in seen + multiset{x} - after
        ensures v.count <= u.count
      {
        assert v in seen - kept || v == root || v in kept;
        assert v in seen + multiset{x} - after ==> v in seen - kept || v == root;
        assert u == x || u in kept;
      }
    } else {
      forall u, v | u in after && v in seen + multiset{x} - after
        ensures v.count <= u.count
      {
        assert v in seen - kept || v == x;
      }
    }
  }

  /** The item of the key has taken a new count; everything else is the same. */
  ghost predicate Replaced(before: seq<Item>, after: seq<Item>, key: string, count: int) {
    exists c :: Item(key, c) in before &&
      multiset(after) == multiset(before) - multiset{Item(key, c)} + multiset{Item(key, count)}
  }

  ghost predicate Ordered(h: seq<Item>, k: nat) {
    |h| <= k && MinHeap(h) && DistinctKeys(h)
  }

  /** The three outcomes for a key that is not in the heap. */
  ghost predicate InsertOutcome(before: seq<Item>, x: Item, after: seq<Item>, k: nat)
    requires k >= 1
  {
    if |before| < k then multiset(after) == multiset(before) + multiset{x}
    else if before[0].count < x.count then multiset(after) == multiset(before) - multiset{before[0]} + multiset{x}
    else after == before
  }

  ghost predicate UpdateOutcome(before: seq<Item>, x: Item, after: seq<Item>, k: nat)
    requires k >= 1
  {
    if HasKey(before, x.key) then |after| == |before| && Replaced(before, after, x.key, x.count)
    else InsertOutcome(before, x, after, k)
  }

  lemma KeyIsNew(h: seq<Item>, items: seq<Item>, n: nat)
    requires n < |items| && DistinctKeys(items) && multiset(h) <= multiset(items[..n])
    ensures !HasKey(h, items[n].key)
  {
    forall i | 0 <= i < |h|
      ensures h[i].key != items[n].key
    {
      assert h[i] in multiset(h);
      assert h[i] in items[..n];
    }
  }

  /** Over a run in which each key comes once, the heap holds the k largest items seen. */
  lemma {:induction false} RunKeepsLargest(states: seq<seq<Item>>, items: seq<Item>, k: nat)
    requires k >= 1 && |states| == |items| + 1 && states[0] == [] && DistinctKeys(items)
    requires forall i :: 0 <= i < |states| ==> Ordered(states[i], k)
    requires forall i :: 0 <= i < |items| ==> UpdateOutcome(states[i], items[i], states[i + 1], k)
    ensures KeepsLargest(multiset(states[|items|]), multiset(items), k)
    decreases |items|
  {
    if items != [] {
      var n := |items| - 1;
      RunKeepsLargest(states[..n + 1], items[..n], k);
      var before := states[n];
      assert items == items[..n] + [items[n]];
      KeyIsNew(before, items, n);
      forall y | y in multiset(before) && |before| == k
        ensures before[0].count <= y.count
      {
        var i :| 0 <= i < |before| && before[i] == y;
        RootIsSmallest(before, i);
      }
      var root := if |before| == k then before[0] else items[n];
      InsertKeepsLargest(multiset(before), multiset(items[..n]), k, items[n], root, multiset(states[n + 1]));
    }
  }

  class TopKHeap {
    const k: nat
    var heap: seq<Item>

    constructor (k: nat)
      requires k >= 1
      ensures this.k == k && heap == [] && Valid()
    {
      this.k := k;
      heap := [];
    }

    ghost predicate Valid()
      reads this
    {
      k >= 1 && Ordered(heap, k)
    }

    method Clean()
      modifies this
      ensures heap == []
    {
      heap := heap[..0];
    }

    method Find(key: string) returns (index: int, found: bool)
      ensures found <==> HasKey(heap, key)
      ensures found ==> 0 <= index < |heap| && heap[index].key == key
      ensures !found ==> index == -1
    {
      for i := 0 to |heap|
        invariant forall j :: 0 <= j < i ==> heap[j].key != key
      {
        if heap[i].key == key {
          return i, true;
        }
      }
      return -1, false;
    }

    method Swap(i: nat, j: nat)
      requires i < |heap| && j < |heap|
      modifies this
      ensures heap == Swapped(old(heap), i, j)
      ensures multiset(heap) == multiset(old(heap))
      ensures DistinctKeys(old(heap)) ==> DistinctKeys(heap)
    {
      heap := Swapped(heap, i, j);
    }

    /** Moves the item at i down to its place; tells whether it moved. */
    method UpdateOrderDown(i: nat) returns (moved: bool)
      requires i < |heap| && SinkingFrom(heap, i, i)
      modifies this
      ensures multiset(heap) == multiset(old(heap)) && |heap| == |old(heap)|
      ensures DistinctKeys(old(heap)) ==> DistinctKeys(heap)
      ensures moved ==> MinHeap(heap)
      ensures !moved ==> heap == old(heap) && MinHeapBelow(heap, i)
    {
      var n, at := |heap|, i;
      while at < n
        invariant i <= at < n == |heap|
        invariant multiset(heap) == multiset(old(heap))
        invariant DistinctKeys(old(heap)) ==> DistinctKeys(heap)
        invariant at == i ==> heap == old(heap)
        invariant SinkingFrom(heap, i, at)
        decreases n - at
      {
        var l, r := LeftChild(at), RightChild(at);
        var smallest := at;
        if l < n && heap[smallest].count > heap[l].count {
          smallest := l;
        }
        if r < n && heap[smallest].count > heap[r].count {
          smallest := r;
        }
        assert forall j :: 0 < j < n && Parent(j) == at ==> j == l || j == r;
        if smallest != at {
          SinkStep(heap, i, at, smallest);
          Swap(smallest, at);
        } else {
          break;
        }
        at := smallest;
      }
      SinkEnd(heap, i, at);
      moved := at > i;
    }

    /** Moves the item at i up to its place. */
    method UpdateOrderUp(i: nat)
      requires i < |heap| && MinHeapBelow(heap, i)
      modifies this
      ensures multiset(heap) == multiset(old(heap)) && |heap| == |old(heap)|
      ensures DistinctKeys(old(heap)) ==> DistinctKeys(heap)
      ensures MinHeap(heap)
    {
      var at := i;
      while at > 0
        invariant 0 <= at < |heap| == |old(heap)|
        invariant multiset(heap) == multiset(old(heap))
        invariant DistinctKeys(old(heap)) ==> DistinctKeys(heap)
        invariant MinHeapBelow(heap, at)
      {
        var par := Parent(at);
        if heap[par].count > heap[at].count {
          RiseStep(heap, at);
          Swap(par, at);
          at := par;
        } else {
          break;
        }
      }
      RiseEnd(heap, at);
    }

    method UpdateOrder(i: nat)
      requires i < |heap| && SinkingFrom(heap, i, i)
      modifies this
      ensures multiset(heap) == multiset(old(heap)) && |heap| == |old(heap)|
      ensures DistinctKeys(old(heap)) ==> DistinctKeys(heap)
      ensures MinHeap(heap)
    {
      var moved := UpdateOrderDown(i);
      if !moved {
        UpdateOrderUp(i);
      }
    }

    /** A key that is not in the heap: appended while there is room, else it replaces a smaller root. */
    method Insert(key: string, count: int)
      requires Valid() && !HasKey(heap, key)
      modifies this
      ensures Valid()
      ensures InsertOutcome(old(heap), Item(key, count), heap, k)
    {
      if |heap| < k {
        Appended(heap, Item(key, count));
        heap := heap + [Item(key, count)];
        UpdateOrderUp(|heap| - 1);
      } else if heap[0].count < count {
        OnePlaceChanged(heap, 0, Item(key, count));
        KeysAfterReplace(heap, 0, Item(key, count));
        heap := heap[0 := Item(key, count)];
        var moved := UpdateOrderDown(0);
      }
    }

    method Update(key: string, count: int) returns (done: bool)
      requires Valid()
      modifies this
      ensures Valid() && done
      ensures UpdateOutcome(old(heap), Item(key, count), heap, k)
    {
      var index, found := Find(key);
      if found {
        ghost var was := heap[index];
        assert was == Item(key, was.count) && was in heap;
        OnePlaceChanged(heap, index, Item(key, count));
        heap := heap[index := Item(key, count)];
        UpdateOrder(index);
        return true;
      } else {
        Insert(key, count);
        return true;
      }
    }
  }
}
