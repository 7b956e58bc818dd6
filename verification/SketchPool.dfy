/**
  The sketch pool of the smooth histogram: internal/promsketch/SmoothHistogram.go, GetUnivSketch,
  PutUnivSketch and putUnivSketch with its two background workers. Every method is one atomic
  step, so what each of them keeps holds over every interleaving.
*/
module SketchPools {

  predicate Differ(s: seq<nat>, i: int, j: int) {
    0 <= i < j < |s| ==> s[i] != s[j]
  }

  ghost predicate NoDuplicates(s: seq<nat>) {
    forall i, j :: Differ(s, i, j)
  }

  ghost function Elements(s: seq<nat>): set<nat> {
    set i | 0 <= i < |s| :: s[i]
  }

  lemma {:induction false} RangeSize(s: set<nat>, n: nat)
    requires forall i: nat :: i in s <==> i < n
    ensures |s| == n
    decreases n
  {
    if n == 0 {
      assert s == {};
    } else {
      RangeSize(s - {n - 1}, n - 1);
    }
  }

  lemma ElementsPlus(a: seq<nat>, b: seq<nat>)
    ensures Elements(a + b) == Elements(a) + Elements(b)
  {
    forall x
      ensures x in Elements(a + b) <==> x in Elements(a) || x in Elements(b)
    {
      if x in Elements(a) {
        var i :| 0 <= i < |a| && a[i] == x;
        assert (a + b)[i] == x;
      }
      if x in Elements(b) {
        var i :| 0 <= i < |b| && b[i] == x;
        assert (a + b)[|a| + i] == x;
      }
    }
  }

  lemma {:induction false} BoundedSize(s: set<nat>, n: nat)
    requires forall i :: i in s ==> i < n
    ensures |s| <= n
    decreases n
  {
    if n == 0 {
      assert s == {};
    } else {
      BoundedSize(s - {n - 1}, n - 1);
    }
  }

  /** Taken slots are those of live buckets and those waiting to be cleaned, each held once. */
  ghost predicate Accounted(bm: set<nat>, live: set<nat>, pending: seq<nat>) {
    NoDuplicates(pending) && live !! Elements(pending) && bm == live + Elements(pending)
  }

  lemma TakeSlot(bm: set<nat>, live: set<nat>, pending: seq<nat>, x: nat)
    requires Accounted(bm, live, pending) && x !in bm
    ensures x !in live && x !in Elements(pending)
    ensures Accounted(bm + {x}, live + {x}, pending) && |bm + {x}| == |bm| + 1
  {
  }

  lemma GiveUpSlot(bm: set<nat>, live: set<nat>, pending: seq<nat>, x: nat)
    requires Accounted(bm, live, pending) && x in live
    ensures Accounted(bm, live - {x}, pending + [x])
  {
    AppendOne(pending, x);
  }

  lemma FreeSlot(bm: set<nat>, live: set<nat>, pending: seq<nat>, w: nat)
    requires Accounted(bm, live, pending) && w < |pending|
    ensures pending[w] in bm && pending[w] !in live
    ensures Accounted(bm - {pending[w]}, live, pending[..w] + pending[w + 1..]) && |bm - {pending[w]}| == |bm| - 1
  {
    assert pending[w] in Elements(pending);
    RemoveOne(pending, w);
  }

  /** The same for a slot a worker has taken from the queue. */
  lemma FreeTaken(bm: set<nat>, live: set<nat>, taken: seq<nat>, queue: seq<nat>, w: nat)
    requires Accounted(bm, live, taken + queue) && w < |taken|
    ensures taken[w] in bm && taken[w] !in live
    ensures Accounted(bm - {taken[w]}, live, (taken[..w] + taken[w + 1..]) + queue) && |bm - {taken[w]}| == |bm| - 1
  {
    var pending := taken + queue;
    FreeSlot(bm, live, pending, w);
    assert pending[..w] + pending[w + 1..] == (taken[..w] + taken[w + 1..]) + queue;
  }

  lemma RemoveOne(s: seq<nat>, w: nat)
    requires w < |s| && NoDuplicates(s)
    ensures NoDuplicates(s[..w] + s[w + 1..])
    ensures Elements(s[..w] + s[w + 1..]) == Elements(s) - {s[w]}
  {
    var t := s[..w] + s[w + 1..];
    forall i, j
      ensures Differ(t, i, j)
    {
      assert Differ(s, if i < w then i else i + 1, if j < w then j else j + 1);
    }
    forall i | 0 <= i < |s| && i != w
      ensures s[i] != s[w]
    {
      assert Differ(s, i, w) && Differ(s, w, i);
    }
    forall x
      ensures x in Elements(t) <==> x in Elements(s) && x != s[w]
    {
      if x in Elements(s) && x != s[w] {
        var i :| 0 <= i < |s| && s[i] == x;
        assert t[if i < w then i else i - 1] == x;
      }
    }
  }

  lemma AppendOne(s: seq<nat>, x: nat)
    requires NoDuplicates(s) && x !in Elements(s)
    ensures NoDuplicates(s + [x]) && Elements(s + [x]) == Elements(s) + {x}
  {
    ElementsPlus(s, [x]);
    assert [x][0] in Elements([x]);
    forall i | 0 <= i < |s|
      ensures s[i] != x
    {
      assert s[i] in Elements(s);
    }
    forall i, j
      ensures Differ(s + [x], i, j)
    {
      assert Differ(s, i, j);
    }
  }

  /** These slots hold what they held. */
  ghost predicate Untouched<T>(held: set<nat>, was: seq<T>, now: seq<T>) {
    |was| == |now| && forall x :: x in held ==> x < |now| && now[x] == was[x]
  }

  const QUEUE_CAP: nat := 100
  const WORKERS: nat := 2

  /** Slot 0 when free, else the last slot of the first gap, or the one after all taken slots when there is none. */
  ghost predicate IsFirstGap(bm: set<nat>, idx: nat) {
    && (0 !in bm ==> idx == 0)
    && (0 in bm ==> exists g: nat :: GapFrom(bm, g, idx))
  }

  /** All below g are taken, g up to idx are free, and then comes a taken slot or none at all. */
  ghost predicate GapFrom(bm: set<nat>, g: nat, idx: nat) {
    && g <= idx && (forall i: nat :: i < g ==> i in bm) && (forall i: nat :: g <= i <= idx ==> i !in bm)
    && (idx + 1 in bm || (g == idx && forall i: nat :: i >= g ==> i !in bm))
  }

  class SketchPool<T> {
    /** What a freed or new sketch holds. */
    const clean: T
    var slots: seq<T>
    var size: nat
    var maxSize: nat
    var bm: set<nat>
    var toClean: int
    /** The channel of slots to clean, and the slots workers have taken from it. */
    var queue: seq<nat>
    var inFlight: seq<nat>
    /** The slots held by buckets. */
    ghost var live: set<nat>

    ghost predicate Valid()
      reads this
    {
      && |slots| == maxSize && size == |bm|
      && (forall i :: i in bm ==> i < maxSize)
      && Accounted(bm, live, inFlight + queue)
      && toClean == |inFlight| + |queue|
      && |queue| <= QUEUE_CAP && |inFlight| <= WORKERS
      && (forall i :: 0 <= i < maxSize && i !in bm ==> slots[i] == clean)
    }

    constructor (clean: T, capacity: nat)
      ensures Valid() && live == {} && this.clean == clean && maxSize == capacity && size == 0
      ensures queue == [] && inFlight == []
    {
      this.clean := clean;
      slots := seq(capacity, _ => clean);
      size, maxSize, bm, toClean := 0, capacity, {}, 0;
      queue, inFlight, live := [], [], {};
    }

    /** The lowest set bit at or above `from`, as the bitmap iterator yields it. */
    method NextSet(from: nat) returns (item: nat, more: bool)
      requires Valid()
      ensures more ==> item in bm && item >= from && forall i :: from <= i < item ==> i !in bm
      ensures !more ==> forall i :: i >= from ==> i !in bm
    {
      item := from;
      while item < maxSize && item !in bm
        invariant from <= item && forall i :: from <= i < item ==> i !in bm
        decreases maxSize - item
      {
        item := item + 1;
      }
      more := item < maxSize;
    }

    /** The slot below the first gap in the bitmap, or the one above its contiguous run. */
    method FindGap() returns (idx: nat)
      requires Valid() && size < maxSize
      ensures idx < maxSize && idx !in bm && IsFirstGap(bm, idx)
    {
      idx := 0;
      if 0 in bm {
        var last := -1;
        var item, more := NextSet(0);
        var flag := false;
        while more
          invariant -1 <= last < maxSize && !flag && 0 in bm
          invariant forall i :: 0 <= i <= last ==> i in bm
          invariant more ==> item in bm && item > last && forall i :: last < i < item ==> i !in bm
          invariant !more ==> forall i :: i > last && i >= 0 ==> i !in bm
          invariant last == -1 ==> more && item == 0
          decreases maxSize - last, more
        {
          if item > 0 && last != item - 1 {
            idx := item - 1;
            flag := true;
            assert GapFrom(bm, last + 1, idx);
            break;
          }
          last := item;
          item, more := NextSet(last + 1);
        }
        if !flag {
          idx := last + 1;
          assert forall i: nat :: i in bm <==> i < last + 1;
          RangeSize(bm, last + 1);
          assert GapFrom(bm, last + 1, idx);
        }
      }
    }

    /** A free slot: one more when all are taken, else the first gap. */
    method Reserve() returns (idx: nat)
      requires Valid()
      modifies this`slots, this`maxSize
      ensures Valid() && idx < maxSize && idx !in bm && slots[idx] == clean
      ensures |old(slots)| <= |slots| && forall i :: 0 <= i < |old(slots)| ==> slots[i] == old(slots)[i]
      ensures if size == old(maxSize) then idx == old(maxSize) && maxSize == old(maxSize) + 1
        else maxSize == old(maxSize) && IsFirstGap(bm, idx)
    {
      if size == maxSize {
        idx := maxSize;
        slots := slots + [clean];
        maxSize := maxSize + 1;
      } else {
        BoundedSize(bm, maxSize);
        idx := FindGap();
      }
    }

    method GetUnivSketch() returns (idx: nat)
      requires Valid()
      modifies this
      ensures Valid()
      ensures idx < maxSize && slots[idx] == clean
      ensures idx !in old(live) && idx !in Elements(old(inFlight + queue))
      ensures live == old(live) + {idx} && queue == old(queue) && inFlight == old(inFlight)
      ensures |old(slots)| <= |slots| && forall i :: 0 <= i < |old(slots)| ==> slots[i] == old(slots)[i]
      ensures if old(size) == old(maxSize) then idx == old(maxSize) && maxSize == old(maxSize) + 1
        else maxSize == old(maxSize) && IsFirstGap(old(bm), idx)
      ensures bm == old(bm) + {idx}
    {
      ghost var taken, held, pending := bm, live, inFlight + queue;
      idx := Reserve();
      TakeSlot(taken, held, pending, idx);
      bm := bm + {idx};
      size := size + 1;
      live := held + {idx};
    }

    /** A bucket gives its slot up: it waits in the channel until a worker frees it. */
    method Enqueue(idx: nat)
      requires Valid() && idx in live && |queue| < QUEUE_CAP
      modifies this
      ensures Valid() && live == old(live) - {idx}
      ensures queue == old(queue) + [idx] && inFlight == old(inFlight)
      ensures slots == old(slots) && bm == old(bm) && maxSize == old(maxSize)
    {
      toClean := toClean + 1;
      assert inFlight + (queue + [idx]) == (inFlight + queue) + [idx];
      GiveUpSlot(bm, live, inFlight + queue, idx);
      queue := queue + [idx];
      live := live - {idx};
    }

    /** A free worker takes the oldest slot of the channel. */
    method Receive()
      requires Valid() && queue != [] && |inFlight| < WORKERS
      modifies this
      ensures Valid() && live == old(live) && slots == old(slots) && maxSize == old(maxSize) && bm == old(bm)
      ensures inFlight == old(inFlight) + [old(queue)[0]] && queue == old(queue)[1..]
    {
      assert (inFlight + [queue[0]]) + queue[1..] == inFlight + queue;
      inFlight, queue := inFlight + [queue[0]], queue[1..];
    }

    /** putUnivSketch: a worker frees the slot it took and clears its bit. */
    method CleanSlot(w: nat)
      requires Valid() && w < |inFlight|
      modifies this
      ensures Valid() && live == old(live) && maxSize == old(maxSize) && queue == old(queue)
      ensures inFlight == old(inFlight)[..w] + old(inFlight)[w + 1..]
      ensures bm == old(bm) - {old(inFlight)[w]}
      ensures old(inFlight)[w] in old(bm) && old(inFlight)[w] !in live && old(inFlight)[w] < |old(slots)|
      ensures slots == old(slots)[old(inFlight)[w] := clean]
    {
      var taken := inFlight;
      var idx := taken[w];
      FreeTaken(bm, live, taken, queue, w);
      slots := slots[idx := clean];
      bm := bm - {idx};
      size := size - 1;
      toClean := toClean - 1;
      inFlight := taken[..w] + taken[w + 1..];
    }

    /** PutUnivSketch: a full channel is waited on, which lets the background workers run. */
    method PutUnivSketch(poolIdx: int)
      requires Valid() && (poolIdx == -1 || poolIdx in live)
      modifies this
      ensures Valid() && live == old(live) - {poolIdx} && maxSize == old(maxSize)
      ensures Untouched(live, old(slots), slots)
      ensures poolIdx == -1 ==> slots == old(slots) && queue == old(queue) && inFlight == old(inFlight) && bm == old(bm)
      ensures poolIdx != -1 ==> queue != [] && queue[|queue| - 1] == poolIdx && poolIdx in bm
    {
      if poolIdx == -1 {
        return;
      }
      while |queue| == QUEUE_CAP
        invariant Valid() && live == old(live) && maxSize == old(maxSize)
        invariant Untouched(live, old(slots), slots)
        decreases |queue|, |inFlight|
      {
        if |inFlight| < WORKERS {
          Receive();
        } else {
          CleanSlot(0);
        }
      }
      Enqueue(poolIdx);
    }

    /** A live sketch is written by its bucket. */
    method Write(idx: nat, content: T)
      requires Valid() && idx in live
      modifies this`slots
      ensures Valid() && slots == old(slots)[idx := content]
    {
      slots := slots[idx := content];
    }
  }
}
