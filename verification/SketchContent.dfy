/**
  What a pooled sketch holds, as a value: counters that add up over samples, and heaps. Subtracting
  nested sketches and re-estimating the heaps of the result: internal/promsketch/SmoothHistogram.go.
*/
module SketchContent {
  import opened CountSketch
  import opened TopK

  datatype Event = Event(time: int, key: string)

  /** Counters by layer, row and column. */
  type Counters = seq<seq<seq<int>>>

  /** Counters, the number of samples absorbed, and a heap per layer. */
  datatype Content = Content(counts: Counters, bucketSize: int, heaps: seq<seq<Item>>)

  const LAYERS: nat := 16
  const ROWS: nat := 3

  function Columns(l: int): nat {
    if l < 8 then 2048 else 512
  }

  predicate Cell(l: int, r: int, c: int) {
    0 <= l < LAYERS && 0 <= r < ROWS && 0 <= c < Columns(l)
  }

  predicate Shaped(counts: Counters) {
    && |counts| == LAYERS
    && (forall l :: 0 <= l < LAYERS ==> |counts[l]| == ROWS)
    && (forall l, r :: 0 <= l < LAYERS && 0 <= r < ROWS ==> |counts[l][r]| == Columns(l))
  }

  /** The matrix of a layer, row and column function. */
  function Fill(f: (int, int, int) -> int): (counts: Counters)
    ensures Shaped(counts)
    ensures forall l, r, c :: Cell(l, r, c) ==> counts[l][r][c] == f(l, r, c)
  {
    seq(LAYERS, l => seq(ROWS, r => seq(Columns(l), c => f(l, r, c))))
  }

  function At(counts: Counters, l: int, r: int, c: int): int {
    if Shaped(counts) && Cell(l, r, c) then counts[l][r][c] else 0
  }

  /** What one update of a key adds to a counter: decided by the hash functions. */
  type Weights = (string, int, int, int) -> int

  /** What the heap of a layer becomes in an update of a key: decided by the counters after it. */
  type Ranking = (int, seq<Item>, Counters, string) -> seq<Item>

  /** Column of a key by layer and row, and its sign by row. */
  datatype Hashing = Hashing(pos: (int, string, int) -> int, sign: (string, int) -> int)

  ghost function CellSum(add: Weights, events: seq<Event>, l: int, r: int, c: int): int {
    if events == [] then 0
    else CellSum(add, events[..|events| - 1], l, r, c) + add(events[|events| - 1].key, l, r, c)
  }

  lemma {:induction false} CellSumPlus(add: Weights, a: seq<Event>, b: seq<Event>, l: int, r: int, c: int)
    ensures CellSum(add, a + b, l, r, c) == CellSum(add, a, l, r, c) + CellSum(add, b, l, r, c)
  {
    if b == [] {
      assert a + b == a;
    } else {
      var n := |b| - 1;
      assert (a + b)[..|a + b| - 1] == a + b[..n];
      CellSumPlus(add, a, b[..n], l, r, c);
    }
  }

  /** The sketch a fresh one becomes when fed exactly these events. */
  ghost predicate Absorbed(add: Weights, content: Content, events: seq<Event>) {
    && Shaped(content.counts)
    && content.bucketSize == |events| && |content.heaps| == LAYERS
    && forall l, r, c :: Cell(l, r, c) ==> content.counts[l][r][c] == CellSum(add, events, l, r, c)
  }

  /** Sketches of the same samples have the same counters. */
  lemma SameCounters(add: Weights, a: Content, b: Content, events: seq<Event>)
    requires Absorbed(add, a, events) && Absorbed(add, b, events)
    ensures a.counts == b.counts && a.bucketSize == b.bucketSize
  {
    forall l | 0 <= l < LAYERS
      ensures a.counts[l] == b.counts[l]
    {
      forall r | 0 <= r < ROWS
        ensures a.counts[l][r] == b.counts[l][r]
      {
        assert forall c :: 0 <= c < Columns(l) ==> Cell(l, r, c);
      }
    }
  }

  function Zero(): Content {
    Content(Fill((l, r, c) => 0), 0, seq(LAYERS, _ => []))
  }

  lemma ZeroAbsorbs(add: Weights)
    ensures Absorbed(add, Zero(), [])
  {
  }

  /** One sample fed into a sketch. */
  function Feed(add: Weights, rank: Ranking, content: Content, key: string): Content {
    var counts := Fill((l, r, c) => At(content.counts, l, r, c) + add(key, l, r, c));
    var heaps := seq(LAYERS, l => rank(l, if 0 <= l < |content.heaps| then content.heaps[l] else [], counts, key));
    Content(counts, content.bucketSize + 1, heaps)
  }

  lemma FeedAbsorbs(add: Weights, rank: Ranking, content: Content, events: seq<Event>, e: Event)
    requires Absorbed(add, content, events)
    ensures Absorbed(add, Feed(add, rank, content, e.key), events + [e])
  {
    assert (events + [e])[..|events|] == events;
  }

  /** Counter by counter difference of two sketches. */
  ghost predicate IsDifference(a: Content, b: Content, d: Content) {
    && Shaped(a.counts) && Shaped(b.counts) && Shaped(d.counts)
    && d.bucketSize == a.bucketSize - b.bucketSize && |d.heaps| == LAYERS
    && forall l, r, c :: Cell(l, r, c) ==> d.counts[l][r][c] == a.counts[l][r][c] - b.counts[l][r][c]
  }

  /** Subtracting the sketch of a later start leaves the sketch of the samples in between. */
  lemma SubtractAbsorbs(add: Weights, a: Content, b: Content, d: Content, early: seq<Event>, late: seq<Event>)
    requires Absorbed(add, a, early + late) && Absorbed(add, b, late) && IsDifference(a, b, d)
    ensures Absorbed(add, d, early)
  {
    forall l, r, c | Cell(l, r, c)
      ensures d.counts[l][r][c] == CellSum(add, early, l, r, c)
    {
      CellSumPlus(add, early, late, l, r, c);
    }
  }

  method SubtractRow(a: seq<int>, b: seq<int>) returns (row: seq<int>)
    requires |a| == |b|
    ensures |row| == |a| && forall k :: 0 <= k < |a| ==> row[k] == a[k] - b[k]
  {
    row := [];
    for k := 0 to |a|
      invariant |row| == k && forall j :: 0 <= j < k ==> row[j] == a[j] - b[j]
    {
      row := row + [a[k] - b[k]];
    }
  }

  method SubtractLayer(a: seq<seq<int>>, b: seq<seq<int>>) returns (layer: seq<seq<int>>)
    requires |a| == |b| && forall r :: 0 <= r < |a| ==> |a[r]| == |b[r]|
    ensures |layer| == |a| && forall r :: 0 <= r < |a| ==> |layer[r]| == |a[r]|
    ensures forall r, k :: 0 <= r < |a| && 0 <= k < |a[r]| ==> layer[r][k] == a[r][k] - b[r][k]
  {
    layer := [];
    for r := 0 to |a|
      invariant |layer| == r && forall j :: 0 <= j < r ==> |layer[j]| == |a[j]|
      invariant forall j, k :: 0 <= j < r && 0 <= k < |a[j]| ==> layer[j][k] == a[j][k] - b[j][k]
    {
      var row := SubtractRow(a[r], b[r]);
      layer := layer + [row];
    }
  }

  /** The estimate of a key read off given counters of one layer. */
  function EstimateIn(counts: Counters, h: Hashing, l: int, key: string): int {
    MedianOfThree(
      h.sign(key, 0) * At(counts, l, 0, h.pos(l, key, 0)),
      h.sign(key, 1) * At(counts, l, 1, h.pos(l, key, 1)),
      h.sign(key, 2) * At(counts, l, 2, h.pos(l, key, 2)))
  }

  /** The same keys with counts read off these counters. */
  ghost predicate Reestimated(before: seq<Item>, after: seq<Item>, counts: Counters, h: Hashing, l: int) {
    |after| == |before|
    && forall j :: 0 <= j < |before| ==> after[j] == Item(before[j].key, EstimateIn(counts, h, l, before[j].key))
  }

  method Reestimate(heap: seq<Item>, counts: Counters, h: Hashing, l: int) returns (r: seq<Item>)
    ensures Reestimated(heap, r, counts, h, l)
  {
    r := [];
    for j := 0 to |heap|
      invariant |r| == j
      invariant forall i :: 0 <= i < j ==> r[i] == Item(heap[i].key, EstimateIn(counts, h, l, heap[i].key))
    {
      r := r + [Item(heap[j].key, EstimateIn(counts, h, l, heap[j].key))];
    }
  }

  /**
    Layer by layer: the counters of the first sketch minus those of the second, and its heap
    re-estimated from them.
   */
  method Subtract(a: Content, b: Content, h: Hashing) returns (d: Content)
    requires Shaped(a.counts) && Shaped(b.counts) && |a.heaps| == LAYERS
    ensures IsDifference(a, b, d)
    ensures forall l :: 0 <= l < LAYERS ==> Reestimated(a.heaps[l], d.heaps[l], d.counts, h, l)
  {
    var counts := SubtractCounters(a.counts, b.counts);
    var heaps: seq<seq<Item>> := [];
    for i := 0 to LAYERS
      invariant |heaps| == i
      invariant forall l :: 0 <= l < i ==> Reestimated(a.heaps[l], heaps[l], counts, h, l)
    {
      var heap := Reestimate(a.heaps[i], counts, h, i);
      heaps := heaps + [heap];
    }
    d := Content(counts, a.bucketSize - b.bucketSize, heaps);
  }

  method SubtractCounters(a: Counters, b: Counters) returns (counts: Counters)
    requires Shaped(a) && Shaped(b)
    ensures Shaped(counts)
    ensures forall l, r, c :: Cell(l, r, c) ==> counts[l][r][c] == a[l][r][c] - b[l][r][c]
  {
    counts := [];
    for i := 0 to LAYERS
      invariant |counts| == i && forall l :: 0 <= l < i ==> |counts[l]| == ROWS
      invariant forall l, r :: 0 <= l < i && 0 <= r < ROWS ==> |counts[l][r]| == Columns(l)
      invariant forall l, r, c :: 0 <= l < i && Cell(l, r, c) ==> counts[l][r][c] == a[l][r][c] - b[l][r][c]
    {
      var layer := SubtractLayer(a[i], b[i]);
      counts := counts + [layer];
    }
  }
}
