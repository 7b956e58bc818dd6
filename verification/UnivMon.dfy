/** The universal sketch: internal/promsketch/UnivMon.go. */
module UnivMon {
  import opened FiniteSums
  import opened Numbers
  import opened CountSketch
  import opened TopK

  // ------------------------------------------------------------------ layers and hash bits

  /** (hash >> b) & 1 */
  function Bit(hash: nat, b: nat): (r: nat)
    ensures r < 2
  {
    (hash / Pow2(b)) % 2
  }

  /** A key lives in layer l when bits 1..l of its hash are all 1. */
  ghost predicate Reaches(hash: nat, l: nat) {
    forall b :: 1 <= b <= l ==> Bit(hash, b) == 1
  }

  /** The last layer of a key: it reaches exactly the layers up to the result. */
  method FindBottomLayerNum(hash: nat, layer: int) returns (bottom: int)
    ensures layer >= 1 ==> 0 <= bottom < layer
    ensures layer >= 1 ==> forall l :: 0 <= l < layer ==> (Reaches(hash, l) <==> l <= bottom)
    ensures layer < 1 ==> bottom == layer - 1
  {
    var l := 1;
    while l < layer
      invariant 1 <= l && (layer >= 1 ==> l <= layer)
      invariant forall b :: 1 <= b < l ==> Bit(hash, b) == 1
    {
      if Bit(hash, l) == 0 {
        return l - 1;
      }
      l := l + 1;
    }
    return layer - 1;
  }

  // ------------------------------------------------------------------ the cardinality threshold

  /** int64(0.01 * sqrt(norm)): the largest t with 100 * t at most the root. */
  function CardThreshold(norm: int): (t: int)
    ensures t >= 0
    ensures norm >= 0 ==> 10000 * (t * t) <= norm < 10000 * ((t + 1) * (t + 1))
  {
    RootFrom(norm, 0)
  }

  function RootFrom(norm: int, t: nat): (r: int)
    ensures r >= t
    ensures norm >= 10000 * (t * t) ==> 10000 * (r * r) <= norm
    ensures norm < 10000 * ((r + 1) * (r + 1))
    decreases norm - t
  {
    if norm < 10000 * ((t + 1) * (t + 1)) then t else RootFrom(norm, t + 1)
  }

  /** A count is above the threshold exactly when 100 times the count is above the root. */
  lemma ThresholdIs(norm: int, c: int)
    requires norm >= 0 && c >= 0
    ensures c > CardThreshold(norm) <==> 10000 * (c * c) > norm
  {
    var t := CardThreshold(norm);
    if c <= t {
      SquareGrows(c, t);
    } else {
      SquareGrows(t + 1, c);
    }
  }

  lemma SquareGrows(a: int, b: int)
    requires 0 <= a <= b
    ensures a * a <= b * b
  {
  }

  // ------------------------------------------------------------------ the G-sum recursion

  /** What one heap item adds to the sum of layer i: signed by the next hash bit, except in the last layer. */
  function Term(x: Item, hash: string -> nat, i: nat, last: bool, threshold: int, g: real -> real): real {
    if x.count <= threshold then 0.0
    else if last then g(x.count as real)
    else (1.0 - 2.0 * Bit(hash(x.key), i + 1) as real) * g(x.count as real)
  }

  function LayerSum(h: seq<Item>, hash: string -> nat, i: nat, last: bool, threshold: int, g: real -> real): real {
    if h == [] then 0.0
    else LayerSum(h[..|h| - 1], hash, i, last, threshold, g) + Term(h[|h| - 1], hash, i, last, threshold, g)
  }

  /** Y[i] of the backward recursion, thresholds given per layer. */
  ghost function Y(heaps: seq<seq<Item>>, hash: string -> nat, thresholds: seq<int>, g: real -> real, i: nat): real
    requires i < |heaps| == |thresholds|
    decreases |heaps| - i
  {
    if i == |heaps| - 1 then LayerSum(heaps[i], hash, i, true, thresholds[i], g)
    else 2.0 * Y(heaps, hash, thresholds, g, i + 1) + LayerSum(heaps[i], hash, i, false, thresholds[i], g)
  }

  ghost function KeysAt(counts: map<string, int>, hash: string -> nat, l: nat): set<string> {
    set key | key in counts && Reaches(hash(key), l)
  }

  /** The heap holds exactly these keys, each with its exact count. */
  ghost predicate Holds(h: seq<Item>, keys: set<string>, counts: map<string, int>) {
    && DistinctKeys(h) && keys <= counts.Keys
    && (forall x :: x in h ==> x.key in keys && x.count == counts[x.key])
    && (forall key :: key in keys ==> Item(key, counts[key]) in h)
  }

  ghost predicate HeapExact(h: seq<Item>, counts: map<string, int>, hash: string -> nat, l: nat) {
    Holds(h, KeysAt(counts, hash, l), counts)
  }

  ghost function CountTerm(counts: map<string, int>, hash: string -> nat, i: nat, last: bool, threshold: int,
                           g: real -> real): string -> real {
    key => if key in counts then Term(Item(key, counts[key]), hash, i, last, threshold, g) else 0.0
  }

  lemma HoldsButLast(h: seq<Item>, keys: set<string>, counts: map<string, int>)
    requires Holds(h, keys, counts) && h != []
    ensures h[|h| - 1].key in keys
    ensures Holds(h[..|h| - 1], keys - {h[|h| - 1].key}, counts)
  {
    var n := |h| - 1;
    assert h[n] in h;
    forall x | x in h[..n]
      ensures x.key in keys - {h[n].key} && x.count == counts[x.key]
    {
      assert x in h;
    }
    forall key | key in keys - {h[n].key}
      ensures Item(key, counts[key]) in h[..n]
    {
      assert Item(key, counts[key]) in h;
    }
  }

  /** A sum over a heap without repeated keys is a sum over its set of keys. */
  lemma {:induction false} LayerSumOverKeys(h: seq<Item>, keys: set<string>, counts: map<string, int>,
                                            hash: string -> nat, i: nat, last: bool, threshold: int, g: real -> real)
    requires Holds(h, keys, counts)
    ensures LayerSum(h, hash, i, last, threshold, g) == RealSum(keys, CountTerm(counts, hash, i, last, threshold, g))
    ensures |h| == |keys|
    decreases |h|
  {
    if h == [] {
      assert forall key :: key in keys ==> Item(key, counts[key]) in h;
      assert keys == {};
    } else {
      var n := |h| - 1;
      HoldsButLast(h, keys, counts);
      LayerSumOverKeys(h[..n], keys - {h[n].key}, counts, hash, i, last, threshold, g);
      RealSumRemove(keys, CountTerm(counts, hash, i, last, threshold, g), h[n].key);
      assert h[n] in h;
    }
  }

  ghost function Weight(counts: map<string, int>, g: real -> real): string -> real {
    key => if key in counts then g(counts[key] as real) else 0.0
  }

  lemma SignedTerm(x: Item, hash: string -> nat, i: nat, threshold: int, g: real -> real)
    requires x.count > threshold
    ensures Term(x, hash, i, false, threshold, g)
      == if Bit(hash(x.key), i + 1) == 1 then -g(x.count as real) else g(x.count as real)
  {
  }

  /** The same for some of the keys only. */
  ghost function KeptWeight(counts: map<string, int>, g: real -> real, kept: set<string>): string -> real {
    key => if key in counts && key in kept then g(counts[key] as real) else 0.0
  }

  /** These are the keys whose counts are above the threshold. */
  ghost predicate KeptAbove(keys: set<string>, counts: map<string, int>, threshold: int, kept: set<string>) {
    forall key :: key in keys && key in counts ==> (counts[key] > threshold <==> key in kept)
  }

  /** Splitting a layer by the next bit: twice the 1-half plus the signed sum is the plain sum. */
  lemma {:induction false} SplitByBit(keys: set<string>, ones: set<string>, counts: map<string, int>,
                                      hash: string -> nat, i: nat, threshold: int, g: real -> real, kept: set<string>)
    requires keys <= counts.Keys && KeptAbove(keys, counts, threshold, kept)
    requires ones == set key | key in keys && Bit(hash(key), i + 1) == 1
    ensures 2.0 * RealSum(ones, KeptWeight(counts, g, kept))
      + RealSum(keys, CountTerm(counts, hash, i, false, threshold, g)) == RealSum(keys, KeptWeight(counts, g, kept))
    decreases |keys|
  {
    if keys != {} {
      var x :| x in keys;
      RealSumRemove(keys, CountTerm(counts, hash, i, false, threshold, g), x);
      RealSumRemove(keys, KeptWeight(counts, g, kept), x);
      SplitByBit(keys - {x}, ones - {x}, counts, hash, i, threshold, g, kept);
      if x in kept {
        SignedTerm(Item(x, counts[x]), hash, i, threshold, g);
      }
      if x in ones {
        RealSumRemove(ones, KeptWeight(counts, g, kept), x);
      } else {
        assert ones - {x} == ones;
      }
    } else {
      assert ones == {};
    }
  }

  lemma {:induction false} LastLayer(keys: set<string>, counts: map<string, int>, hash: string -> nat,
                                     i: nat, threshold: int, g: real -> real, kept: set<string>)
    requires keys <= counts.Keys && KeptAbove(keys, counts, threshold, kept)
    ensures RealSum(keys, CountTerm(counts, hash, i, true, threshold, g)) == RealSum(keys, KeptWeight(counts, g, kept))
    decreases |keys|
  {
    if keys != {} {
      var x :| x in keys;
      RealSumRemove(keys, CountTerm(counts, hash, i, true, threshold, g), x);
      RealSumRemove(keys, KeptWeight(counts, g, kept), x);
      LastLayer(keys - {x}, counts, hash, i, threshold, g, kept);
    }
  }

  lemma NextKeys(counts: map<string, int>, hash: string -> nat, i: nat)
    ensures KeysAt(counts, hash, i + 1) == set key | key in KeysAt(counts, hash, i) && Bit(hash(key), i + 1) == 1
  {
    forall key
      ensures Reaches(hash(key), i + 1) <==> Reaches(hash(key), i) && Bit(hash(key), i + 1) == 1
    {
    }
  }

  /**
    Exactness of the recursion, from any layer on: if every heap is exact and the thresholds of these
    layers keep the same keys, Y[i] is the plain sum of g over the kept keys that reach layer i,
    for any hash, any g and any number of layers.
   */
  lemma {:induction false} GSumExact(heaps: seq<seq<Item>>, hash: string -> nat, thresholds: seq<int>, g: real -> real,
                                     counts: map<string, int>, i: nat, kept: set<string>)
    requires i < |heaps| == |thresholds|
    requires forall l :: 0 <= l < |heaps| ==> HeapExact(heaps[l], counts, hash, l)
    requires forall l :: i <= l < |heaps| ==> KeptAbove(counts.Keys, counts, thresholds[l], kept)
    ensures Y(heaps, hash, thresholds, g, i) == RealSum(KeysAt(counts, hash, i), KeptWeight(counts, g, kept))
    decreases |heaps| - i
  {
    var keys, last := KeysAt(counts, hash, i), i == |heaps| - 1;
    LayerSumOverKeys(heaps[i], keys, counts, hash, i, last, thresholds[i], g);
    if last {
      LastLayer(keys, counts, hash, i, thresholds[i], g, kept);
    } else {
      GSumExact(heaps, hash, thresholds, g, counts, i + 1, kept);
      NextKeys(counts, hash, i);
      SplitByBit(keys, KeysAt(counts, hash, i + 1), counts, hash, i, thresholds[i], g, kept);
    }
  }

  /** What the cardinality threshold of the first layer makes of a key: small ones go, or count twice. */
  ghost function CardWeight(counts: map<string, int>, hash: string -> nat, layers: nat, norm: int, g: real -> real)
    : string -> real
  {
    key =>
      if key !in counts then 0.0
      else if 10000 * (counts[key] * counts[key]) > norm then g(counts[key] as real)
      else if layers > 1 && Bit(hash(key), 1) == 1 then 2.0 * g(counts[key] as real)
      else 0.0
  }

  lemma CardTerm(counts: map<string, int>, hash: string -> nat, layers: nat, norm: int, g: real -> real, key: string)
    requires layers >= 1 && norm >= 0 && key in counts && counts[key] > 0
    ensures var one := layers > 1 && Bit(hash(key), 1) == 1;
      CardWeight(counts, hash, layers, norm, g)(key)
        == CountTerm(counts, hash, 0, layers == 1, CardThreshold(norm), g)(key)
          + if one then 2.0 * Weight(counts, g)(key) else 0.0
  {
    ThresholdIs(norm, counts[key]);
    if counts[key] > CardThreshold(norm) && layers > 1 {
      SignedTerm(Item(key, counts[key]), hash, 0, CardThreshold(norm), g);
    }
  }

  /**
    With the cardinality threshold in the first layer only: a key of count c with 10000 * c^2 at most the
    norm is left out when its next bit is 0, and counts twice when it is 1.
   */
  lemma CardSum(heaps: seq<seq<Item>>, hash: string -> nat, thresholds: seq<int>, g: real -> real,
                counts: map<string, int>, norm: int)
    requires 1 <= |heaps| == |thresholds| && norm >= 0
    requires forall l :: 0 <= l < |heaps| ==> HeapExact(heaps[l], counts, hash, l)
    requires forall l :: 1 <= l < |heaps| ==> thresholds[l] == 0
    requires thresholds[0] == CardThreshold(norm) && forall key :: key in counts ==> counts[key] > 0
    ensures Y(heaps, hash, thresholds, g, 0) == RealSum(counts.Keys, CardWeight(counts, hash, |heaps|, norm, g))
  {
    var keys, layers := counts.Keys, |heaps|;
    assert KeysAt(counts, hash, 0) == keys;
    var first, all := CountTerm(counts, hash, 0, layers == 1, CardThreshold(norm), g), Weight(counts, g);
    var card := CardWeight(counts, hash, layers, norm, g);
    LayerSumOverKeys(heaps[0], keys, counts, hash, 0, layers == 1, thresholds[0], g);
    forall key | key in keys
      ensures card(key) == first(key) + if layers > 1 && Bit(hash(key), 1) == 1 then 2.0 * all(key) else 0.0
    {
      CardTerm(counts, hash, layers, norm, g, key);
    }
    if layers == 1 {
      RealSumEq(keys, card, first);
    } else {
      GSumExact(heaps, hash, thresholds, g, counts, 1, keys);
      NextKeys(counts, hash, 0);
      var ones := KeysAt(counts, hash, 1);
      RealSumEq(ones, KeptWeight(counts, g, keys), all);
      RealSumTwice(keys, ones, all, first, card);
    }
  }

  // ------------------------------------------------------------------ one key fed into one heap

  lemma HeapSize(h: seq<Item>, keys: set<string>, counts: map<string, int>)
    requires Holds(h, keys, counts)
    ensures |h| == |keys|
  {
    LayerSumOverKeys(h, keys, counts, (key: string) => 0, 0, true, 0, (v: real) => 0.0);
  }

  lemma {:induction false} DistinctOnce(h: seq<Item>, x: Item)
    requires DistinctKeys(h)
    ensures multiset(h)[x] <= 1
  {
    if h != [] {
      var n := |h| - 1;
      assert h == h[..n] + [h[n]];
      DistinctOnce(h[..n], x);
      assert h[n] !in h[..n];
    }
  }

  /** Members that are right for the keys and counts make an exact heap. */
  lemma HoldsAfter(h: seq<Item>, keys: set<string>, key: string, n: int, counts: map<string, int>, before: seq<Item>)
    requires Holds(before, keys, counts) && DistinctKeys(h)
    requires forall y :: y in h <==> y == Item(key, n) || (y in before && y.key != key)
    ensures Holds(h, keys + {key}, counts[key := n])
  {
    forall x | x in h
      ensures x.key in keys + {key} && x.count == counts[key := n][x.key]
    {
    }
    forall other | other in keys + {key}
      ensures Item(other, counts[key := n][other]) in h
    {
      assert other != key ==> Item(other, counts[other]) in before;
    }
  }

  lemma KeysAfter(counts: map<string, int>, key: string, n: int, hash: string -> nat, l: nat)
    requires Reaches(hash(key), l)
    ensures KeysAt(counts[key := n], hash, l) == KeysAt(counts, hash, l) + {key}
  {
  }

  /** A heap with room stays exact when a key's new exact count is fed in. */
  lemma FeedKeepsExact(before: seq<Item>, after: seq<Item>, key: string, n: int, cap: nat,
                       counts: map<string, int>, hash: string -> nat, l: nat)
    requires cap >= 1 && Ordered(before, cap) && Ordered(after, cap)
    requires UpdateOutcome(before, Item(key, n), after, cap)
    requires HeapExact(before, counts, hash, l) && Reaches(hash(key), l)
    requires |KeysAt(counts[key := n], hash, l)| <= cap
    ensures HeapExact(after, counts[key := n], hash, l)
  {
    var keys := KeysAt(counts, hash, l);
    KeysAfter(counts, key, n, hash, l);
    FedMembers(before, after, keys, key, n, cap, counts);
    HoldsAfter(after, keys, key, n, counts, before);
  }

  lemma FedMembers(before: seq<Item>, after: seq<Item>, keys: set<string>, key: string, n: int, cap: nat,
                   counts: map<string, int>)
    requires cap >= 1 && UpdateOutcome(before, Item(key, n), after, cap)
    requires Holds(before, keys, counts) && |keys + {key}| <= cap
    ensures forall y :: y in after <==> y == Item(key, n) || (y in before && y.key != key)
  {
    if HasKey(before, key) {
      ReplacedMembers(before, after, key, n);
    } else {
      KeyIsAbsent(before, keys, key, counts);
      HeapSize(before, keys, counts);
      InsertedMembers(before, after, Item(key, n));
    }
  }

  lemma KeyIsAbsent(h: seq<Item>, keys: set<string>, key: string, counts: map<string, int>)
    requires Holds(h, keys, counts) && !HasKey(h, key)
    ensures key !in keys && |keys + {key}| == |keys| + 1
    ensures forall y :: y in h ==> y.key != key
  {
    assert forall other :: other in keys ==> Item(other, counts[other]) in h;
  }

  lemma ReplacedMembers(before: seq<Item>, after: seq<Item>, key: string, n: int)
    requires DistinctKeys(before) && Replaced(before, after, key, n)
    ensures forall y :: y in after <==> y == Item(key, n) || (y in before && y.key != key)
  {
    var c :| Item(key, c) in before
      && multiset(after) == multiset(before) - multiset{Item(key, c)} + multiset{Item(key, n)};
    DistinctOnce(before, Item(key, c));
    forall y
      ensures y in after <==> y == Item(key, n) || (y in before && y.key != key)
    {
      SameKeySameItem(before, Item(key, c), y);
      assert y in after <==> y in multiset(after);
      assert y in before <==> y in multiset(before);
    }
  }

  lemma SameKeySameItem(h: seq<Item>, x: Item, y: Item)
    requires DistinctKeys(h) && x in h
    ensures y in h && y.key == x.key ==> y == x
  {
  }

  lemma InsertedMembers(before: seq<Item>, after: seq<Item>, x: Item)
    requires multiset(after) == multiset(before) + multiset{x}
    ensures forall y :: y in after <==> y == x || y in before
  {
    assert forall y :: y in after <==> y in multiset(after);
    assert forall y :: y in before <==> y in multiset(before);
  }

  lemma OthersKeepExact(h: seq<Item>, key: string, n: int, counts: map<string, int>, hash: string -> nat, l: nat)
    requires HeapExact(h, counts, hash, l) && !Reaches(hash(key), l)
    ensures HeapExact(h, counts[key := n], hash, l)
  {
  }

  // ------------------------------------------------------------------ the sketch

  function Get(counts: map<string, int>, key: string): int {
    if key in counts then counts[key] else 0
  }

  /** The counts after one more update. */
  ghost function Added(counts: map<string, int>, key: string, weight: int): map<string, int> {
    counts[key := Get(counts, key) + weight]
  }

  const ELEPHANT_LAYER: nat := 8

  /** One layer as a value: the updates its counters absorbed and its heap. */
  datatype Layer = Layer(log: Log, heap: seq<Item>)

  /** A clean counter matrix of the given dimensions, capped. */
  ghost predicate IsNewLayer(c: CountSketchUniv, col: int, hash1: (string, nat) -> nat, hash2: (string, nat) -> nat)
    reads c, c.count, c.l2
  {
    && c.Valid() && c.NormIsExact() && c.log == Clean && c.row == 3 && (forall r :: 0 <= r < 3 ==> c.l2[r] == 0)
    && c.hash1 == hash1 && c.hash2 == hash2 && c.col == if col > 2048 then 2048 else col
  }

  /** Counters and heaps of new layers, none shared. */
  method NewLayers(row: int, cols: seq<int>, sizes: seq<nat>, hash1: (string, nat) -> nat, hash2: (string, nat) -> nat)
    returns (cs: seq<CountSketchUniv>, hh: seq<TopKHeap>)
    requires row >= 3 && |cols| == |sizes|
    requires forall l :: 0 <= l < |cols| ==> cols[l] >= 1 && sizes[l] >= 1
    ensures |cs| == |hh| == |cols|
    ensures forall i :: 0 <= i < |cs| ==> fresh(cs[i]) && fresh(hh[i]) && fresh(cs[i].count) && fresh(cs[i].l2)
    ensures forall i :: 0 <= i < |cs| ==> IsNewLayer(cs[i], cols[i], hash1, hash2)
    ensures forall i :: 0 <= i < |hh| ==> hh[i].Valid() && hh[i].heap == [] && hh[i].k == sizes[i]
    ensures forall i, j :: 0 <= i < j < |cs| ==>
      cs[i] != cs[j] && hh[i] != hh[j] && cs[i].count != cs[j].count && cs[i].l2 != cs[j].l2
  {
    cs, hh := [], [];
    for l := 0 to |cols|
      invariant |cs| == |hh| == l
      invariant forall i :: 0 <= i < l ==> fresh(cs[i]) && fresh(hh[i]) && fresh(cs[i].count) && fresh(cs[i].l2)
      invariant forall i :: 0 <= i < l ==> IsNewLayer(cs[i], cols[i], hash1, hash2)
      invariant forall i :: 0 <= i < l ==> hh[i].Valid() && hh[i].heap == [] && hh[i].k == sizes[i]
      invariant forall i, j :: 0 <= i < j < l ==>
        cs[i] != cs[j] && hh[i] != hh[j] && cs[i].count != cs[j].count && cs[i].l2 != cs[j].l2
    {
      var c := new CountSketchUniv(row, cols[l], hash1, hash2);
      var h := new TopKHeap(sizes[l]);
      cs, hh := cs + [c], hh + [h];
    }
  }

  /**
    A universal sketch fed either by update (every layer of the key) or by update_optimized
    (counters of the first and the bottom layer only; the heaps in between reuse the bottom estimate).
   */
  class UnivSketch {
    const layer: nat
    const csLayers: seq<CountSketchUniv>
    const hhLayers: seq<TopKHeap>
    /** The seeded hash that decides how deep a key goes. */
    const hash: string -> nat
    ghost const optimized: bool
    var bucketSize: int
    /** The exact weight of every key fed so far. */
    ghost var counts: map<string, int>

    ghost predicate Shape() {
      && layer >= 1 && |csLayers| == |hhLayers| == layer
      && (forall l :: 0 <= l < layer ==> csLayers[l].Shape() && csLayers[l].row == 3 && hhLayers[l].k >= 1)
      && (forall l :: 0 <= l < layer ==>
            csLayers[l].hash1 == csLayers[0].hash1 && csLayers[l].hash2 == csLayers[0].hash2)
      && (forall l :: 0 <= l < layer && (l < ELEPHANT_LAYER || !optimized) ==> csLayers[l].col == csLayers[0].col)
      && (forall i, j :: 0 <= i < j < layer ==>
            && csLayers[i] != csLayers[j] && hhLayers[i] != hhLayers[j]
            && csLayers[i].count != csLayers[j].count && csLayers[i].l2 != csLayers[j].l2)
    }

    /**
      NewUnivSketchPyramid: 2048 columns and the given heap size, or beyond eight layers
      512 columns below the eighth and heaps of 100.
     */
    constructor (k: nat, layer: nat, optimized: bool, hash: string -> nat, hash1: (string, nat) -> nat,
                 hash2: (string, nat) -> nat)
      requires k >= 1 && layer >= 1 && (optimized || layer <= ELEPHANT_LAYER)
      ensures Valid() && counts == map[] && bucketSize == 0
      ensures this.layer == layer && this.hash == hash && this.optimized == optimized
      ensures forall l :: 0 <= l < layer ==> csLayers[l].col == (if l < ELEPHANT_LAYER then 2048 else 512)
      ensures forall l :: 0 <= l < layer ==> csLayers[l].hash1 == hash1 && csLayers[l].hash2 == hash2
      ensures forall l :: 0 <= l < layer ==> hhLayers[l].k == (if layer <= ELEPHANT_LAYER then k else 100)
      ensures forall l :: 0 <= l < this.layer ==> ViewAt(l) == Layer(Clean, [])
      ensures fresh(Parts())
    {
      var cols := seq(layer, l => if l < ELEPHANT_LAYER then 2048 else 512);
      var sizes := seq(layer, _ => if layer <= ELEPHANT_LAYER then k else 100);
      var cs, hh := NewLayers(3, cols, sizes, hash1, hash2);
      this.layer, this.optimized, this.hash := layer, optimized, hash;
      csLayers, hhLayers := cs, hh;
      bucketSize, counts := 0, map[];
      new;
      EmptyIsExact(View());
    }

    /** NewUnivSketch: the same dimensions and heap size in every layer, for either update. */
    constructor Uniform(k: nat, row: int, col: int, layer: nat, optimized: bool, hash: string -> nat,
                        hash1: (string, nat) -> nat, hash2: (string, nat) -> nat)
      requires k >= 1 && layer >= 1 && row >= 3 && col >= 1
      ensures Valid() && counts == map[] && bucketSize == 0
      ensures this.layer == layer && this.hash == hash && this.optimized == optimized
      ensures forall l :: 0 <= l < layer ==> csLayers[l].col == (if col > 2048 then 2048 else col) && hhLayers[l].k == k
      ensures forall l :: 0 <= l < this.layer ==> ViewAt(l) == Layer(Clean, [])
      ensures fresh(Parts())
    {
      var cs, hh := NewLayers(row, seq(layer, _ => col), seq(layer, _ => k), hash1, hash2);
      this.layer, this.optimized, this.hash := layer, optimized, hash;
      csLayers, hhLayers := cs, hh;
      bucketSize, counts := 0, map[];
      new;
      EmptyIsExact(View());
    }

    /** Everything the layers are made of. */
    ghost function Parts(): set<object>
      requires Shape()
    {
      (set l | 0 <= l < layer :: csLayers[l] as object)
      + (set l | 0 <= l < layer :: hhLayers[l] as object)
      + (set l | 0 <= l < layer :: csLayers[l].count as object)
      + (set l | 0 <= l < layer :: csLayers[l].l2 as object)
    }

    ghost function ViewAt(l: nat): Layer
      requires Shape() && l < layer
      reads csLayers[l], hhLayers[l]
    {
      Layer(csLayers[l].log, hhLayers[l].heap)
    }

    /** What the layers hold, as values. */
    ghost function View(): (v: seq<Layer>)
      requires Shape()
      reads Parts()
      ensures |v| == layer && forall l :: 0 <= l < layer ==> v[l] == ViewAt(l)
    {
      seq(layer, l requires 0 <= l < layer reads Parts() => ViewAt(l))
    }

    ghost predicate LayersValid()
      requires Shape()
      reads Parts()
    {
      forall l :: 0 <= l < layer ==> csLayers[l].Valid() && hhLayers[l].Valid() && NormKept(l)
    }

    /** The first layer keeps its row norms exact, the others never touch theirs. */
    ghost predicate NormKept(l: nat)
      requires Shape() && l < layer
      reads csLayers[l].count, csLayers[l].l2
    {
      if l == 0 then csLayers[0].NormIsExact() else forall r :: 0 <= r < 3 ==> csLayers[l].l2[r] == 0
    }

    /** The layers whose counters an update of the key touches. */
    ghost predicate Counts(key: string, l: nat)
      requires l < layer
    {
      && Reaches(hash(key), l)
      && (!optimized || l == 0 || l == layer - 1 || !Reaches(hash(key), l + 1))
    }

    ghost function PosAt(l: nat, key: string): (pos: seq<nat>)
      requires Shape() && l < layer
      ensures |pos| == 3
    {
      csLayers[l].Positions(key)
    }

    ghost function SignAt(key: string): (sign: seq<int>)
      requires Shape()
      ensures |sign| == 3 && forall r :: 0 <= r < 3 ==> sign[r] == 1 || sign[r] == -1
    {
      csLayers[0].Signs(key)
    }

    /** Every counted layer has the exact weight of every key in its log. */
    ghost predicate TotalsExact(v: seq<Layer>, counts: map<string, int>)
      requires |v| == layer
    {
      forall l, key :: 0 <= l < layer && Counts(key, l) ==> Total(v[l].log, key) == Get(counts, key)
    }

    ghost predicate AloneIn(v: seq<Layer>, l: nat, key: string, r: nat)
      requires Shape() && |v| == layer && l < layer && r < 3
    {
      AloneAt(v[l].log, key, PosAt(l, key), SignAt(key), r)
    }

    /** In at least two of the three rows of layer l no other key shares the key's counter. */
    ghost predicate CollisionFree(v: seq<Layer>, l: nat, key: string)
      requires Shape() && |v| == layer && l < layer
    {
      || (AloneIn(v, l, key, 0) && AloneIn(v, l, key, 1))
      || (AloneIn(v, l, key, 0) && AloneIn(v, l, key, 2))
      || (AloneIn(v, l, key, 1) && AloneIn(v, l, key, 2))
    }

    /** No heap overflows and no key is spoiled by collisions where its counters are read. */
    ghost predicate Clear(v: seq<Layer>, counts: map<string, int>)
      requires Shape() && |v| == layer
    {
      && (forall l :: 0 <= l < layer ==> |KeysAt(counts, hash, l)| <= hhLayers[l].k)
      && (forall l, key :: 0 <= l < layer && key in counts && Counts(key, l) ==> CollisionFree(v, l, key))
    }

    ghost predicate HeapsExact(v: seq<Layer>, counts: map<string, int>)
      requires |v| == layer
    {
      forall l :: 0 <= l < layer ==> HeapExact(v[l].heap, counts, hash, l)
    }

    /**
      Valid in every reachable state: the counters know every exact weight, and as long as
      there is room and no spoiling collision the heaps hold exactly the keys of their layer.
     */
    ghost predicate Valid()
      reads this, if Shape() then Parts() else {}
    {
      && Shape() && LayersValid()
      && TotalsExact(View(), counts)
      && (Clear(View(), counts) ==> HeapsExact(View(), counts))
    }

    // ---------------------------------------------------------------- one update on values

    /** The layer whose estimate reaches the heap of layer l. */
    ghost function Source(key: string, l: nat, bottom: nat): nat
      requires l < layer
    {
      if Counts(key, l) then l else bottom
    }

    /** Layer l after an update of the key that goes down to `bottom`; v is the state after it. */
    ghost predicate FedAt(before: Layer, v: seq<Layer>, l: nat, key: string, weight: int, bottom: nat)
      requires Shape() && |v| == layer && l < layer && bottom < layer
    {
      if l > bottom then v[l] == before
      else
        var src := Source(key, l, bottom);
        && v[l].log == (
             if Counts(key, l) then Then(before.log, Entry(key, PosAt(l, key), SignAt(key), weight)) else before.log)
        && Ordered(v[l].heap, hhLayers[l].k)
        && UpdateOutcome(before.heap, Item(key, Estimate(v[src].log, PosAt(src, key), SignAt(key))), v[l].heap,
          hhLayers[l].k)
    }

    ghost predicate Fed(u: seq<Layer>, v: seq<Layer>, key: string, weight: int, bottom: nat)
      requires Shape() && |u| == |v| == layer && bottom < layer
    {
      forall l :: 0 <= l < layer ==> FedAt(u[l], v, l, key, weight, bottom)
    }

    /** What one update of weight 1 adds to counter (r, c) of layer l: fixed by the hash functions. */
    ghost function Share(key: string, l: nat, r: nat, c: nat): int
      requires Shape() && l < layer && r < 3
    {
      if Counts(key, l) && PosAt(l, key)[r] == c then SignAt(key)[r] else 0
    }

    /**
      An update adds the same amount to a counter whatever the counters were: sketches of the same
      hash functions subtract.
     */
    lemma FedAddsShare(u: seq<Layer>, v: seq<Layer>, key: string, weight: int, bottom: nat, l: nat, r: nat, c: nat)
      requires Shape() && |u| == |v| == layer && IsBottom(key, bottom) && Fed(u, v, key, weight, bottom)
      requires l < layer && r < 3
      ensures Counter(v[l].log, r, c) == Counter(u[l].log, r, c) + Share(key, l, r, c) * weight
    {
      assert FedAt(u[l], v, l, key, weight, bottom);
    }

    ghost predicate ShareAdded(u: seq<Layer>, v: seq<Layer>, key: string, weight: int, l: nat, r: nat, c: nat)
      requires Shape() && |u| == |v| == layer && l < layer && r < 3
    {
      Counter(v[l].log, r, c) == Counter(u[l].log, r, c) + Share(key, l, r, c) * weight
    }

    /** Every counter of every layer has taken the key's share. */
    ghost predicate SharesAdded(u: seq<Layer>, v: seq<Layer>, key: string, weight: int)
      requires Shape() && |u| == |v| == layer
    {
      forall l, r, c: nat :: 0 <= l < layer && 0 <= r < 3 ==> ShareAdded(u, v, key, weight, l, r, c)
    }

    ghost predicate IsBottom(key: string, bottom: nat) {
      bottom < layer && forall l :: 0 <= l < layer ==> (Reaches(hash(key), l) <==> l <= bottom)
    }

    lemma TotalsAfter(u: seq<Layer>, v: seq<Layer>, counts: map<string, int>, key: string, weight: int, bottom: nat)
      requires Shape() && |u| == |v| == layer && IsBottom(key, bottom) && Fed(u, v, key, weight, bottom)
      requires TotalsExact(u, counts)
      ensures TotalsExact(v, Added(counts, key, weight))
    {
      forall l, other | 0 <= l < layer && Counts(other, l)
        ensures Total(v[l].log, other) == Get(Added(counts, key, weight), other)
      {
        assert FedAt(u[l], v, l, key, weight, bottom);
        assert Total(u[l].log, other) == Get(counts, other);
      }
    }

    /** Keys that were collision-free after the update were so before it. */
    lemma ClearBefore(u: seq<Layer>, v: seq<Layer>, counts: map<string, int>, key: string, weight: int, bottom: nat)
      requires Shape() && |u| == |v| == layer && IsBottom(key, bottom) && Fed(u, v, key, weight, bottom)
      requires Clear(v, Added(counts, key, weight))
      ensures Clear(u, counts)
    {
      var after := Added(counts, key, weight);
      forall l | 0 <= l < layer
        ensures |KeysAt(counts, hash, l)| <= hhLayers[l].k
      {
        SubsetSize(KeysAt(counts, hash, l), KeysAt(after, hash, l));
      }
      forall l, other | 0 <= l < layer && other in counts && Counts(other, l)
        ensures CollisionFree(u, l, other)
      {
        assert FedAt(u[l], v, l, key, weight, bottom);
        assert CollisionFree(v, l, other);
      }
    }

    static lemma SubsetSize(a: set<string>, b: set<string>)
      requires a <= b
      ensures |a| <= |b|
    {
      assert b == a + (b - a);
    }

    lemma ExactEstimate(v: seq<Layer>, l: nat, key: string)
      requires Shape() && |v| == layer && l < layer && CollisionFree(v, l, key)
      ensures Estimate(v[l].log, PosAt(l, key), SignAt(key)) == Total(v[l].log, key)
    {
      if AloneIn(v, l, key, 0) {
        if AloneIn(v, l, key, 1) {
          EstimateIsExact(v[l].log, key, PosAt(l, key), SignAt(key), 0, 1);
        } else {
          EstimateIsExact(v[l].log, key, PosAt(l, key), SignAt(key), 0, 2);
        }
      } else {
        EstimateIsExact(v[l].log, key, PosAt(l, key), SignAt(key), 1, 2);
      }
    }

    /** Where the estimate for layer l comes from no other key interferes, so it is the exact weight. */
    lemma SourceIsClear(v: seq<Layer>, after: map<string, int>, key: string, bottom: nat, l: nat)
      requires Shape() && |v| == layer && l <= bottom < layer && IsBottom(key, bottom) && key in after
      requires TotalsExact(v, after) && Clear(v, after)
      ensures var src := Source(key, l, bottom);
        Estimate(v[src].log, PosAt(src, key), SignAt(key)) == after[key]
    {
      var src := Source(key, l, bottom);
      assert Counts(key, src);
      assert CollisionFree(v, src, key);
      ExactEstimate(v, src, key);
      assert Total(v[src].log, key) == Get(after, key);
    }

    /** Layer l after the update: its heap takes an exact estimate, or is left as it was. */
    lemma HeapAfterAt(u: seq<Layer>, v: seq<Layer>, counts: map<string, int>, key: string, weight: int, bottom: nat,
                      l: nat)
      requires Shape() && |u| == |v| == layer && l < layer && IsBottom(key, bottom)
      requires FedAt(u[l], v, l, key, weight, bottom)
      requires Ordered(u[l].heap, hhLayers[l].k) && HeapExact(u[l].heap, counts, hash, l)
      requires TotalsExact(v, Added(counts, key, weight)) && Clear(v, Added(counts, key, weight))
      ensures HeapExact(v[l].heap, Added(counts, key, weight), hash, l)
    {
      var n := Get(counts, key) + weight;
      if l <= bottom {
        SourceIsClear(v, Added(counts, key, weight), key, bottom, l);
        FeedKeepsExact(u[l].heap, v[l].heap, key, n, hhLayers[l].k, counts, hash, l);
      } else {
        OthersKeepExact(u[l].heap, key, n, counts, hash, l);
      }
    }

    lemma HeapsAfter(u: seq<Layer>, v: seq<Layer>, counts: map<string, int>, key: string, weight: int, bottom: nat)
      requires Shape() && |u| == |v| == layer && IsBottom(key, bottom) && Fed(u, v, key, weight, bottom)
      requires forall l :: 0 <= l < layer ==> Ordered(u[l].heap, hhLayers[l].k)
      requires HeapsExact(u, counts)
      requires TotalsExact(v, Added(counts, key, weight)) && Clear(v, Added(counts, key, weight))
      ensures HeapsExact(v, Added(counts, key, weight))
    {
      forall l | 0 <= l < layer
        ensures HeapExact(v[l].heap, Added(counts, key, weight), hash, l)
      {
        assert FedAt(u[l], v, l, key, weight, bottom);
        HeapAfterAt(u, v, counts, key, weight, bottom, l);
      }
    }

    // ---------------------------------------------------------------- the updates

    /** All layers share the hash functions, and the same number of columns gives the same positions. */
    lemma SamePositions(l: nat, key: string)
      requires Shape() && l < layer
      ensures csLayers[l].Signs(key) == SignAt(key)
      ensures csLayers[l].col == csLayers[0].col ==> PosAt(l, key) == PosAt(0, key)
      ensures csLayers[l].Fits(PosAt(l, key), SignAt(key))
    {
    }

    /** Counters of one layer take the update; its estimate is returned. */
    method Count(l: nat, key: string, value: int, pos: seq<nat>, sign: seq<int>) returns (median: int)
      requires Shape() && LayersValid() && l < layer && |pos| == 3 && csLayers[l].Fits(pos, sign)
      modifies csLayers[l], csLayers[l].count, csLayers[l].l2
      ensures LayersValid()
      ensures ViewAt(l) == Layer(Then(old(ViewAt(l).log), Entry(key, pos, sign, value)), old(ViewAt(l).heap))
      ensures median == Estimate(ViewAt(l).log, pos, sign)
      ensures forall j :: 0 <= j < layer && j != l ==> ViewAt(j) == old(ViewAt(j))
    {
      if l == 0 {
        median := csLayers[l].UpdateAndEstimateString(key, value, pos, sign);
      } else {
        median := csLayers[l].UpdateAndEstimateStringNoL2(key, value, pos, sign);
      }
    }

    ghost predicate HeapStep(before: seq<Item>, after: seq<Item>, key: string, count: int, l: nat)
      requires Shape() && l < layer
    {
      Ordered(after, hhLayers[l].k) && UpdateOutcome(before, Item(key, count), after, hhLayers[l].k)
    }

    /** The heap of one layer takes the estimate. */
    method Rank(l: nat, key: string, count: int)
      requires Shape() && LayersValid() && l < layer
      modifies hhLayers[l]
      ensures LayersValid()
      ensures ViewAt(l).log == old(ViewAt(l).log)
      ensures HeapStep(old(ViewAt(l).heap), ViewAt(l).heap, key, count, l)
      ensures forall j :: 0 <= j < layer && j != l ==> ViewAt(j) == old(ViewAt(j))
    {
      var done := hhLayers[l].Update(key, count);
    }

    /** Counters and heap of one layer. */
    method CountAndRank(l: nat, key: string, value: int, pos: seq<nat>, sign: seq<int>)
      requires Shape() && LayersValid() && l < layer && |pos| == 3 && csLayers[l].Fits(pos, sign)
      modifies csLayers[l], csLayers[l].count, csLayers[l].l2, hhLayers[l]
      ensures LayersValid() && forall j :: 0 <= j < layer && j != l ==> ViewAt(j) == old(ViewAt(j))
      ensures ViewAt(l).log == Then(old(ViewAt(l).log), Entry(key, pos, sign, value))
      ensures HeapStep(old(ViewAt(l).heap), ViewAt(l).heap, key, Estimate(ViewAt(l).log, pos, sign), l)
    {
      var median := Count(l, key, value, pos, sign);
      Rank(l, key, median);
    }

    /** update: counters and heap of every layer of the key, top to bottom. */
    method Update(key: string, value: int, bottom: nat, pos: seq<nat>, sign: seq<int>)
      requires Shape() && LayersValid() && !optimized && IsBottom(key, bottom)
      requires pos == PosAt(0, key) && sign == SignAt(key)
      modifies Parts()
      ensures LayersValid() && Fed(old(View()), View(), key, value, bottom)
    {
      ghost var u := View();
      ghost var e := Entry(key, pos, sign, value);
      var l := 0;
      while l <= bottom
        invariant 0 <= l <= bottom + 1 && LayersValid()
        invariant forall j :: l <= j < layer ==> ViewAt(j) == u[j]
        invariant forall j :: 0 <= j < l ==> ViewAt(j).log == Then(u[j].log, e)
        invariant forall j :: 0 <= j < l ==>
          HeapStep(u[j].heap, ViewAt(j).heap, key, Estimate(Then(u[j].log, e), pos, sign), j)
      {
        SamePositions(l, key);
        assert ViewAt(l) == u[l];
        CountAndRank(l, key, value, pos, sign);
        l := l + 1;
      }
      FedInOneSweep(u, View(), key, value, bottom, e);
    }

    /** What the loop of the plain update comes to, layer by layer. */
    lemma FedInOneSweep(u: seq<Layer>, v: seq<Layer>, key: string, value: int, bottom: nat, e: Entry)
      requires Shape() && !optimized && |u| == |v| == layer && IsBottom(key, bottom)
      requires e == Entry(key, PosAt(0, key), SignAt(key), value)
      requires forall j :: bottom < j < layer ==> v[j] == u[j]
      requires forall j :: 0 <= j <= bottom ==> v[j].log == Then(u[j].log, e)
      requires forall j :: 0 <= j <= bottom ==>
        HeapStep(u[j].heap, v[j].heap, key, Estimate(Then(u[j].log, e), e.pos, e.sign), j)
      ensures Fed(u, v, key, value, bottom)
    {
      forall j | 0 <= j < layer
        ensures FedAt(u[j], v, j, key, value, bottom)
      {
        SamePositions(j, key);
      }
    }

    /** The heaps of layers bottom..1 take the same estimate. */
    method RankDown(key: string, median: int, bottom: nat)
      requires Shape() && LayersValid() && bottom < layer
      modifies Parts()
      ensures LayersValid()
      ensures forall j :: 0 <= j < layer ==> ViewAt(j).log == old(ViewAt(j).log)
      ensures forall j :: 0 <= j < layer && (j == 0 || j > bottom) ==> ViewAt(j) == old(ViewAt(j))
      ensures forall j :: 1 <= j <= bottom ==> HeapStep(old(ViewAt(j).heap), ViewAt(j).heap, key, median, j)
    {
      ghost var u := View();
      var l := bottom;
      while l > 0
        invariant 0 <= l <= bottom && LayersValid()
        invariant forall j :: 0 <= j < layer ==> ViewAt(j).log == u[j].log
        invariant forall j :: 0 <= j < layer && (j <= l || j > bottom) ==> ViewAt(j) == u[j]
        invariant forall j :: l < j <= bottom ==> HeapStep(u[j].heap, ViewAt(j).heap, key, median, j)
      {
        assert ViewAt(l) == u[l];
        Rank(l, key, median);
        l := l - 1;
      }
    }

    /** Below the first layer: counters of the bottom layer only, heaps of all of them. */
    method UpdateBelow(key: string, value: int, bottom: nat, pos: seq<nat>, sign: seq<int>)
      requires Shape() && LayersValid() && optimized && IsBottom(key, bottom) && bottom > 0
      requires pos == PosAt(0, key) && sign == SignAt(key)
      modifies Parts()
      ensures LayersValid()
      ensures forall j :: 0 <= j < layer && (j == 0 || j > bottom) ==> ViewAt(j) == old(ViewAt(j))
      ensures forall j :: 0 <= j < bottom ==> ViewAt(j).log == old(ViewAt(j).log)
      ensures var log := Then(old(ViewAt(bottom).log), Entry(key, PosAt(bottom, key), SignAt(key), value));
        && ViewAt(bottom).log == log
        && forall j :: 1 <= j <= bottom ==>
          HeapStep(old(ViewAt(j).heap), ViewAt(j).heap, key, Estimate(log, PosAt(bottom, key), SignAt(key)), j)
    {
      SamePositions(bottom, key);
      ghost var u := View();
      assert ViewAt(bottom) == u[bottom];
      var p, s := pos, sign;
      if bottom >= ELEPHANT_LAYER {
        p, s := csLayers[bottom].PositionAndSign(key);
      }
      var median := Count(bottom, key, value, p, s);
      RankDown(key, median, bottom);
    }

    /** Counters and heap of the first layer. */
    method UpdateTop(key: string, value: int, pos: seq<nat>, sign: seq<int>)
      requires Shape() && LayersValid() && pos == PosAt(0, key) && sign == SignAt(key)
      modifies Parts()
      ensures LayersValid() && forall j :: 1 <= j < layer ==> ViewAt(j) == old(ViewAt(j))
      ensures ViewAt(0).log == Then(old(ViewAt(0).log), Entry(key, pos, sign, value))
      ensures HeapStep(old(ViewAt(0).heap), ViewAt(0).heap, key, Estimate(ViewAt(0).log, pos, sign), 0)
    {
      SamePositions(0, key);
      CountAndRank(0, key, value, pos, sign);
    }

    /** What the two steps of the optimized update come to, layer by layer. */
    lemma FedInTwoSteps(u: seq<Layer>, v: seq<Layer>, key: string, value: int, bottom: nat)
      requires Shape() && optimized && |u| == |v| == layer && IsBottom(key, bottom)
      requires forall j :: 1 <= j < layer && j > bottom ==> v[j] == u[j]
      requires forall j :: 1 <= j < bottom ==> v[j].log == u[j].log
      requires bottom > 0 ==> v[bottom].log == Then(u[bottom].log, Entry(key, PosAt(bottom, key), SignAt(key), value))
      requires forall j :: 1 <= j <= bottom ==>
        HeapStep(u[j].heap, v[j].heap, key, Estimate(v[bottom].log, PosAt(bottom, key), SignAt(key)), j)
      requires v[0].log == Then(u[0].log, Entry(key, PosAt(0, key), SignAt(key), value))
      requires HeapStep(u[0].heap, v[0].heap, key, Estimate(v[0].log, PosAt(0, key), SignAt(key)), 0)
      ensures Fed(u, v, key, value, bottom)
    {
      forall j | 0 <= j < layer
        ensures FedAt(u[j], v, j, key, value, bottom)
      {
      }
    }

    /** update_optimized: counters of the bottom and the first layer; deep layers use their own positions. */
    method UpdateOptimized(key: string, value: int, bottom: nat, pos: seq<nat>, sign: seq<int>)
      requires Shape() && LayersValid() && optimized && IsBottom(key, bottom)
      requires pos == PosAt(0, key) && sign == SignAt(key)
      modifies Parts()
      ensures LayersValid() && Fed(old(View()), View(), key, value, bottom)
    {
      ghost var u := View();
      if bottom > 0 {
        UpdateBelow(key, value, bottom, pos, sign);
      }
      ghost var w := View();
      assert ViewAt(0) == w[0];
      UpdateTop(key, value, pos, sign);
      ghost var v := View();
      assert forall j :: 1 <= j < layer ==> v[j] == w[j];
      FedInTwoSteps(u, v, key, value, bottom);
    }

    /** univmon_processing and univmon_processing_optimized, by the way this sketch is fed. */
    method Process(key: string, value: int, bottom: nat, pos: seq<nat>, sign: seq<int>, fast: bool)
      requires Valid() && fast == optimized && IsBottom(key, bottom)
      requires pos == PosAt(0, key) && sign == SignAt(key)
      modifies this, Parts()
      ensures Valid() && bucketSize == old(bucketSize) + value
      ensures counts == Added(old(counts), key, value)
      ensures Fed(old(View()), View(), key, value, bottom)
    {
      ghost var u, before := View(), counts;
      KnownBefore();
      FeedLayers(key, value, bottom, pos, sign, fast);
      ghost var v := View();
      StaysValid(u, v, before, key, value, bottom);
      ghost var after := Added(before, key, value);
      Commit(value, after, v);
    }

    lemma KnownBefore()
      requires Valid()
      ensures forall l :: 0 <= l < layer ==> Ordered(View()[l].heap, hhLayers[l].k)
    {
      forall l | 0 <= l < layer
        ensures Ordered(View()[l].heap, hhLayers[l].k)
      {
        assert hhLayers[l].Valid();
      }
    }

    method FeedLayers(key: string, value: int, bottom: nat, pos: seq<nat>, sign: seq<int>, fast: bool)
      requires Shape() && LayersValid() && fast == optimized && IsBottom(key, bottom)
      requires pos == PosAt(0, key) && sign == SignAt(key)
      modifies Parts()
      ensures LayersValid() && Fed(old(View()), View(), key, value, bottom)
      ensures bucketSize == old(bucketSize) && counts == old(counts)
    {
      assert this !in Parts();
      if fast {
        UpdateOptimized(key, value, bottom, pos, sign);
      } else {
        Update(key, value, bottom, pos, sign);
      }
    }

    /** One key fed in: hash once, find its bottom layer, its positions and signs, then update. */
    method Insert(key: string, value: int, fast: bool)
      requires Valid() && fast == optimized
      modifies this, Parts()
      ensures Valid() && bucketSize == old(bucketSize) + value && counts == Added(old(counts), key, value)
      ensures Absorbs(old(View()), View(), old(counts), counts, key, value)
    {
      ghost var u, before := View(), counts;
      ghost var bottom := HashAndProcess(key, value, fast);
      ghost var v, after := View(), counts;
      FedAbsorbs(u, v, before, after, key, value, bottom);
    }

    /** Every counter takes the key's share, and hashed logs stay so. */
    ghost predicate Absorbs(u: seq<Layer>, v: seq<Layer>, before: map<string, int>, after: map<string, int>,
                            key: string, weight: int)
      requires Shape() && |u| == |v| == layer
    {
      SharesAdded(u, v, key, weight) && (LogsHashed(u, before.Keys) ==> LogsHashed(v, after.Keys))
    }

    lemma FedAbsorbs(u: seq<Layer>, v: seq<Layer>, before: map<string, int>, after: map<string, int>, key: string,
                     weight: int, bottom: nat)
      requires Shape() && |u| == |v| == layer && IsBottom(key, bottom) && Fed(u, v, key, weight, bottom)
      requires after == Added(before, key, weight)
      ensures Absorbs(u, v, before, after, key, weight)
    {
      AllSharesAdded(u, v, key, weight, bottom);
      assert after.Keys == before.Keys + {key};
      if LogsHashed(u, before.Keys) {
        FedStaysHashed(u, v, before.Keys, key, weight, bottom);
      }
    }

    /** Every update in the log of layer l came with the hashed positions and signs of one of these keys. */
    ghost predicate Hashed(log: Log, l: nat, keys: set<string>)
      requires Shape() && l < layer
    {
      match log
      case Clean => true
      case Then(past, e) =>
        e.key in keys && e.pos == PosAt(l, e.key) && e.sign == SignAt(e.key) && Hashed(past, l, keys)
    }

    ghost predicate LogsHashed(v: seq<Layer>, keys: set<string>)
      requires Shape() && |v| == layer
    {
      forall l :: 0 <= l < layer ==> Hashed(v[l].log, l, keys)
    }

    lemma {:induction false} HashedOfMore(log: Log, l: nat, keys: set<string>, more: set<string>)
      requires Shape() && l < layer && Hashed(log, l, keys) && keys <= more
      ensures Hashed(log, l, more)
    {
      match log
      case Clean =>
      case Then(past, e) => HashedOfMore(past, l, keys, more);
    }

    lemma FedStaysHashed(u: seq<Layer>, v: seq<Layer>, keys: set<string>, key: string, weight: int, bottom: nat)
      requires Shape() && |u| == |v| == layer && IsBottom(key, bottom) && Fed(u, v, key, weight, bottom)
      requires LogsHashed(u, keys)
      ensures LogsHashed(v, keys + {key})
    {
      forall l | 0 <= l < layer
        ensures Hashed(v[l].log, l, keys + {key})
      {
        assert FedAt(u[l], v, l, key, weight, bottom);
        HashedOfMore(u[l].log, l, keys, keys + {key});
      }
    }

    /** In row r of layer l no other of these keys has the column of this one. */
    ghost predicate RowFree(keys: set<string>, l: nat, key: string, r: nat)
      requires Shape() && l < layer && r < 3
    {
      forall other :: other in keys && other != key ==> PosAt(l, other)[r] != PosAt(l, key)[r]
    }

    ghost predicate TwoRowsFree(keys: set<string>, l: nat, key: string)
      requires Shape() && l < layer
    {
      || (RowFree(keys, l, key, 0) && RowFree(keys, l, key, 1))
      || (RowFree(keys, l, key, 0) && RowFree(keys, l, key, 2))
      || (RowFree(keys, l, key, 1) && RowFree(keys, l, key, 2))
    }

    /** The hash functions keep each of these keys apart from the others in two rows of every layer it reaches. */
    ghost predicate Separate(keys: set<string>)
      requires Shape()
    {
      forall l, key :: 0 <= l < layer && key in keys && Reaches(hash(key), l) ==> TwoRowsFree(keys, l, key)
    }

    lemma {:induction false} FreeIsAlone(log: Log, keys: set<string>, l: nat, key: string, r: nat)
      requires Shape() && l < layer && r < 3 && Hashed(log, l, keys) && RowFree(keys, l, key, r)
      ensures AloneAt(log, key, PosAt(l, key), SignAt(key), r)
    {
      match log
      case Clean =>
      case Then(past, e) => FreeIsAlone(past, keys, l, key, r);
    }

    /** With room in the heaps, separate keys leave a clear state. */
    lemma SeparateIsClear(v: seq<Layer>, counts: map<string, int>)
      requires Shape() && |v| == layer && LogsHashed(v, counts.Keys) && Separate(counts.Keys)
      requires forall l :: 0 <= l < layer ==> |KeysAt(counts, hash, l)| <= hhLayers[l].k
      ensures Clear(v, counts)
    {
      forall l, key | 0 <= l < layer && key in counts && Counts(key, l)
        ensures CollisionFree(v, l, key)
      {
        assert TwoRowsFree(counts.Keys, l, key) && Hashed(v[l].log, l, counts.Keys);
        forall r: nat | r < 3 && RowFree(counts.Keys, l, key, r)
          ensures AloneIn(v, l, key, r)
        {
          FreeIsAlone(v[l].log, counts.Keys, l, key, r);
        }
      }
    }

    method HashAndProcess(key: string, value: int, fast: bool) returns (ghost b: nat)
      requires Valid() && fast == optimized
      modifies this, Parts()
      ensures Valid() && bucketSize == old(bucketSize) + value && counts == Added(old(counts), key, value)
      ensures IsBottom(key, b) && Fed(old(View()), View(), key, value, b)
    {
      ghost var u := View();
      var bottom, pos, sign := Locate(key);
      assert View() == u;
      Process(key, value, bottom, pos, sign, fast);
      b := bottom;
    }

    method Locate(key: string) returns (bottom: nat, pos: seq<nat>, sign: seq<int>)
      requires Shape()
      ensures IsBottom(key, bottom) && pos == PosAt(0, key) && sign == SignAt(key)
    {
      bottom := FindBottomLayerNum(hash(key), layer);
      pos, sign := csLayers[0].PositionAndSign(key);
    }

    lemma AllSharesAdded(u: seq<Layer>, v: seq<Layer>, key: string, weight: int, bottom: nat)
      requires Shape() && |u| == |v| == layer && IsBottom(key, bottom) && Fed(u, v, key, weight, bottom)
      ensures SharesAdded(u, v, key, weight)
    {
      forall l, r, c: nat | 0 <= l < layer && 0 <= r < 3
        ensures ShareAdded(u, v, key, weight, l, r, c)
      {
        FedAddsShare(u, v, key, weight, bottom, l, r, c);
      }
    }

    /** The sketch's own fields; no layer changes. */
    method Commit(value: int, ghost after: map<string, int>, ghost v: seq<Layer>)
      requires Shape() && LayersValid() && View() == v
      requires TotalsExact(v, after) && (Clear(v, after) ==> HeapsExact(v, after))
      modifies this
      ensures Valid() && View() == v && bucketSize == old(bucketSize) + value && counts == after
    {
      bucketSize := bucketSize + value;
      counts := after;
      assert forall l :: 0 <= l < layer ==> ViewAt(l) == v[l];
      assert View() == v;
    }

    lemma StaysValid(u: seq<Layer>, v: seq<Layer>, counts: map<string, int>, key: string, value: int, bottom: nat)
      requires Shape() && |u| == |v| == layer && IsBottom(key, bottom) && Fed(u, v, key, value, bottom)
      requires forall l :: 0 <= l < layer ==> Ordered(u[l].heap, hhLayers[l].k)
      requires TotalsExact(u, counts) && (Clear(u, counts) ==> HeapsExact(u, counts))
      ensures var after := Added(counts, key, value);
        TotalsExact(v, after) && (Clear(v, after) ==> HeapsExact(v, after))
    {
      TotalsAfter(u, v, counts, key, value, bottom);
      if Clear(v, Added(counts, key, value)) {
        ClearBefore(u, v, counts, key, value, bottom);
        HeapsAfter(u, v, counts, key, value, bottom);
      }
    }

    lemma EmptyIsExact(v: seq<Layer>)
      requires Shape() && |v| == layer && forall l :: 0 <= l < layer ==> v[l] == Layer(Clean, [])
      ensures TotalsExact(v, map[]) && HeapsExact(v, map[])
    {
      forall l | 0 <= l < layer
        ensures HeapExact(v[l].heap, map[], hash, l)
      {
        assert KeysAt(map[], hash, l) == {};
      }
    }

    ghost predicate IsFresh(l: nat)
      requires Shape() && l < layer
      reads csLayers[l], csLayers[l].count, csLayers[l].l2, hhLayers[l]
    {
      && csLayers[l].Valid() && csLayers[l].NormIsExact() && hhLayers[l].Valid() && ViewAt(l) == Layer(Clean, [])
      && forall r :: 0 <= r < 3 ==> csLayers[l].l2[r] == 0
    }

    method FreeLayer(i: nat)
      requires Shape() && i < layer
      modifies csLayers[i], csLayers[i].count, csLayers[i].l2, hhLayers[i]
      ensures IsFresh(i)
      ensures forall l :: 0 <= l < layer && l != i && old(IsFresh(l)) ==> IsFresh(l)
    {
      csLayers[i].CleanCountSketchUniv();
      hhLayers[i].Clean();
      assert csLayers[i].Valid() && csLayers[i].NormIsExact();
      forall l | 0 <= l < layer && l != i && old(IsFresh(l))
        ensures IsFresh(l)
      {
        Apart(l, i);
      }
    }

    lemma Apart(l: nat, i: nat)
      requires Shape() && l < layer && i < layer && l != i
      ensures csLayers[l] != csLayers[i] && hhLayers[l] != hhLayers[i]
      ensures csLayers[l].count != csLayers[i].count && csLayers[l].l2 != csLayers[i].l2
    {
    }

    /** Every layer emptied, every counter zero. */
    method Free()
      requires Shape()
      modifies this, Parts()
      ensures Valid() && bucketSize == 0 && counts == map[]
      ensures forall l :: 0 <= l < layer ==> IsFresh(l)
    {
      bucketSize, counts := 0, map[];
      var i := 0;
      while i < layer
        invariant 0 <= i <= layer && bucketSize == 0 && counts == map[]
        invariant forall l :: 0 <= l < i ==> IsFresh(l)
      {
        FreeLayer(i);
        i := i + 1;
      }
      ghost var v := View();
      forall l | 0 <= l < layer
        ensures v[l] == Layer(Clean, []) && csLayers[l].Valid() && hhLayers[l].Valid() && NormKept(l)
      {
        assert IsFresh(l) && v[l] == ViewAt(l);
      }
      EmptyIsExact(v);
    }

    ghost function Heaps(): (h: seq<seq<Item>>)
      requires Shape()
      reads Parts()
      ensures |h| == layer && forall l :: 0 <= l < layer ==> h[l] == ViewAt(l).heap
    {
      seq(layer, l requires 0 <= l < layer reads Parts() => ViewAt(l).heap)
    }

    /** Items at or below the threshold do not count; it is 0 except for cardinality. */
    ghost function Threshold(l: nat, isCard: bool): int
      requires Shape() && l < layer
      reads csLayers[l].l2
    {
      var l2 := csLayers[l].l2;
      if isCard then CardThreshold(MedianOfThree(l2[0], l2[1], l2[2])) else 0
    }

    ghost function Thresholds(isCard: bool): (t: seq<int>)
      requires Shape()
      reads Parts()
      ensures |t| == layer && forall l :: 0 <= l < layer ==> t[l] == Threshold(l, isCard)
    {
      seq(layer, l requires 0 <= l < layer reads Parts() => Threshold(l, isCard))
    }

    method SumLayer(l: nat, last: bool, isCard: bool, g: real -> real) returns (tmp: real)
      requires Shape() && l < layer
      ensures tmp == LayerSum(ViewAt(l).heap, hash, l, last, Threshold(l, isCard), g)
    {
      var norm := csLayers[l].CsL22();
      var threshold := if isCard then CardThreshold(norm) else 0;
      tmp := SumItems(hhLayers[l].heap, hash, l, last, threshold, g);
    }

    static method SumItems(h: seq<Item>, hash: string -> nat, l: nat, last: bool, threshold: int,
                           g: real -> real) returns (tmp: real)
      ensures tmp == LayerSum(h, hash, l, last, threshold, g)
    {
      tmp := 0.0;
      for j := 0 to |h|
        invariant tmp == LayerSum(h[..j], hash, l, last, threshold, g)
      {
        assert h[..j + 1][..j] == h[..j];
        if h[j].count > threshold {
          if last {
            tmp := tmp + g(h[j].count as real);
          } else {
            var coe := 1.0 - 2.0 * Bit(hash(h[j].key), l + 1) as real;
            tmp := tmp + coe * g(h[j].count as real);
          }
        }
      }
      assert h[..|h|] == h;
    }

    /**
      The backward recursion over the layers, for any statistic g. In a clear state it is the exact
      sum of g over the keys of positive count; for cardinality a key whose count is at most a
      hundredth of the first layer's root norm is left out or counts twice, by its next hash bit.
     */
    method CalcGSumHeuristic(g: real -> real, isCard: bool) returns (sum: real)
      requires Valid()
      ensures sum == Y(Heaps(), hash, Thresholds(isCard), g, 0)
      ensures Clear(View(), counts) && !isCard ==>
        sum == RealSum(counts.Keys, KeptWeight(counts, g, set key | key in counts && counts[key] > 0))
      ensures Clear(View(), counts) && !isCard && AllPositive() ==> sum == RealSum(counts.Keys, Weight(counts, g))
      ensures Clear(View(), counts) && isCard && AllPositive() ==>
        sum == RealSum(counts.Keys, CardWeight(counts, hash, layer, FirstNorm(), g))
    {
      sum := BackwardSum(g, isCard);
      if Clear(View(), counts) {
        if isCard {
          if AllPositive() {
            ClearCard(g);
          }
        } else {
          ClearSum(g);
        }
      }
    }

    ghost predicate AllPositive()
      reads this
    {
      forall key :: key in counts ==> counts[key] > 0
    }

    /** The squared norm of the first layer, off its counters. */
    ghost function FirstNorm(): int
      requires Shape()
      reads csLayers[0].count
    {
      MedianOfThree(SquareSum(csLayers[0].Row(0)), SquareSum(csLayers[0].Row(1)), SquareSum(csLayers[0].Row(2)))
    }

    /** calcL1: in a clear state the sum of all weights. */
    method CalcL1() returns (l1: real)
      requires Valid()
      ensures Clear(View(), counts) && AllPositive() ==> l1 == RealSum(counts.Keys, Weight(counts, n => n))
    {
      l1 := CalcGSumHeuristic(n => n, false);
    }

    /** calcL2 before its square root: in a clear state the sum of all squared weights. */
    method CalcSquares() returns (squares: real)
      requires Valid()
      ensures Clear(View(), counts) && AllPositive() ==> squares == RealSum(counts.Keys, Weight(counts, n => n * n))
    {
      squares := CalcGSumHeuristic(n => n * n, false);
    }

    /** calcCard: one for each key above the threshold, two for each other key whose next bit is 1. */
    method CalcCard() returns (card: real)
      requires Valid()
      ensures Clear(View(), counts) && AllPositive() ==>
        card == RealSum(counts.Keys, CardWeight(counts, hash, layer, FirstNorm(), _ => 1.0))
    {
      card := CalcGSumHeuristic(_ => 1.0, true);
    }

    method BackwardSum(g: real -> real, isCard: bool) returns (sum: real)
      requires Shape()
      ensures sum == Y(Heaps(), hash, Thresholds(isCard), g, 0)
    {
      ghost var heaps, thresholds := Heaps(), Thresholds(isCard);
      var y := seq(layer, l => 0.0);
      var tmp := SumLayer(layer - 1, true, isCard, g);
      y := y[layer - 1 := tmp];
      var i := layer - 2;
      while i >= 0
        invariant -1 <= i <= layer - 2 && |y| == layer
        invariant y[i + 1] == Y(heaps, hash, thresholds, g, i + 1)
      {
        tmp := SumLayer(i, false, isCard, g);
        assert heaps[i] == ViewAt(i).heap && thresholds[i] == Threshold(i, isCard);
        YStep(heaps, hash, thresholds, g, i);
        y := y[i := 2.0 * y[i + 1] + tmp];
        i := i - 1;
      }
      sum := y[0];
      assert Heaps() == heaps && Thresholds(isCard) == thresholds;
    }

    lemma ClearHeaps()
      requires Valid() && Clear(View(), counts)
      ensures forall l :: 0 <= l < layer ==> HeapExact(Heaps()[l], counts, hash, l)
    {
      forall l | 0 <= l < layer
        ensures HeapExact(Heaps()[l], counts, hash, l)
      {
        assert HeapExact(View()[l].heap, counts, hash, l);
      }
    }

    lemma ClearSum(g: real -> real)
      requires Valid() && Clear(View(), counts)
      ensures var kept := set key | key in counts && counts[key] > 0;
        Y(Heaps(), hash, Thresholds(false), g, 0) == RealSum(counts.Keys, KeptWeight(counts, g, kept))
      ensures AllPositive() ==> Y(Heaps(), hash, Thresholds(false), g, 0) == RealSum(counts.Keys, Weight(counts, g))
    {
      var kept := set key | key in counts && counts[key] > 0;
      ClearHeaps();
      GSumExact(Heaps(), hash, Thresholds(false), g, counts, 0, kept);
      assert KeysAt(counts, hash, 0) == counts.Keys;
      if AllPositive() {
        RealSumEq(counts.Keys, KeptWeight(counts, g, kept), Weight(counts, g));
      }
    }

    lemma ClearCard(g: real -> real)
      requires Valid() && Clear(View(), counts) && AllPositive()
      ensures Y(Heaps(), hash, Thresholds(true), g, 0)
        == RealSum(counts.Keys, CardWeight(counts, hash, layer, FirstNorm(), g))
    {
      ClearHeaps();
      NormsOfLayers();
      CardSum(Heaps(), hash, Thresholds(true), g, counts, FirstNorm());
    }

    /** The threshold is that of the first layer's norm there and 0 below. */
    lemma NormsOfLayers()
      requires Valid()
      ensures FirstNorm() >= 0 && Thresholds(true)[0] == CardThreshold(FirstNorm())
      ensures forall l :: 1 <= l < layer ==> Thresholds(true)[l] == 0
    {
      assert NormKept(0);
      SquareSumSign(csLayers[0].Row(0));
      SquareSumSign(csLayers[0].Row(1));
      SquareSumSign(csLayers[0].Row(2));
      forall l | 1 <= l < layer
        ensures Threshold(l, true) == 0
      {
        assert NormKept(l);
        ThresholdIs(0, 1);
      }
    }

    static lemma YStep(heaps: seq<seq<Item>>, hash: string -> nat, thresholds: seq<int>, g: real -> real, i: nat)
      requires i + 1 < |heaps| == |thresholds|
      ensures Y(heaps, hash, thresholds, g, i)
        == 2.0 * Y(heaps, hash, thresholds, g, i + 1) + LayerSum(heaps[i], hash, i, false, thresholds[i], g)
    {
    }
  }
}
