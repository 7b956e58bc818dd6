/**
  A run on which a query of the second-moment histogram reads past its sketches:
  internal/promsketch/exponential_univmon_optimized.go.
*/
module MomentWitnesses {
  import opened FiniteSums
  import opened MomentHistogram
  import opened MomentSketches
  import opened Stream

  // ------------------------------------------------------------------ which states answer with a panic

  /** One sketch, its end inside no map and not after the newest sample: the query at that end. */
  lemma EndOfSketch(h: ExpoHistogramUnivOptimized, t: int)
    requires h.Valid() && h.mapCount >= 1 && h.sCount == 1
    requires h.univs[0].minTime < h.univs[0].maxTime == t
    requires FirstSpanning(h.segments, 0, t) == -1 && t <= h.NewestTime()
    ensures h.OutOfRange(t, t)
  {
    assert FirstSketch(h.univs, 0, t) == 0;
  }

  /** A start nearest to a map or to the end of the last sketch, and an end between two maps or before all of them. */
  lemma EndInGap(h: ExpoHistogramUnivOptimized, t1: int, t2: int)
    requires h.Valid() && h.mapCount >= 1 && h.sCount >= 1
    requires FirstSpanning(h.segments, 0, t2) == -1 && t2 <= h.NewestTime()
    ensures h.OutOfRange(t1, t2) <==> h.StartAt(t1) >= h.sCount
    ensures FirstSpanning(h.segments, 0, t1) >= 0 && t1 >= h.univs[0].minTime ==> h.OutOfRange(t1, t2)
  {
  }

  // ------------------------------------------------------------------ a stream of distinct values

  /** n samples one time unit apart, each with its time as its value. */
  ghost function Ramp(from: int, n: nat): (s: Segment)
    ensures |s| == n
  {
    seq(n, j => Sample(from + j, (from + j) as real))
  }

  lemma RampPlus(from: int, a: nat, b: nat)
    ensures Ramp(from, a + b) == Ramp(from, a) + Ramp(from + a, b)
    ensures Ramp(from, a + b)[..a] == Ramp(from, a) && Ramp(from, a + b)[a..] == Ramp(from + a, b)
  {
  }

  lemma {:induction false} RampEnergy(from: int, n: nat)
    ensures Energy(Ramp(from, n)) == n && |Domain(Ramp(from, n))| == n
  {
    if n == 0 {
      assert Domain(Ramp(from, 0)) == {};
    } else {
      var init, x := Ramp(from, n - 1), Ramp(from, n)[n - 1];
      RampPlus(from, n - 1, 1);
      assert Ramp(from, n) == init + [x];
      RampEnergy(from, n - 1);
      FreqPositive(init, x.value);
      EnergyOfExtension(init, x);
      ExtendedDomain(init, x);
    }
  }

  /** Buckets over a ramp are ramps. */
  lemma FirstOfRamp(segments: seq<Segment>, from: int, n: nat)
    requires segments != [] && Concat(segments) == Ramp(from, n)
    ensures |segments[0]| <= n && segments[0] == Ramp(from, |segments[0]|)
    ensures Concat(segments[1..]) == Ramp(from + |segments[0]|, n - |segments[0]|)
  {
    var a := |segments[0]|;
    assert Concat(segments) == segments[0] + Concat(segments[1..]);
    RampPlus(from, a, n - a);
    assert Concat(segments)[..a] == segments[0] && Concat(segments)[a..] == Concat(segments[1..]);
  }

  lemma {:induction false} RampMass(segments: seq<Segment>, from: int, n: nat)
    requires Concat(segments) == Ramp(from, n)
    ensures Mass(segments) == n
  {
    if segments != [] {
      FirstOfRamp(segments, from, n);
      RampEnergy(from, |segments[0]|);
      RampMass(segments[1..], from + |segments[0]|, n - |segments[0]|);
    }
  }

  /** All maps of a ramp start after the samples in front of them. */
  lemma {:induction false} NoneSpans(segments: seq<Segment>, p: nat, from: int, n: nat, t: int)
    requires p <= |segments| && NonEmpty(segments) && Concat(segments[p..]) == Ramp(from, n) && t < from
    ensures FirstSpanning(segments, p, t) == -1
    decreases |segments| - p
  {
    if p < |segments| {
      FirstOfRamp(segments[p..], from, n);
      assert segments[p..][1..] == segments[p + 1..];
      NoneSpans(segments, p + 1, from + |segments[p]|, n - |segments[p]|, t);
    }
  }

  // ------------------------------------------------------------------ how it comes to a sketch

  /** Distinct values that make the oldest map a sketch. */
  const MANY: nat := 30720

  lemma HalfIsLarge(k: int, oldest: int, tail: int, all: int)
    requires k >= 1 && all == (k + 1) * (2 * MANY) && all == oldest + tail && (k + 1) * tail <= k * all
    ensures oldest >= 2 * MANY
  {
    assert (k + 1) * oldest == (k + 1) * all - (k + 1) * tail;
    assert (k + 1) * all == k * all + all;
    assert oldest < 2 * MANY ==> (k + 1) * oldest < (k + 1) * (2 * MANY);
  }

  /** A long ramp whose oldest map is still small has a large second one. */
  lemma SecondIsLarge(segments: seq<Segment>, k: int, n: nat)
    requires k >= 1 && NonEmpty(segments) && Tight(segments, k)
    requires Concat(segments) == Ramp(0, n) && n == (k + 1) * (2 * MANY) && |Domain(segments[0])| < MANY
    ensures |segments| >= 2 && |segments[1]| > MANY
  {
    FirstOfRamp(segments, 0, n);
    var a := |segments[0]|;
    RampEnergy(0, a);
    RampMass(segments, 0, n);
    assert n >= 2 * MANY;
    assert |Concat(segments[1..])| == n - a > 0;
    FirstOfRamp(segments[1..], a, n - a);
    RampEnergy(a, |segments[1]|);
    FirstDecay(segments, k);
    MassOfTwo(segments);
    HalfIsLarge(k, Energy(segments[0]) + Energy(segments[1]), Mass(segments[2..]), n);
  }

  lemma FirstOnlyGrows(segments: seq<Segment>, k: int)
    requires segments != []
    ensures Pass(segments, k) != [] && |Pass(segments, k)[0]| >= |segments[0]|
  {
  }

  /** The map buckets of a ramp, the oldest of which has just become the only sketch. */
  ghost predicate JustConverted(univs: seq<SketchBucket>, segments: seq<Segment>, maps: seq<Segment>, from: int, n: nat)
  {
    && |maps| >= 2 && NonEmpty(maps) && Concat(maps) == Ramp(from, n) && |maps[0]| >= MANY
    && segments == maps[1..] && IsSketchOf(univs, maps[0])
  }

  ghost predicate IsSketchOf(univs: seq<SketchBucket>, s: Segment) {
    |univs| == 1 && s != [] && univs[0].minTime == s[0].time && univs[0].maxTime == s[|s| - 1].time
  }

  lemma ConvertedPanics(h: ExpoHistogramUnivOptimized, maps: seq<Segment>, from: int, n: nat)
    requires h.Valid() && JustConverted(h.univs, h.segments, maps, from, n)
    ensures h.mapCount >= 1 && h.OutOfRange(h.univs[0].maxTime, h.univs[0].maxTime)
  {
    FirstOfRamp(maps, from, n);
    var a := |maps[0]|;
    NoneSpans(h.segments, 0, from + a, n - a, h.univs[0].maxTime);
    assert h.segments[0..] == h.segments;
    assert maps[0] == Ramp(from, a);
    NewestOfRamp(h.segments, from + a, n - a);
    EndOfSketch(h, h.univs[0].maxTime);
  }

  lemma {:induction false} NewestOfRamp(segments: seq<Segment>, from: int, n: nat)
    requires segments != [] && NonEmpty(segments) && Concat(segments) == Ramp(from, n)
    ensures var newest := segments[|segments| - 1]; newest[|newest| - 1].time >= from
  {
    FirstOfRamp(segments, from, n);
    if |segments| > 1 {
      NewestOfRamp(segments[1..], from + |segments[0]|, n - |segments[0]|);
    }
  }

  type Norming = map<real, int> -> int

  /** Still a ramp in maps, the oldest one small. */
  ghost predicate OnTheWay(univs: seq<SketchBucket>, segments: seq<Segment>, from: int, n: nat) {
    univs == [] && Concat(segments) == Ramp(from, n) && (n > 0 ==> segments != [] && |segments[0]| < MANY)
  }

  ghost predicate Reached(univs: seq<SketchBucket>, segments: seq<Segment>, maps: seq<Segment>, from: int, n: nat) {
    && maps != []
    && if |maps[0]| < MANY then OnTheWay(univs, segments, from, n) else JustConverted(univs, segments, maps, from, n)
  }

  /** A histogram without sketches whose live maps are a ramp up to the next sample; what its maps will be. */
  ghost predicate Ready(univs: seq<SketchBucket>, segments: seq<Segment>, x: Sample, cutoff: int, unit: int, limit: int,
                        k: int, from: int, n: nat, maps: seq<Segment>)
  {
    && univs == [] && unit == 1 && limit == 2 * MANY && k >= 1 && Balanced(segments, k, unit)
    && x == Sample(from + n, (from + n) as real)
    && Concat(segments[ExpiredMaps(segments, cutoff)..]) == Ramp(from, n)
    && maps == MapsAfter(segments, x, cutoff, unit, k)
  }

  lemma UpdateOnRamp(univs: seq<SketchBucket>, segments: seq<Segment>, x: Sample, cutoff: int, unit: int, limit: int,
                     k: int, norm: Norming, from: int, n: nat, us: seq<SketchBucket>, ss: seq<Segment>,
                     maps: seq<Segment>)
    requires Ready(univs, segments, x, cutoff, unit, limit, k, from, n, maps)
    requires IsUpdate(univs, segments, x, cutoff, unit, limit, k, norm, us, ss)
    ensures Reached(us, ss, maps, from, n + 1)
  {
    MapsOfRamp(segments, x, cutoff, k, from, n);
    assert ExpiredSketches([], cutoff) == 0;
    Settle(maps, k, norm, from, n + 1, us, ss);
  }

  lemma MapsOfRamp(segments: seq<Segment>, x: Sample, cutoff: int, k: int, from: int, n: nat)
    requires k >= 1 && Balanced(segments, k, 1) && x == Sample(from + n, (from + n) as real)
    requires Concat(segments[ExpiredMaps(segments, cutoff)..]) == Ramp(from, n)
    ensures var maps := MapsAfter(segments, x, cutoff, 1, k);
      maps != [] && Balanced(maps, k, 1) && Concat(maps) == Ramp(from, n + 1)
  {
    MapsAfterIsBalanced(segments, x, cutoff, 1, k);
    RampNext(from, n);
  }

  lemma RampNext(from: int, n: nat)
    ensures Ramp(from, n + 1) == Ramp(from, n) + [Sample(from + n, (from + n) as real)]
  {
  }

  lemma Settle(maps: seq<Segment>, k: int, norm: Norming, from: int, n: nat, us: seq<SketchBucket>, ss: seq<Segment>)
    requires k >= 1 && maps != [] && Balanced(maps, k, 1) && Concat(maps) == Ramp(from, n)
    requires IsConversion([], maps, 2 * MANY, k, norm, us, ss)
    ensures Reached(us, ss, maps, from, n)
  {
    FirstOfRamp(maps, from, n);
    RampEnergy(from, |maps[0]|);
    if |maps[0]| >= MANY {
      ConvertedIsNotNewest(maps, k, 1);
      OneSketch(maps, norm, k);
    }
  }

  lemma OneSketch(maps: seq<Segment>, norm: Norming, k: int)
    requires maps != [] && maps[0] != []
    ensures IsSketchOf(SketchesAfter([], maps, norm, k), maps[0])
  {
    var b := Summary(maps[0]);
    var u := SketchBucket(b.minTime, b.maxTime, b.bucketSize, norm(b.m));
    assert [] + [u] == [u] && [u][1..] == [];
    assert SketchPass([u], k, Mass(maps[1..])) == JoinSketch(u, SketchPass([], k, Mass(maps[1..])), k, Mass(maps[1..]));
  }

  /** With a cutoff before the ramp nothing expires. */
  lemma NothingExpires(segments: seq<Segment>, from: int, n: nat, cutoff: int)
    requires NonEmpty(segments) && Concat(segments) == Ramp(from, n) && cutoff <= from
    ensures segments[ExpiredMaps(segments, cutoff)..] == segments
  {
    if segments != [] {
      FirstOfRamp(segments, from, n);
    }
  }

  /** With a cutoff at the second bucket exactly the first one does. */
  lemma OneExpires(segments: seq<Segment>, n: nat)
    requires NonEmpty(segments) && |segments| >= 2 && Concat(segments) == Ramp(0, n)
    ensures ExpiredMaps(segments, |segments[0]|) == 1
    ensures Concat(segments[1..]) == Ramp(|segments[0]|, n - |segments[0]|)
  {
    var a := |segments[0]|;
    FirstOfRamp(segments, 0, n);
    FirstOfRamp(segments[1..], a, n - a);
    assert segments[0][a - 1].time == a - 1;
    assert segments[1][|segments[1]| - 1].time >= a;
    ExpiredMapsIs(segments, a, 1);
  }

  /** The maps after that update start with a large one. */
  lemma SecondConverts(segments: seq<Segment>, x: Sample, k: int)
    requires |segments| >= 2 && NonEmpty(segments) && |segments[1]| > MANY && ExpiredMaps(segments, |segments[0]|) == 1
    ensures MapsAfter(segments, x, |segments[0]|, 1, k) != []
    ensures |MapsAfter(segments, x, |segments[0]|, 1, k)[0]| >= MANY
  {
    var fed := WithSample(segments[1..], x, 1);
    assert fed[0] == segments[1];
    FirstOnlyGrows(fed, k);
  }

  /** One update of such a histogram. */
  method UpdateNext(h: ExpoHistogramUnivOptimized, time: int, ghost from: int, ghost n: nat, ghost maps: seq<Segment>)
    requires h.Valid()
    requires Ready(h.univs, h.segments, Sample(time, time as real), time - h.timeWindowSize, h.minMapSize, h.maxMapSize,
                   h.k, from, n, maps)
    modifies h
    ensures h.Valid() && h.maxMapSize == old(h.maxMapSize) && h.k == old(h.k)
    ensures h.timeWindowSize == old(h.timeWindowSize)
    ensures Reached(h.univs, h.segments, maps, from, n + 1)
  {
    ghost var univs, segments, unit, limit, k := h.univs, h.segments, h.minMapSize, h.maxMapSize, h.k;
    ghost var x, cutoff := Sample(time, time as real), time - h.timeWindowSize;
    h.Update(time, time as real);
    UpdateOnRamp(univs, segments, x, cutoff, unit, limit, k, h.norm, from, n, h.univs, h.segments, maps);
  }

  method FeedRamp(h: ExpoHistogramUnivOptimized, n: nat) returns (ghost maps: seq<Segment>)
    requires h.Valid() && h.maxMapSize == 2 * MANY && h.timeWindowSize > n && OnTheWay(h.univs, h.segments, 0, n)
    modifies h
    ensures h.Valid() && h.maxMapSize == 2 * MANY && h.k == old(h.k) && h.timeWindowSize == old(h.timeWindowSize)
    ensures Reached(h.univs, h.segments, maps, 0, n + 1)
  {
    NothingExpires(h.segments, 0, n, n - h.timeWindowSize);
    maps := MapsAfter(h.segments, Sample(n, n as real), n - h.timeWindowSize, h.minMapSize, h.k);
    UpdateNext(h, n, 0, n, maps);
  }

  /** The window is narrowed so that exactly the first map expires. */
  method DropFirst(h: ExpoHistogramUnivOptimized, n: nat) returns (ghost maps: seq<Segment>, ghost a: nat)
    requires h.Valid() && h.maxMapSize == 2 * MANY && OnTheWay(h.univs, h.segments, 0, n)
    requires n == (h.k + 1) * (2 * MANY)
    modifies h
    ensures h.Valid() && h.k == old(h.k) && a <= n && JustConverted(h.univs, h.segments, maps, a, n - a + 1)
  {
    BeforeDrop(h.segments, h.k, n, Sample(n, n as real));
    a := |h.segments[0]|;
    var size := FirstSize(h);
    h.UpdateWindow(n - size);
    maps := MapsAfter(h.segments, Sample(n, n as real), a, 1, h.k);
    UpdateNext(h, n, a, n - a, maps);
  }

  lemma BeforeDrop(segments: seq<Segment>, k: int, n: nat, x: Sample)
    requires k >= 1 && Balanced(segments, k, 1) && OnTheWay([], segments, 0, n) && n == (k + 1) * (2 * MANY)
    ensures segments != [] && |segments[0]| <= n && ExpiredMaps(segments, |segments[0]|) == 1
    ensures Concat(segments[1..]) == Ramp(|segments[0]|, n - |segments[0]|)
    ensures MapsAfter(segments, x, |segments[0]|, 1, k) != []
    ensures |MapsAfter(segments, x, |segments[0]|, 1, k)[0]| >= MANY
  {
    assert n >= 2 * MANY;
    FirstOfRamp(segments, 0, n);
    RampEnergy(0, |segments[0]|);
    SecondIsLarge(segments, k, n);
    OneExpires(segments, n);
    SecondConverts(segments, x, k);
  }

  method FirstSize(h: ExpoHistogramUnivOptimized) returns (size: int)
    requires h.Valid() && h.segments != []
    ensures size == |h.segments[0]|
  {
    assert DescribesAt(h.mapBuckets, h.segments, 0);
    size := h.mapBuckets[0].bucketSize;
  }

  /** How many samples are enough. */
  function Enough(k: int): nat
    requires k >= 1
  {
    (k + 1) * (2 * MANY)
  }

  /** Feeds the ramp until a sketch appears or it is long enough. */
  method FeedLong(h: ExpoHistogramUnivOptimized, n: nat) returns (ghost maps: seq<Segment>, ghost m: nat)
    requires h.Valid() && h.maxMapSize == 2 * MANY && h.timeWindowSize == n + 1 && OnTheWay(h.univs, h.segments, 0, 0)
    modifies h
    ensures h.Valid() && h.maxMapSize == 2 * MANY && h.k == old(h.k)
    ensures (m == n && OnTheWay(h.univs, h.segments, 0, n)) || JustConverted(h.univs, h.segments, maps, 0, m)
  {
    maps, m := [], 0;
    var i: nat := 0;
    while i < n && h.sCount == 0
      invariant h.Valid() && h.maxMapSize == 2 * MANY && h.k == old(h.k) && h.timeWindowSize == n + 1
      invariant i <= n && m == i
      invariant OnTheWay(h.univs, h.segments, 0, i) || JustConverted(h.univs, h.segments, maps, 0, i)
      decreases n - i
    {
      maps := FeedRamp(h, i);
      i := i + 1;
      m := i;
    }
  }

  method ReachSketch(k: int, norm: Norming)
    returns (h: ExpoHistogramUnivOptimized, ghost maps: seq<Segment>, ghost from: int, ghost m: nat)
    requires k >= 1
    ensures fresh(h) && h.Valid() && h.k == k && JustConverted(h.univs, h.segments, maps, from, m)
  {
    var n := Enough(k);
    h := new ExpoHistogramUnivOptimized(k, n + 1, norm);
    from := 0;
    maps, m := FeedLong(h, n);
    if h.sCount == 0 {
      maps, from := DropFirst(h, n);
      m := n - from + 1;
    }
  }

  /** For every k there is a run of updates and a window change after which a query panics though there is a map. */
  method PanickingRun(k: int, norm: Norming) returns (h: ExpoHistogramUnivOptimized, a: Answer)
    requires k >= 1
    ensures h.Valid() && h.k == k && h.mapCount >= 1 && a == Panic
  {
    ghost var maps, from, m;
    h, maps, from, m := ReachSketch(k, norm);
    ConvertedPanics(h, maps, from, m);
    var t := h.univs[0].maxTime;
    a := h.QueryIntervalMergeUniv(t, t);
  }
}
