/** The exponential histogram over KLL sketches: internal/promsketch/ExponentialHistogram.go, ExpoHistogramKLL. */
module KLLHistogram {
  import opened Numbers
  import opened Stream
  import opened Cascade
  import opened CascadePass
  import opened ExpoRuns

  /** A KLL sketch stands for the multiset of values it absorbed. */
  type Sketch = multiset<real>

  datatype QueryResult = Merged(sketch: Sketch) | NoBuckets

  ghost function Values(s: Segment): Sketch {
    multiset(seq(|s|, p requires 0 <= p < |s| => s[p].value))
  }

  lemma ValuesPlus(a: Segment, b: Segment)
    ensures Values(a + b) == Values(a) + Values(b)
  {
    var va := seq(|a|, p requires 0 <= p < |a| => a[p].value);
    var vb := seq(|b|, p requires 0 <= p < |b| => b[p].value);
    assert seq(|a + b|, p requires 0 <= p < |a + b| => (a + b)[p].value) == va + vb;
  }

  lemma {:induction false} TimesPlus(a: Segment, b: Segment)
    requires a != [] && b != []
    ensures MaxTime(a + b) == Max(MaxTime(a), MaxTime(b))
    ensures MinTime(a + b) == Min(MinTime(a), MinTime(b))
  {
    assert (a + b)[1..] == a[1..] + b;
    if |a| == 1 {
      assert a[1..] + b == b;
    } else {
      TimesPlus(a[1..], b);
    }
  }

  /** The four parallel slices of the source, oldest bucket first. */
  datatype Columns = Columns(klls: seq<Sketch>, maxTime: seq<int>, minTime: seq<int>, bucketSize: seq<int>)

  ghost predicate Describes(cols: Columns, segments: seq<Segment>) {
    && |cols.klls| == |cols.maxTime| == |cols.minTime| == |cols.bucketSize| == |segments|
    && forall p :: 0 <= p < |segments| ==> Column(cols, segments, p)
  }

  ghost predicate Column(cols: Columns, segments: seq<Segment>, p: nat)
    requires p < |segments| == |cols.klls| == |cols.maxTime| == |cols.minTime| == |cols.bucketSize|
  {
    && segments[p] != []
    && cols.klls[p] == Values(segments[p])
    && cols.maxTime[p] == MaxTime(segments[p])
    && cols.minTime[p] == MinTime(segments[p])
    && cols.bucketSize[p] == |segments[p]|
  }

  // ------------------------------------------------------------------ interval queries

  ghost predicate Spans(s: Segment, t: int) {
    MinTime(s) <= t <= MaxTime(s)
  }

  /** The first bucket from index p on whose time range contains t, or 0 when there is none. */
  ghost function FirstSpanning(segments: seq<Segment>, p: nat, t: int): (r: nat)
    requires p <= |segments|
    ensures segments != [] ==> r < |segments|
    decreases |segments| - p
  {
    if p == |segments| then 0 else if Spans(segments[p], t) then p else FirstSpanning(segments, p + 1, t)
  }

  /** The spanning bucket of the start of the interval, before rounding. */
  ghost function StartBucket(segments: seq<Segment>, t1: int): (r: nat)
    requires segments != []
    ensures r < |segments|
  {
    if t1 < MinTime(segments[0]) then 0 else FirstSpanning(segments, 0, t1)
  }

  /** The start is closer to the bucket's end than to its beginning. */
  ghost predicate RoundsUp(segments: seq<Segment>, t1: int)
    requires segments != []
  {
    var s := segments[StartBucket(segments, t1)];
    Abs(t1 - MinTime(s)) > Abs(t1 - MaxTime(s))
  }

  ghost function FromBucket(segments: seq<Segment>, t1: int): nat
    requires segments != []
  {
    StartBucket(segments, t1) + if RoundsUp(segments, t1) then 1 else 0
  }

  ghost function ToBucket(segments: seq<Segment>, t2: int): (r: nat)
    requires segments != []
    ensures r < |segments|
  {
    if t2 > MaxTime(segments[|segments| - 1]) then |segments| - 1 else FirstSpanning(segments, 0, t2)
  }

  /** Index safety: in every reachable non-empty state, rounding up never leaves the bucket list. */
  lemma {:induction false} FromBucketInRange(trace: Trace, k: int, t1: int)
    requires k >= 1 && Run(trace, LargestTime, k).levels != Empty
    ensures var segments := Flatten(Run(trace, LargestTime, k).levels);
      segments != [] && FromBucket(segments, t1) < |segments|
  {
    RunInvariant(trace, LargestTime, k);
    NewestIsUnit(Run(trace, LargestTime, k).levels, k, 0);
  }

  /** With strictly increasing times only the bucket that holds sample a spans its time. */
  lemma SpansIffHolds(segments: seq<Segment>, p: nat, a: nat)
    requires p < |segments| && a < |Concat(segments)| && segments[p] != []
    requires StrictlySorted(Concat(segments))
    ensures StartOf(segments, p) < StartOf(segments, p + 1) <= |Concat(segments)|
    ensures MinTime(segments[p]) == Concat(segments)[StartOf(segments, p)].time
    ensures MaxTime(segments[p]) == Concat(segments)[StartOf(segments, p + 1) - 1].time
    ensures Spans(segments[p], Concat(segments)[a].time) <==> StartOf(segments, p) <= a < StartOf(segments, p + 1)
  {
    BucketInPlace(segments, p);
    StrictIsSorted(Concat(segments));
    BucketSorted(segments, p);
    SortedEnds(segments[p]);
    var lo, hi, all := StartOf(segments, p), StartOf(segments, p + 1), Concat(segments);
    assert segments[p][0] == all[lo];
    assert segments[p][hi - lo - 1] == all[hi - 1];
    StrictOrder(all, a, lo);
    StrictOrder(all, a, hi - 1);
  }

  lemma {:induction false} SpanningHolds(segments: seq<Segment>, n: nat, a: nat)
    requires n <= |segments| && StartOf(segments, n) <= a < |Concat(segments)|
    requires forall p :: 0 <= p < |segments| ==> segments[p] != []
    requires StrictlySorted(Concat(segments))
    ensures var p := FirstSpanning(segments, n, Concat(segments)[a].time);
      p < |segments| && StartOf(segments, p) <= a < StartOf(segments, p + 1)
    decreases |segments| - n
  {
    assert segments[..|segments|] == segments;
    assert n < |segments|;
    SpansIffHolds(segments, n, a);
    if a >= StartOf(segments, n + 1) {
      SpanningHolds(segments, n + 1, a);
    }
  }

  /** For two held samples the chosen buckets before rounding are the ones that hold them. */
  lemma ChosenBuckets(segments: seq<Segment>, a: nat, b: nat)
    requires a <= b < |Concat(segments)| && StrictlySorted(Concat(segments)) && segments != []
    requires forall p :: 0 <= p < |segments| ==> segments[p] != []
    ensures var from := StartBucket(segments, Concat(segments)[a].time);
      var to := ToBucket(segments, Concat(segments)[b].time);
      && StartOf(segments, from) <= a < StartOf(segments, from + 1)
      && StartOf(segments, to) <= b < StartOf(segments, to + 1)
      && from <= to
  {
    StartHolds(segments, a);
    EndHolds(segments, b);
    var from, to := StartBucket(segments, Concat(segments)[a].time), ToBucket(segments, Concat(segments)[b].time);
    if to < from {
      StartsAscend(segments, to + 1, from);
    }
  }

  lemma NotBeforeOldest(segments: seq<Segment>, a: nat)
    requires a < |Concat(segments)| && StrictlySorted(Concat(segments)) && segments != [] && segments[0] != []
    ensures Concat(segments)[a].time >= MinTime(segments[0])
  {
    assert segments[..0] == [];
    SpansIffHolds(segments, 0, a);
    StrictOrder(Concat(segments), 0, a);
  }

  lemma StartHolds(segments: seq<Segment>, a: nat)
    requires a < |Concat(segments)| && StrictlySorted(Concat(segments)) && segments != []
    requires forall p :: 0 <= p < |segments| ==> segments[p] != []
    ensures var from := StartBucket(segments, Concat(segments)[a].time);
      StartOf(segments, from) <= a < StartOf(segments, from + 1)
  {
    NotBeforeOldest(segments, a);
    assert segments[..0] == [];
    SpanningHolds(segments, 0, a);
  }

  lemma EndHolds(segments: seq<Segment>, b: nat)
    requires b < |Concat(segments)| && StrictlySorted(Concat(segments)) && segments != []
    requires forall p :: 0 <= p < |segments| ==> segments[p] != []
    ensures var to := ToBucket(segments, Concat(segments)[b].time);
      StartOf(segments, to) <= b < StartOf(segments, to + 1)
  {
    assert segments[..0] == [];
    SpanningHolds(segments, 0, b);
    NotAfterNewest(segments, b);
  }

  lemma NotAfterNewest(segments: seq<Segment>, b: nat)
    requires b < |Concat(segments)| && StrictlySorted(Concat(segments)) && segments != []
    requires segments[|segments| - 1] != []
    ensures Concat(segments)[b].time <= MaxTime(segments[|segments| - 1])
  {
    assert segments[..|segments|] == segments;
    SpansIffHolds(segments, |segments| - 1, b);
    StrictOrder(Concat(segments), b, |Concat(segments)| - 1);
  }

  /** Sample positions [first, last) that the answer for (t1, t2) is built from. */
  ghost function AnswerFirst(segments: seq<Segment>, t1: int): nat
    requires segments != [] && FromBucket(segments, t1) < |segments|
  {
    StartOf(segments, FromBucket(segments, t1))
  }

  ghost function AnswerLast(segments: seq<Segment>, t1: int, t2: int): nat
    requires segments != [] && FromBucket(segments, t1) < |segments|
  {
    StartOf(segments, Max(FromBucket(segments, t1), ToBucket(segments, t2)) + 1)
  }

  /**
    Where the answer for the times of two held samples a <= b starts and ends, times strictly
    increasing. It starts with the bucket of a when a is at most as far from its first sample as
    from its last, otherwise right after that bucket; it ends with the bucket of b, or with the
    next one when it starts after b.
   */
  ghost predicate AnswerIs(segments: seq<Segment>, a: nat, b: nat, p: nat, q: nat, first: nat, last: nat) {
    && p < |segments| && q < |segments|
    && StartOf(segments, p) <= a < StartOf(segments, p + 1) <= |Concat(segments)|
    && StartOf(segments, q) <= b < StartOf(segments, q + 1) <= |Concat(segments)|
    && var held, s, e := Concat(segments), StartOf(segments, p), StartOf(segments, p + 1);
    && first == (if held[a].time - held[s].time <= held[e - 1].time - held[a].time then s else e)
    && (first <= b ==> last == StartOf(segments, q + 1))
    && (first > b ==> q + 2 <= |segments| && last == StartOf(segments, q + 2))
  }

  /**
    Accuracy between two held samples a <= b. The answer misses at most the samples of the start
    bucket from a on, and adds at most the rest of the two end buckets. It misses [a, b] exactly
    when one bucket holds both ends and a is nearer to its end, and is then the bucket after them.
   */
  lemma IntervalAccuracy(trace: Trace, k: int, a: nat, b: nat)
    requires k >= 1 && StrictlySorted(Inserted(trace))
    requires a <= b < |Held(Run(trace, LargestTime, k).levels)|
    ensures var segments := Flatten(Run(trace, LargestTime, k).levels);
      var t1, t2 := Concat(segments)[a].time, Concat(segments)[b].time;
      && segments != [] && FromBucket(segments, t1) < |segments|
      && var first, last := AnswerFirst(segments, t1), AnswerLast(segments, t1, t2);
      var p, q := StartBucket(segments, t1), ToBucket(segments, t2);
      && AnswerIs(segments, a, b, p, q, first, last)
      && a - |segments[p]| < first < a + |segments[p]|
      && (first > b <==> p == q && first == StartOf(segments, p + 1))
      && (first <= b ==> b < last <= b + |segments[q]|)
  {
    var levels := Run(trace, LargestTime, k).levels;
    var segments := Flatten(levels);
    var held := Concat(segments);
    RunInvariant(trace, LargestTime, k);
    FlattenEmpty(levels, k, 0);
    AllNonEmpty(levels, k);
    var t1, t2 := held[a].time, held[b].time;
    FromBucketInRange(trace, k, t1);
    StrictSuffix(held, Inserted(trace));
    AnswerAround(segments, a, b);
  }

  lemma StrictSuffix(tail: seq<Sample>, whole: seq<Sample>)
    requires IsSuffix(tail, whole) && StrictlySorted(whole)
    ensures StrictlySorted(tail)
  {
    TailStrictlySorted(whole, |whole| - |tail|);
  }

  lemma AnswerAround(segments: seq<Segment>, a: nat, b: nat)
    requires a <= b < |Concat(segments)| && StrictlySorted(Concat(segments)) && segments != []
    requires forall p :: 0 <= p < |segments| ==> segments[p] != []
    requires FromBucket(segments, Concat(segments)[a].time) < |segments|
    ensures var t1, t2 := Concat(segments)[a].time, Concat(segments)[b].time;
      var first, last := AnswerFirst(segments, t1), AnswerLast(segments, t1, t2);
      var p, q := StartBucket(segments, t1), ToBucket(segments, t2);
      && AnswerIs(segments, a, b, p, q, first, last)
      && a - |segments[p]| < first < a + |segments[p]|
      && (first > b <==> p == q && first == StartOf(segments, p + 1))
      && (first <= b ==> b < last <= b + |segments[q]|)
  {
    var t1, t2 := Concat(segments)[a].time, Concat(segments)[b].time;
    ChosenBuckets(segments, a, b);
    SideOf(segments, a);
    AnswerPositions(segments, StartBucket(segments, t1), ToBucket(segments, t2), RoundsUp(segments, t1), a, b);
  }

  lemma AnswerPositions(segments: seq<Segment>, p: nat, q: nat, up: bool, a: nat, b: nat)
    requires p <= q < |segments| && a <= b
    requires StartOf(segments, p) <= a < StartOf(segments, p + 1)
    requires StartOf(segments, q) <= b < StartOf(segments, q + 1)
    requires up ==> a > StartOf(segments, p) && p + 1 < |segments|
    ensures var start := p + if up then 1 else 0;
      var first, last := StartOf(segments, start), StartOf(segments, Max(start, q) + 1);
      && StartOf(segments, p + 1) <= |Concat(segments)| && StartOf(segments, q + 1) <= |Concat(segments)|
      && a - |segments[p]| < first < a + |segments[p]|
      && (first > b <==> p == q && up) && (up <==> first == StartOf(segments, p + 1))
      && (first <= b ==> b < last <= b + |segments[q]| && last == StartOf(segments, q + 1))
      && (first > b ==> q + 2 <= |segments| && last == StartOf(segments, q + 2))
  {
    BucketInPlace(segments, p);
    BucketInPlace(segments, q);
    if p < q {
      StartsAscend(segments, p + 1, q);
    }
  }

  /** The start rounds up exactly when sample a is nearer to the last sample of its bucket than to the first. */
  lemma SideOf(segments: seq<Segment>, a: nat)
    requires a < |Concat(segments)| && StrictlySorted(Concat(segments)) && segments != []
    requires forall p :: 0 <= p < |segments| ==> segments[p] != []
    ensures var held, t := Concat(segments), Concat(segments)[a].time;
      var s, e := StartOf(segments, StartBucket(segments, t)), StartOf(segments, StartBucket(segments, t) + 1);
      && s <= a < e <= |held|
      && (RoundsUp(segments, t) <==> t - held[s].time > held[e - 1].time - t)
      && (RoundsUp(segments, t) ==> a > s)
  {
    StartHolds(segments, a);
    SpansIffHolds(segments, StartBucket(segments, Concat(segments)[a].time), a);
  }

  // ------------------------------------------------------------------ any times, repeated ones included

  /** First and last sample of bucket p in the stream of held samples. */
  lemma EndsOf(segments: seq<Segment>, p: nat)
    requires p < |segments| && segments[p] != [] && Sorted(Concat(segments))
    ensures StartOf(segments, p) < StartOf(segments, p + 1) <= |Concat(segments)|
    ensures MinTime(segments[p]) == Concat(segments)[StartOf(segments, p)].time
    ensures MaxTime(segments[p]) == Concat(segments)[StartOf(segments, p + 1) - 1].time
  {
    BucketInPlace(segments, p);
    BucketSorted(segments, p);
    SortedEnds(segments[p]);
    var all, lo, hi := Concat(segments), StartOf(segments, p), StartOf(segments, p + 1);
    assert all[lo..hi][0] == all[lo] && all[lo..hi][hi - lo - 1] == all[hi - 1];
  }

  lemma {:induction false} FirstSpans(segments: seq<Segment>, n: nat, t: int, p: nat)
    requires n <= p < |segments| && Spans(segments[p], t)
    requires forall r :: n <= r < p ==> !Spans(segments[r], t)
    ensures FirstSpanning(segments, n, t) == p
    decreases p - n
  {
    if n < p {
      FirstSpans(segments, n + 1, t, p);
    }
  }

  lemma {:induction false} NoneSpans(segments: seq<Segment>, n: nat, t: int)
    requires n <= |segments| && forall r :: n <= r < |segments| ==> !Spans(segments[r], t)
    ensures FirstSpanning(segments, n, t) == 0
    decreases |segments| - n
  {
    if n < |segments| {
      NoneSpans(segments, n + 1, t);
    }
  }

  /** The oldest bucket around time t: from position s up to e, everything before it is earlier. */
  ghost predicate OldestAround(segments: seq<Segment>, p: nat, t: int) {
    p < |segments| && StartOf(segments, p) < StartOf(segments, p + 1) <= |Concat(segments)| &&
    var held, s, e := Concat(segments), StartOf(segments, p), StartOf(segments, p + 1);
    held[s].time <= t <= held[e - 1].time && (s > 0 ==> held[s - 1].time < t)
  }

  lemma OlderDoNotSpan(segments: seq<Segment>, p: nat, t: int, r: nat)
    requires Sorted(Concat(segments)) && OldestAround(segments, p, t) && r < p && segments[r] != []
    ensures MaxTime(segments[r]) < t
  {
    EndsOf(segments, r);
    StartsAscend(segments, r + 1, p);
    var held, e := Concat(segments), StartOf(segments, r + 1);
    assert e - 1 < StartOf(segments, p) - 1 ==> InOrder(held, e - 1, StartOf(segments, p) - 1);
  }

  lemma BucketOf(segments: seq<Segment>, p: nat, t: int)
    requires Sorted(Concat(segments)) && OldestAround(segments, p, t)
    requires forall r :: 0 <= r < |segments| ==> segments[r] != []
    ensures FirstSpanning(segments, 0, t) == p
    ensures MinTime(segments[p]) == Concat(segments)[StartOf(segments, p)].time <= t
    ensures t <= MaxTime(segments[p]) == Concat(segments)[StartOf(segments, p + 1) - 1].time
  {
    EndsOf(segments, p);
    forall r | 0 <= r < p
      ensures !Spans(segments[r], t)
    {
      OlderDoNotSpan(segments, p, t, r);
    }
    FirstSpans(segments, 0, t, p);
  }

  lemma NotBeforeFirst(segments: seq<Segment>, p: nat)
    requires Sorted(Concat(segments)) && p < |segments| && segments[0] != [] && segments[p] != []
    ensures MinTime(segments[0]) <= MinTime(segments[p])
  {
    assert segments[..0] == [];
    EndsOf(segments, 0);
    EndsOf(segments, p);
    InTime(Concat(segments), 0, StartOf(segments, p));
  }

  lemma NotAfterLast(segments: seq<Segment>, p: nat)
    requires Sorted(Concat(segments)) && p < |segments| && segments[p] != [] && segments[|segments| - 1] != []
    ensures |Concat(segments)| >= 1
    ensures MaxTime(segments[p]) <= MaxTime(segments[|segments| - 1]) == Concat(segments)[|Concat(segments)| - 1].time
  {
    assert segments[..|segments|] == segments;
    EndsOf(segments, p);
    EndsOf(segments, |segments| - 1);
    InTime(Concat(segments), StartOf(segments, p + 1) - 1, |Concat(segments)| - 1);
  }

  /**
    A start inside a bucket: with that bucket when it is at most as far from its first sample as
    from its last, else right after it.
   */
  lemma StartInBucket(segments: seq<Segment>, p: nat, t: int)
    requires Sorted(Concat(segments)) && OldestAround(segments, p, t) && FromBucket(segments, t) < |segments|
    requires forall r :: 0 <= r < |segments| ==> segments[r] != []
    ensures var held, s, e := Concat(segments), StartOf(segments, p), StartOf(segments, p + 1);
      AnswerFirst(segments, t) == if t - held[s].time <= held[e - 1].time - t then s else e
  {
    StartsWith(segments, p, t);
    FirstAfter(segments, p, t, RoundsUp(segments, t));
  }

  lemma FirstAfter(segments: seq<Segment>, p: nat, t: int, up: bool)
    requires p < |segments| && StartBucket(segments, t) == p && FromBucket(segments, t) < |segments|
    requires up == RoundsUp(segments, t)
    ensures up ==> AnswerFirst(segments, t) == StartOf(segments, p + 1)
    ensures !up ==> AnswerFirst(segments, t) == StartOf(segments, p)
  {
  }

  lemma StartsWith(segments: seq<Segment>, p: nat, t: int)
    requires Sorted(Concat(segments)) && OldestAround(segments, p, t)
    requires forall r :: 0 <= r < |segments| ==> segments[r] != []
    ensures StartBucket(segments, t) == p
    ensures var held, s, e := Concat(segments), StartOf(segments, p), StartOf(segments, p + 1);
      RoundsUp(segments, t) <==> t - held[s].time > held[e - 1].time - t
  {
    BucketOf(segments, p, t);
    NotBeforeFirst(segments, p);
  }

  /** An end inside a bucket: with that bucket. */
  lemma EndInBucket(segments: seq<Segment>, p: nat, t: int)
    requires Sorted(Concat(segments)) && OldestAround(segments, p, t)
    requires forall r :: 0 <= r < |segments| ==> segments[r] != []
    ensures ToBucket(segments, t) == p
  {
    BucketOf(segments, p, t);
    NotAfterLast(segments, p);
  }

  /** A start inside no bucket: with the first one, or after it when that one is over and not a single instant. */
  lemma StartInNoBucket(segments: seq<Segment>, t: int)
    requires Sorted(Concat(segments)) && segments != [] && FromBucket(segments, t) < |segments|
    requires forall r :: 0 <= r < |segments| ==> segments[r] != [] && !Spans(segments[r], t)
    ensures var held, e := Concat(segments), StartOf(segments, 1);
      && 1 <= e <= |held|
      && AnswerFirst(segments, t) == if held[0].time < held[e - 1].time < t then e else 0
  {
    assert segments[..0] == [];
    NoneSpans(segments, 0, t);
    EndsOf(segments, 0);
    assert !Spans(segments[0], t);
    InTime(Concat(segments), 0, StartOf(segments, 1) - 1);
  }

  /** An end inside no bucket: with the last one after all of them, else with the first. */
  lemma EndInNoBucket(segments: seq<Segment>, t: int)
    requires Sorted(Concat(segments)) && segments != []
    requires forall r :: 0 <= r < |segments| ==> segments[r] != [] && !Spans(segments[r], t)
    ensures |Concat(segments)| >= 1
    ensures ToBucket(segments, t) == if t > Concat(segments)[|Concat(segments)| - 1].time then |segments| - 1 else 0
  {
    NoneSpans(segments, 0, t);
    EndsOf(segments, |segments| - 1);
    NotAfterLast(segments, |segments| - 1);
  }

  class ExpoHistogramKLL {
    var sCount: int
    var cols: Columns
    var k: int
    var timeWindowSize: int
    ghost var trace: Trace

    ghost function Segments(): seq<Segment>
      requires k >= 1
      reads this
    {
      Flatten(Run(trace, LargestTime, k).levels)
    }

    ghost predicate Valid()
      reads this
    {
      && k >= 1
      && timeWindowSize == Run(trace, LargestTime, k).window
      && sCount == |cols.klls|
      && Describes(cols, Segments())
    }

    constructor (k: int, timeWindowSize: int)
      requires k >= 1
      ensures Valid() && trace == Start(timeWindowSize) && this.k == k
    {
      this.k := k;
      this.timeWindowSize := timeWindowSize;
      sCount, cols := 0, Columns([], [], [], []);
      trace := Start(timeWindowSize);
    }

    method UpdateWindow(window: int)
      requires Valid()
      modifies this
      ensures Valid() && k == old(k) && cols == old(cols) && timeWindowSize == window
      ensures trace == Then(old(trace), SetWindow(window))
    {
      timeWindowSize := window;
      trace := Then(trace, SetWindow(window));
    }

    method Update(time: int, value: real)
      requires Valid()
      modifies this
      ensures Valid() && k == old(k) && timeWindowSize == old(timeWindowSize)
      ensures trace == Then(old(trace), Insert(Sample(time, value)))
    {
      ghost var st := Run(trace, LargestTime, k);
      ghost var sample := Sample(time, value);
      RunInvariant(trace, LargestTime, k);

      var removed := CountExpired(cols, sCount, time - timeWindowSize, Segments());
      ghost var dropped := InsertStep(st, sample, LargestTime, k);
      ghost var kept := AfterExpiry(st, time, LargestTime);
      var live, count := cols, sCount;
      if removed > 0 {
        count := count - removed;
        live := DropPrefix(live, removed, Segments());
      }
      live := Append(live, time, value, Flatten(kept));
      count := count + 1;
      cols, sCount := MergeRuns(live, count, k, kept, sample);
      trace := Then(trace, Insert(sample));
    }

    static method CountExpired(cols: Columns, sCount: int, cutoff: int, ghost segments: seq<Segment>)
      returns (removed: int)
      requires sCount == |cols.klls| && Describes(cols, segments)
      ensures removed == Expired(segments, LargestTime, cutoff)
    {
      removed := 0;
      while removed < sCount
        invariant 0 <= removed <= sCount
        invariant forall p :: 0 <= p < removed ==> NewestTime(LargestTime, segments[p]) < cutoff
      {
        assert Column(cols, segments, removed);
        if cols.maxTime[removed] < cutoff {
          removed := removed + 1;
        } else {
          break;
        }
      }
      assert removed < sCount ==> Column(cols, segments, removed);
      ExpiredIs(segments, LargestTime, cutoff, removed);
    }

    static method DropPrefix(cols: Columns, removed: int, ghost segments: seq<Segment>) returns (r: Columns)
      requires 0 <= removed <= |cols.klls| && Describes(cols, segments)
      ensures Describes(r, segments[removed..])
    {
      r := Columns(cols.klls[removed..], cols.maxTime[removed..], cols.minTime[removed..], cols.bucketSize[removed..]);
      forall p | 0 <= p < |segments| - removed
        ensures Column(r, segments[removed..], p)
      {
        assert Column(cols, segments, removed + p);
      }
    }

    /** A new sketch that absorbs one value, at the newest end of all four slices. */
    static method Append(cols: Columns, time: int, value: real, ghost segments: seq<Segment>) returns (r: Columns)
      requires Describes(cols, segments)
      ensures Describes(r, segments + [[Sample(time, value)]])
    {
      r := Columns(cols.klls + [multiset{value}], cols.maxTime + [time], cols.minTime + [time], cols.bucketSize + [1]);
      ghost var s := [Sample(time, value)];
      assert s[1..] == [];
      forall p | 0 <= p < |segments + [s]|
        ensures Column(r, segments + [s], p)
      {
        assert p < |segments| ==> Column(cols, segments, p);
      }
    }

    /** Bucket p absorbs bucket p + 1 in all four slices. */
    static method MergeNext(cols: Columns, p: nat, ghost segments: seq<Segment>) returns (r: Columns)
      requires p + 1 < |cols.klls| && Describes(cols, segments)
      ensures Describes(r, MergeAt(segments, p))
      ensures |r.klls| == |cols.klls| - 1
    {
      var klls, maxTime, minTime, size := cols.klls, cols.maxTime, cols.minTime, cols.bucketSize;
      klls := klls[p := klls[p] + klls[p + 1]];
      size := size[p := size[p] + size[p + 1]];
      maxTime := maxTime[p := Max(maxTime[p], maxTime[p + 1])];
      minTime := minTime[p := Min(minTime[p], minTime[p + 1])];
      r := Columns(klls[..p + 1] + klls[p + 2..], maxTime[..p + 1] + maxTime[p + 2..],
                   minTime[..p + 1] + minTime[p + 2..], size[..p + 1] + size[p + 2..]);
      assert Column(cols, segments, p) && Column(cols, segments, p + 1);
      ValuesPlus(segments[p], segments[p + 1]);
      TimesPlus(segments[p], segments[p + 1]);
      forall q | 0 <= q < |MergeAt(segments, p)|
        ensures Column(r, MergeAt(segments, p), q)
      {
        assert q < p ==> Column(cols, segments, q);
        assert q > p ==> Column(cols, segments, q + 1);
      }
    }

    /** The backward merge pass. */
    static method MergeRuns(cols: Columns, sCount: int, k: int, ghost kept: Levels, ghost sample: Sample)
      returns (merged: Columns, count: int)
      requires k >= 1 && Canonical(kept, k, 0)
      requires sCount == |cols.klls| && Describes(cols, Flatten(kept) + [[sample]])
      ensures count == |merged.klls| && Describes(merged, Flatten(Add(kept, [sample], k)))
    {
      merged, count := cols, sCount;
      ghost var goal := Flatten(Add(kept, [sample], k));
      ghost var sc := ScanStart(kept, [sample], k);
      ghost var segments := Flatten(kept) + [[sample]];
      var same := 1;
      var i := count - 2;
      while i >= 0
        invariant -1 <= i && count == |merged.klls|
        invariant Describes(merged, segments)
        invariant Scanning(sc, segments, i, same, k, goal)
      {
        ScanInside(sc, segments, i, same, k, goal);
        assert Column(merged, segments, i) && Column(merged, segments, i + 1);
        if merged.bucketSize[i] == merged.bucketSize[i + 1] {
          same := same + 1;
        } else {
          RunIsFullIff(same, k);
          if RunIsFull(same, k) {
            sc := ScanCarry(sc, segments, i, same, k, goal);
            merged := MergeNext(merged, i + 1, segments);
            count := count - 1;
            segments := MergeAt(segments, i + 1);
          } else {
            sc := ScanQuiet(sc, segments, i, same, k, goal);
          }
          same := 1;
          assert Column(merged, segments, i) && Column(merged, segments, i + 1);
          if merged.bucketSize[i + 1] == merged.bucketSize[i] {
            same := same + 1;
          }
        }
        i := i - 1;
      }
      RunIsFullIff(same, k);
      ScanEnd(sc, segments, same, k, goal);
      if RunIsFull(same, k) {
        merged := MergeNext(merged, 0, segments);
        count := count - 1;
      }
    }

    method Cover(mint: int, maxt: int) returns (covered: bool)
      requires Valid()
      ensures covered <==>
        Segments() != [] && MaxTime(Segments()[sCount - 1]) >= maxt && MinTime(Segments()[0]) <= mint
    {
      if sCount == 0 {
        return false;
      }
      assert Column(cols, Segments(), 0) && Column(cols, Segments(), sCount - 1);
      covered := cols.maxTime[sCount - 1] >= maxt && cols.minTime[0] <= mint;
    }

    static lemma EarlierIsOlder(all: seq<Sample>, p: nat, d: nat)
      requires p < |all| && d < |all| && Sorted(all)
      ensures p < d ==> all[p].time <= all[d].time
      ensures p < d && StrictlySorted(all) ==> all[p].time < all[d].time
    {
      assert p < d ==> InOrder(all, p, d);
      assert p < d && StrictlySorted(all) ==> StrictlyInOrder(all, p, d);
    }

    /** No sample with a time in an interval from mint on has been dropped. */
    ghost predicate NothingLost(mint: int)
      requires k >= 1
      reads this
    {
      forall p :: 0 <= p < |Inserted(trace)| - |Concat(Segments())| ==> Inserted(trace)[p].time < mint
    }

    /** The last sample dropped has time t. */
    ghost predicate LastDroppedAt(t: int)
      requires k >= 1
      reads this
    {
      var dropped := |Inserted(trace)| - |Concat(Segments())|;
      dropped > 0 && Inserted(trace)[dropped - 1].time == t
    }

    /**
      What an accepted start means, over every run with non-decreasing times, window changes
      included: samples from it on have been lost if and only if it is the oldest held time and
      the last sample dropped has that same time.
     */
    lemma CoverIsSound(mint: int)
      requires Valid() && Segments() != [] && MinTime(Segments()[0]) <= mint && Sorted(Inserted(trace))
      ensures IsSuffix(Concat(Segments()), Inserted(trace))
      ensures NothingLost(mint) <==> !(mint == MinTime(Segments()[0]) && LastDroppedAt(mint))
    {
      var held, all := Concat(Segments()), Inserted(trace);
      HeldFrom();
      var d := |all| - |held|;
      forall p | 0 <= p < d
        ensures all[p].time <= all[d - 1].time <= MinTime(Segments()[0])
      {
        EarlierIsOlder(all, p, d - 1);
        EarlierIsOlder(all, d - 1, d);
      }
    }

    /** The held samples are the stream from some position on, and the oldest bucket knows the time there. */
    lemma HeldFrom()
      requires Valid() && Segments() != [] && Sorted(Inserted(trace))
      ensures IsSuffix(Concat(Segments()), Inserted(trace)) && Concat(Segments()) != []
      ensures Inserted(trace)[|Inserted(trace)| - |Concat(Segments())|].time == MinTime(Segments()[0])
    {
      RunInvariant(trace, LargestTime, k);
      var held, all := Concat(Segments()), Inserted(trace);
      AllNonEmpty(Run(trace, LargestTime, k).levels, k);
      SuffixSorted(held, all);
      OldestInPlace(Segments());
      BucketSorted(Segments(), 0);
      SortedEnds(Segments()[0]);
      assert held[0] == Segments()[0][0];
    }

    /** With strictly increasing times, or a start after the oldest held time, an accepted start loses nothing. */
    lemma CoverIsSafe(mint: int, p: nat)
      requires Valid() && Segments() != [] && MinTime(Segments()[0]) <= mint
      requires Sorted(Inserted(trace)) && p < |Inserted(trace)| && Inserted(trace)[p].time >= mint
      requires StrictlySorted(Inserted(trace)) || MinTime(Segments()[0]) < mint
      ensures p >= |Inserted(trace)| - |Concat(Segments())|
    {
      CoverIsSound(mint);
      HeldFrom();
      var d := |Inserted(trace)| - |Concat(Segments())|;
      if d > 0 {
        EarlierIsOlder(Inserted(trace), d - 1, d);
      }
    }

    method QueryIntervalMergeKLL(t1: int, t2: int) returns (r: QueryResult)
      requires Valid()
      ensures r.NoBuckets? <==> sCount == 0
      ensures r.Merged? ==> Segments() != [] && FromBucket(Segments(), t1) < |Segments()|
      ensures r.Merged? ==> AnswerFirst(Segments(), t1) <= AnswerLast(Segments(), t1, t2) <= |Concat(Segments())|
      ensures r.Merged? ==>
        r.sketch == Values(Concat(Segments())[AnswerFirst(Segments(), t1)..AnswerLast(Segments(), t1, t2)])
    {
      if sCount == 0 {
        return NoBuckets;
      }
      assert Run(trace, LargestTime, k).levels != Empty;
      FromBucketInRange(trace, k, t1);
      var from, to := ChooseBuckets(t1, t2);
      BucketInPlace(Segments(), from);
      if from < to {
        r := MergeRange(from, to);
      } else {
        assert Column(cols, Segments(), from);
        r := Merged(cols.klls[from]);
      }
    }

    method ChooseBuckets(t1: int, t2: int) returns (from: int, to: int)
      requires Valid() && sCount > 0
      ensures from == FromBucket(Segments(), t1) && to == ToBucket(Segments(), t2)
    {
      from := FindSpanning(t1);
      to := FindSpanning(t2);
      assert Column(cols, Segments(), 0) && Column(cols, Segments(), sCount - 1);
      if t2 > cols.maxTime[sCount - 1] {
        to := sCount - 1;
      }
      if t1 < cols.minTime[0] {
        from := 0;
      }
      assert Column(cols, Segments(), from);
      if Abs(t1 - cols.minTime[from]) > Abs(t1 - cols.maxTime[from]) {
        from := from + 1;
      }
      if to >= sCount {
        to := sCount - 1;
      }
    }

    method MergeRange(from: int, to: int) returns (r: QueryResult)
      requires Valid() && 0 <= from <= to < sCount
      ensures 0 <= StartOf(Segments(), from) <= StartOf(Segments(), to + 1) <= |Concat(Segments())|
      ensures r == Merged(Values(Concat(Segments())[StartOf(Segments(), from)..StartOf(Segments(), to + 1)]))
    {
      ghost var segments := Segments();
      ghost var all, start := Concat(segments), StartOf(segments, from);
      BucketInPlace(segments, from);
      var merged: Sketch := multiset{};
      var i := from;
      assert all[start..start] == [];
      while i <= to
        invariant from <= i <= to + 1
        invariant start <= StartOf(segments, i) <= |all|
        invariant merged == Values(all[start..StartOf(segments, i)])
      {
        assert Column(cols, segments, i);
        BucketInPlace(segments, i);
        ExtendSlice(all, start, StartOf(segments, i), StartOf(segments, i + 1));
        merged := merged + cols.klls[i];
        i := i + 1;
      }
      return Merged(merged);
    }

    static lemma ExtendSlice(s: seq<Sample>, a: nat, b: nat, c: nat)
      requires a <= b <= c <= |s|
      ensures Values(s[a..c]) == Values(s[a..b]) + Values(s[b..c])
    {
      assert s[a..c] == s[a..b] + s[b..c];
      ValuesPlus(s[a..b], s[b..c]);
    }

    method FindSpanning(t: int) returns (p: int)
      requires Valid()
      ensures p == FirstSpanning(Segments(), 0, t)
    {
      p := 0;
      var i := 0;
      while i < sCount
        invariant 0 <= i <= sCount && p == 0
        invariant FirstSpanning(Segments(), 0, t) == FirstSpanning(Segments(), i, t)
      {
        assert Column(cols, Segments(), i);
        if t >= cols.minTime[i] && t <= cols.maxTime[i] {
          p := i;
          break;
        }
        i := i + 1;
      }
    }
  }
}
