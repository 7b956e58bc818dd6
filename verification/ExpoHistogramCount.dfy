/** The exponential histogram for counting: internal/promsketch/ExponentialHistogram.go, ExpoHistogramCount. */
module CountHistogram {
  import opened Numbers
  import opened Stream
  import opened Cascade
  import opened CascadeBounds
  import opened CascadePass
  import opened ExpoRuns

  datatype CountBucket = CountBucket(count: int, bucketSize: int, minTime: int, maxTime: int)

  datatype QueryResult = Found(bucket: CountBucket) | NotFound

  ghost predicate Summary(buckets: seq<CountBucket>, segments: seq<Segment>, p: nat)
    requires p < |buckets| == |segments|
  {
    var s := segments[p];
    s != [] && buckets[p] == CountBucket(|s|, |s|, s[0].time, s[|s| - 1].time)
  }

  /** The concrete buckets describe these segments, one by one. */
  ghost predicate Summarises(buckets: seq<CountBucket>, segments: seq<Segment>) {
    |buckets| == |segments| &&
    forall p :: 0 <= p < |buckets| ==> Summary(buckets, segments, p)
  }

  ghost function TotalSize(buckets: seq<CountBucket>): int {
    if buckets == [] then 0 else buckets[0].bucketSize + TotalSize(buckets[1..])
  }

  lemma {:induction false} TotalSizeIsHeld(buckets: seq<CountBucket>, segments: seq<Segment>)
    requires Summarises(buckets, segments)
    ensures TotalSize(buckets) == |Concat(segments)|
  {
    if buckets != [] {
      assert Summary(buckets, segments, 0);
      assert forall p :: 0 <= p < |buckets| - 1 ==> Summary(buckets, segments, p + 1) ==>
        Summary(buckets[1..], segments[1..], p);
      TotalSizeIsHeld(buckets[1..], segments[1..]);
    }
  }

  // ------------------------------------------------------------------ interval queries

  ghost predicate Spans(s: Segment, t: int) {
    s != [] && s[0].time <= t <= s[|s| - 1].time
  }

  /** The last of the first n buckets whose time range contains t, or 0 when there is none. */
  ghost function LastSpanning(segments: seq<Segment>, n: nat, t: int): (p: nat)
    requires n <= |segments|
    ensures n > 0 ==> p < n
  {
    if n == 0 then 0 else if Spans(segments[n - 1], t) then n - 1 else LastSpanning(segments, n - 1, t)
  }

  /** A time inside no bucket is looked up in the oldest one. */
  lemma {:induction false} NoneSpans(segments: seq<Segment>, n: nat, t: int)
    requires n <= |segments| && forall p :: 0 <= p < n ==> !Spans(segments[p], t)
    ensures LastSpanning(segments, n, t) == 0
  {
    if n > 0 {
      NoneSpans(segments, n - 1, t);
    }
  }

  ghost function SamplesBetween(segments: seq<Segment>, from: nat, to: nat): int
    requires from < |segments| && to < |segments|
  {
    if from <= to then StartOf(segments, to + 1) - StartOf(segments, from) else 0
  }

  /** The bucket found spans t and no newer one does. */
  lemma {:induction false} LastSpans(segments: seq<Segment>, n: nat, t: int, p: nat)
    requires p < n <= |segments| && Spans(segments[p], t)
    ensures var q := LastSpanning(segments, n, t);
      p <= q < n && Spans(segments[q], t) && forall r :: q < r < n ==> !Spans(segments[r], t)
  {
    if !Spans(segments[n - 1], t) {
      LastSpans(segments, n - 1, t, p);
    }
  }

  lemma {:induction false} HoldingBucket(segments: seq<Segment>, n: nat, a: nat) returns (p: nat)
    requires n <= |segments| && a < StartOf(segments, n)
    ensures p < n && StartOf(segments, p) <= a < StartOf(segments, p + 1)
  {
    assert segments[..0] == [];
    if n > 0 {
      BucketInPlace(segments, n - 1);
      if a < StartOf(segments, n - 1) {
        p := HoldingBucket(segments, n - 1, a);
      } else {
        p := n - 1;
      }
    }
  }

  /** The newest bucket that spans the time of a held sample, and where it lies in the stream. */
  lemma NewestSpanning(segments: seq<Segment>, a: nat)
    requires a < |Concat(segments)| && Sorted(Concat(segments))
    requires forall p :: 0 <= p < |segments| ==> segments[p] != []
    ensures var t := Concat(segments)[a].time; var q := LastSpanning(segments, |segments|, t);
      q < |segments| && Spans(segments[q], t) && forall r :: q < r < |segments| ==> !Spans(segments[r], t)
  {
    assert segments[..|segments|] == segments;
    var p := HoldingBucket(segments, |segments|, a);
    HolderSpans(segments, p, a);
    LastSpans(segments, |segments|, Concat(segments)[a].time, p);
  }

  lemma HolderSpans(segments: seq<Segment>, p: nat, a: nat)
    requires p < |segments| && segments[p] != [] && Sorted(Concat(segments))
    requires StartOf(segments, p) <= a < StartOf(segments, p + 1) && a < |Concat(segments)|
    ensures Spans(segments[p], Concat(segments)[a].time)
  {
    BucketEnds(segments, p);
    InTime(Concat(segments), StartOf(segments, p), a);
    InTime(Concat(segments), a, StartOf(segments, p + 1) - 1);
  }

  /** Every sample after that bucket is later. */
  lemma LaterAfter(segments: seq<Segment>, q: nat, t: int, i: nat)
    requires q < |segments| && Sorted(Concat(segments)) && Spans(segments[q], t)
    requires forall p :: 0 <= p < |segments| ==> segments[p] != []
    requires forall r :: q < r < |segments| ==> !Spans(segments[r], t)
    requires StartOf(segments, q + 1) <= i < |Concat(segments)|
    ensures Concat(segments)[i].time > t
  {
    var all := Concat(segments);
    assert segments[..|segments|] == segments;
    BucketEnds(segments, q);
    assert q + 1 < |segments|;
    BucketEnds(segments, q + 1);
    var mid, hi := StartOf(segments, q + 1), StartOf(segments, q + 2);
    InTime(all, mid - 1, mid);
    InTime(all, mid, hi - 1);
    InTime(all, mid, i);
  }

  /** First and last sample of a bucket in the stream. */
  lemma BucketEnds(segments: seq<Segment>, p: nat)
    requires p < |segments| && segments[p] != []
    ensures StartOf(segments, p) < StartOf(segments, p + 1) <= |Concat(segments)|
    ensures segments[p][0] == Concat(segments)[StartOf(segments, p)]
    ensures segments[p][|segments[p]| - 1] == Concat(segments)[StartOf(segments, p + 1) - 1]
  {
    BucketInPlace(segments, p);
    var all, lo, hi := Concat(segments), StartOf(segments, p), StartOf(segments, p + 1);
    assert all[lo..hi][0] == all[lo] && all[lo..hi][hi - lo - 1] == all[hi - 1];
  }

  /** The end bucket of a later time is not before the start bucket. */
  lemma EndsAfterStart(segments: seq<Segment>, from: nat, to: nat, t1: int, t2: int)
    requires from < |segments| && to < |segments| && t1 <= t2 && Sorted(Concat(segments))
    requires forall p :: 0 <= p < |segments| ==> segments[p] != []
    requires Spans(segments[from], t1) && Spans(segments[to], t2)
    requires forall r :: to < r < |segments| ==> !Spans(segments[r], t2)
    ensures from <= to
  {
    if to < from {
      BucketEnds(segments, from);
      StartsAscend(segments, to + 1, from);
      LaterAfter(segments, to, t2, StartOf(segments, from));
    }
  }

  lemma {:induction false} CountInIs(s: seq<Sample>, from: int, to: int)
    requires from <= to
    ensures CountIn(s, from, to) + CountSince(s, to + 1) == CountSince(s, from)
  {
    if s != [] {
      CountInIs(s[1..], from, to);
    }
  }

  /** How many samples before position p belong to an interval from t on. */
  ghost function Missed(all: seq<Sample>, p: nat, t: int): nat
    requires p <= |all|
  {
    CountSince(all[..p], t)
  }

  /** How many samples of the end bucket are later than t. */
  ghost function Late(s: Segment, t: int): nat {
    CountSince(s, t + 1)
  }

  /** How many samples of the start bucket are earlier than t. */
  ghost function Early(s: Segment, t: int): int {
    |s| - CountSince(s, t)
  }

  /** Splitting the count since t at a stretch: none before it, or all after it. */
  lemma SinceStart(all: seq<Sample>, p: nat, first: Segment, t: int)
    requires p + |first| <= |all| && all[p..p + |first|] == first
    requires forall i :: p + |first| <= i < |all| ==> all[i].time >= t
    ensures CountSince(all, t) == Missed(all, p, t) + CountSince(first, t) + (|all| - p - |first|)
  {
    var n := p + |first|;
    assert all == all[..n] + all[n..] && all[..n] == all[..p] + first;
    CountSincePlus(all[..n], all[n..], t);
    CountSincePlus(all[..p], first, t);
    CountSinceAll(all[n..], t);
  }

  lemma SinceEnd(all: seq<Sample>, q: nat, last: Segment, t: int)
    requires |last| <= q <= |all| && all[q - |last|..q] == last
    requires forall i :: 0 <= i < q - |last| ==> all[i].time <= t
    requires forall i :: q <= i < |all| ==> all[i].time > t
    ensures CountSince(all, t + 1) == Late(last, t) + (|all| - q)
  {
    var n := q - |last|;
    assert all == all[..q] + all[q..] && all[..q] == all[..n] + last;
    CountSincePlus(all[..q], all[q..], t + 1);
    CountSincePlus(all[..n], last, t + 1);
    CountSinceNone(all[..n], t + 1);
    CountSinceAll(all[q..], t + 1);
  }

  /** The exact count against that of a stretch of whole buckets, sample by sample. */
  ghost predicate Accounted(all: seq<Sample>, d: nat, segments: seq<Segment>, t1: int, t2: int, count: int)
    requires segments != [] && d + |Concat(segments)| <= |all|
  {
    var from, to := LastSpanning(segments, |segments|, t1), LastSpanning(segments, |segments|, t2);
    var p := StartOf(segments, from);
    && p <= |Concat(segments)|
    && CountIn(all, t1, t2) + Early(segments[from], t1) + Late(segments[to], t2) == count + Missed(all, d + p, t1)
    && 0 <= Early(segments[from], t1) < |segments[from]| && Late(segments[to], t2) < |segments[to]|
  }

  lemma EarlyBound(s: Segment, t: int)
    requires s != [] && s[|s| - 1].time >= t
    ensures 0 <= Early(s, t) < |s|
  {
    var n := |s| - 1;
    assert s == s[..n] + [s[n]] && [s[n]][1..] == [];
    CountSincePlus(s[..n], [s[n]], t);
    CountSinceBound(s, t);
  }

  lemma LateBound(s: Segment, t: int)
    requires s != [] && s[0].time <= t
    ensures Late(s, t) < |s|
  {
    CountSinceBound(s[1..], t + 1);
  }

  /** The stream from the start bucket on. */
  lemma FromStart(all: seq<Sample>, d: nat, segments: seq<Segment>, from: nat, t1: int)
    requires d <= |all| && all[d..] == Concat(segments) && Sorted(all)
    requires from < |segments| && Spans(segments[from], t1)
    ensures var p := d + StartOf(segments, from);
      && p + |segments[from]| <= |all|
      && CountSince(all, t1) == Missed(all, p, t1) + CountSince(segments[from], t1) + (|all| - p - |segments[from]|)
  {
    var p, first := d + StartOf(segments, from), segments[from];
    BucketInPlace(segments, from);
    assert all[p..p + |first|] == Concat(segments)[p - d..p - d + |first|] == first;
    assert first[|first| - 1] == all[p + |first| - 1];
    forall i | p + |first| <= i < |all|
      ensures all[i].time >= t1
    {
      InTime(all, p + |first| - 1, i);
    }
    SinceStart(all, p, first, t1);
  }

  /** The stream up to the end bucket. */
  lemma UpToEnd(all: seq<Sample>, d: nat, segments: seq<Segment>, to: nat, t2: int)
    requires d <= |all| && all[d..] == Concat(segments) && Sorted(all)
    requires forall p :: 0 <= p < |segments| ==> segments[p] != []
    requires to < |segments| && Spans(segments[to], t2)
    requires forall r :: to < r < |segments| ==> !Spans(segments[r], t2)
    ensures var q := d + StartOf(segments, to + 1);
      q <= |all| && CountSince(all, t2 + 1) == Late(segments[to], t2) + (|all| - q)
  {
    var q, last := d + StartOf(segments, to + 1), segments[to];
    BucketInPlace(segments, to);
    assert all[q - |last|..q] == Concat(segments)[q - d - |last|..q - d] == last;
    assert last[0] == all[q - |last|];
    forall i | 0 <= i < q - |last|
      ensures all[i].time <= t2
    {
      InTime(all, i, q - |last|);
    }
    TailSorted(all, d);
    forall i | q <= i < |all|
      ensures all[i].time > t2
    {
      LaterAfter(segments, to, t2, i - d);
      assert all[i] == Concat(segments)[i - d];
    }
    SinceEnd(all, q, last, t2);
  }

  /**
    Interval count, for non-decreasing times: between two held samples the buckets spanning their
    times hold the exact number of samples, plus those of the end buckets outside the interval,
    less those of the interval that lie before the start bucket, where times repeat. So they hold
    enough if and only if the latter are not more, and never more than the two end buckets too many.
   */
  lemma IntervalAccount(trace: Trace, k: int, a: nat, b: nat)
    requires k >= 1 && Sorted(Inserted(trace))
    requires a <= b < |Held(Run(trace, LastSample, k).levels)|
    ensures var segments := Flatten(Run(trace, LastSample, k).levels);
      var held, all := Concat(segments), Inserted(trace);
      var from := LastSpanning(segments, |segments|, held[a].time);
      var to := LastSpanning(segments, |segments|, held[b].time);
      && from <= to < |segments| && IsSuffix(held, all)
      && Accounted(all, |all| - |held|, segments, held[a].time, held[b].time, SamplesBetween(segments, from, to))
      && var exact, p := CountIn(all, held[a].time, held[b].time), |all| - |held| + StartOf(segments, from);
      && SamplesBetween(segments, from, to) <= exact + |segments[from]| + |segments[to]| - 2
      && (exact <= SamplesBetween(segments, from, to) <==>
            Missed(all, p, held[a].time) <= Early(segments[from], held[a].time) + Late(segments[to], held[b].time))
  {
    var segments := Flatten(Run(trace, LastSample, k).levels);
    HeldShape(trace, k);
    FullAccount(Inserted(trace), segments, a, b);
  }

  lemma HeldShape(trace: Trace, k: int)
    requires k >= 1
    ensures var segments := Flatten(Run(trace, LastSample, k).levels);
      IsSuffix(Concat(segments), Inserted(trace)) && forall p :: 0 <= p < |segments| ==> segments[p] != []
  {
    RunInvariant(trace, LastSample, k);
    AllNonEmpty(Run(trace, LastSample, k).levels, k);
  }

  lemma FullAccount(all: seq<Sample>, segments: seq<Segment>, a: nat, b: nat)
    requires Sorted(all) && IsSuffix(Concat(segments), all) && a <= b < |Concat(segments)|
    requires forall p :: 0 <= p < |segments| ==> segments[p] != []
    ensures var held := Concat(segments);
      var from := LastSpanning(segments, |segments|, held[a].time);
      var to := LastSpanning(segments, |segments|, held[b].time);
      && from <= to < |segments|
      && Accounted(all, |all| - |held|, segments, held[a].time, held[b].time, SamplesBetween(segments, from, to))
      && var exact, p := CountIn(all, held[a].time, held[b].time), |all| - |held| + StartOf(segments, from);
      && SamplesBetween(segments, from, to) <= exact + |segments[from]| + |segments[to]| - 2
      && (exact <= SamplesBetween(segments, from, to) <==>
            Missed(all, p, held[a].time) <= Early(segments[from], held[a].time) + Late(segments[to], held[b].time))
  {
    AccountOf(all, segments, a, b);
    var held := Concat(segments);
    var t1, t2 := held[a].time, held[b].time;
    var from, to := LastSpanning(segments, |segments|, t1), LastSpanning(segments, |segments|, t2);
    EnoughIff(all, |all| - |held|, segments, t1, t2, SamplesBetween(segments, from, to));
  }

  lemma EnoughIff(all: seq<Sample>, d: nat, segments: seq<Segment>, t1: int, t2: int, count: int)
    requires segments != [] && d + |Concat(segments)| <= |all| && Accounted(all, d, segments, t1, t2, count)
    ensures var from, to := LastSpanning(segments, |segments|, t1), LastSpanning(segments, |segments|, t2);
      var p := d + StartOf(segments, from);
      && count <= CountIn(all, t1, t2) + |segments[from]| + |segments[to]| - 2
      && (CountIn(all, t1, t2) <= count <==>
            Missed(all, p, t1) <= Early(segments[from], t1) + Late(segments[to], t2))
  {
  }

  lemma AccountOf(all: seq<Sample>, segments: seq<Segment>, a: nat, b: nat)
    requires Sorted(all) && IsSuffix(Concat(segments), all) && a <= b < |Concat(segments)|
    requires forall p :: 0 <= p < |segments| ==> segments[p] != []
    ensures var held := Concat(segments);
      var from := LastSpanning(segments, |segments|, held[a].time);
      var to := LastSpanning(segments, |segments|, held[b].time);
      && from <= to < |segments|
      && Accounted(all, |all| - |held|, segments, held[a].time, held[b].time, SamplesBetween(segments, from, to))
  {
    var held := Concat(segments);
    var d, t1, t2 := |all| - |held|, held[a].time, held[b].time;
    TailSorted(all, d);
    InTime(held, a, b);
    NewestSpanning(segments, a);
    NewestSpanning(segments, b);
    var from, to := LastSpanning(segments, |segments|, t1), LastSpanning(segments, |segments|, t2);
    EndsAfterStart(segments, from, to, t1, t2);
    AccountBetween(all, d, segments, from, to, t1, t2);
  }

  lemma AccountBetween(all: seq<Sample>, d: nat, segments: seq<Segment>, from: nat, to: nat, t1: int, t2: int)
    requires d <= |all| && all[d..] == Concat(segments) && Sorted(all) && t1 <= t2
    requires forall p :: 0 <= p < |segments| ==> segments[p] != []
    requires from <= to < |segments| && Spans(segments[from], t1) && Spans(segments[to], t2)
    requires forall r :: to < r < |segments| ==> !Spans(segments[r], t2)
    requires from == LastSpanning(segments, |segments|, t1) && to == LastSpanning(segments, |segments|, t2)
    ensures Accounted(all, d, segments, t1, t2, SamplesBetween(segments, from, to))
  {
    FromStart(all, d, segments, from, t1);
    UpToEnd(all, d, segments, to, t2);
    StartsAscend(segments, from, to + 1);
    CountInIs(all, t1, t2);
    EarlyBound(segments[from], t1);
    LateBound(segments[to], t2);
  }

  /** Without repeated times nothing before the start bucket belongs to the interval. */
  lemma NothingMissed(all: seq<Sample>, p: nat, t: int)
    requires p < |all| && StrictlySorted(all) && all[p].time <= t
    ensures Missed(all, p, t) == 0
  {
    forall i | 0 <= i < p
      ensures all[i].time < t
    {
      StrictOrder(all, i, p);
    }
    CountSinceNone(all[..p], t);
  }

  /**
    Interval count sandwich: with strictly increasing times the buckets between two held samples
    hold at least the exact number of samples and at most the two end buckets more.
   */
  lemma IntervalSandwich(trace: Trace, k: int, a: nat, b: nat)
    requires k >= 1 && StrictlySorted(Inserted(trace))
    requires a <= b < |Held(Run(trace, LastSample, k).levels)|
    ensures var segments := Flatten(Run(trace, LastSample, k).levels);
      var held := Concat(segments);
      var from := LastSpanning(segments, |segments|, held[a].time);
      var to := LastSpanning(segments, |segments|, held[b].time);
      var exact := CountIn(Inserted(trace), held[a].time, held[b].time);
      && from <= to < |segments|
      && exact <= SamplesBetween(segments, from, to) <= exact + |segments[from]| + |segments[to]| - 2
  {
    HeldShape(trace, k);
    SandwichOf(Inserted(trace), Flatten(Run(trace, LastSample, k).levels), a, b);
  }

  lemma SandwichOf(all: seq<Sample>, segments: seq<Segment>, a: nat, b: nat)
    requires StrictlySorted(all) && IsSuffix(Concat(segments), all) && a <= b < |Concat(segments)|
    requires forall p :: 0 <= p < |segments| ==> segments[p] != []
    ensures var held := Concat(segments);
      var from := LastSpanning(segments, |segments|, held[a].time);
      var to := LastSpanning(segments, |segments|, held[b].time);
      var exact := CountIn(all, held[a].time, held[b].time);
      && from <= to < |segments|
      && exact <= SamplesBetween(segments, from, to) <= exact + |segments[from]| + |segments[to]| - 2
  {
    StrictIsSorted(all);
    FullAccount(all, segments, a, b);
    StartsFirst(all, segments, a);
    CountSinceBound(segments[LastSpanning(segments, |segments|, Concat(segments)[a].time)], Concat(segments)[a].time);
  }

  lemma StartsFirst(all: seq<Sample>, segments: seq<Segment>, a: nat)
    requires StrictlySorted(all) && IsSuffix(Concat(segments), all) && a < |Concat(segments)|
    requires forall p :: 0 <= p < |segments| ==> segments[p] != []
    ensures var t, d := Concat(segments)[a].time, |all| - |Concat(segments)|;
      var from := LastSpanning(segments, |segments|, t);
      from < |segments| && d + StartOf(segments, from) <= |all| && Missed(all, d + StartOf(segments, from), t) == 0
  {
    var held := Concat(segments);
    var t, d := held[a].time, |all| - |held|;
    StrictIsSorted(all);
    TailSorted(all, d);
    NewestSpanning(segments, a);
    var from := LastSpanning(segments, |segments|, t);
    BucketInPlace(segments, from);
    assert segments[from][0] == held[StartOf(segments, from)] == all[d + StartOf(segments, from)];
    NothingMissed(all, d + StartOf(segments, from), t);
  }

  lemma QuietStep(st: State, s: Sample, next: Levels)
    requires Canonical(st.levels, 1, 0) && Add(st.levels, [s], 1) == next
    requires Flatten(st.levels) != [] ==> NewestTime(LastSample, Flatten(st.levels)[0]) >= s.time - st.window
    ensures Step(st, Insert(s), LastSample, 1) == State(next, st.window) && Canonical(next, 1, 0)
  {
    DropNone(st.levels, 1, 0);
    AddIsCanonical(st.levels, [s], 1, 0);
  }

  /** Three samples at one time: the bucket found holds one of them. */
  lemma TieIsUndercounted(a: Sample)
    requires a.time == 5
    ensures var trace := Then(Then(Then(Start(100), Insert(a)), Insert(a)), Insert(a));
      var segments := Flatten(Run(trace, LastSample, 1).levels);
      && segments == [[a, a], [a]] && LastSpanning(segments, 2, 5) == 1
      && SamplesBetween(segments, 1, 1) == 1 && CountIn(Inserted(trace), 5, 5) == 3
  {
    var s1, s2 := State(Level([[a]], Empty), 100), State(Level([[a], [a]], Empty), 100);
    var s3 := State(Level([[a]], Level([[a, a]], Empty)), 100);
    QuietStep(State(Empty, 100), a, s1.levels);
    QuietStep(s1, a, s2.levels);
    assert [[a], [a]][2..] + [[a]] == [[a]] && [a] + [a] == [a, a];
    QuietStep(s2, a, s3.levels);
    var t1 := Then(Start(100), Insert(a));
    var t2 := Then(t1, Insert(a));
    assert Run(t1, LastSample, 1) == s1;
    assert Run(t2, LastSample, 1) == s2;
    assert Flatten(Level([[a, a]], Empty)) == [[a, a]];
    assert Inserted(t1) == [] + [a] == [a];
    assert Inserted(t2) == [a] + [a] == [a, a];
    assert Inserted(Then(t2, Insert(a))) == [a, a] + [a] == [a, a, a];
    BucketInPlace([[a, a], [a]], 1);
    CountThree(a);
  }

  lemma CountThree(a: Sample)
    requires a.time == 5
    ensures CountIn([a, a, a], 5, 5) == 3
  {
    assert [a, a, a][1..] == [a, a] && [a, a][1..] == [a] && [a][1..] == [];
    assert CountIn([a], 5, 5) == 1;
    assert CountIn([a, a], 5, 5) == 2;
  }

  class ExpoHistogramCount {
    var buckets: seq<CountBucket>
    var k: int
    var timeWindowSize: int
    var sCount: int
    ghost var trace: Trace

    /** The buckets, oldest first, that the run of this object leaves. */
    ghost function Segments(): seq<Segment>
      requires k >= 1
      reads this
    {
      Flatten(Run(trace, LastSample, k).levels)
    }

    ghost predicate Valid()
      reads this
    {
      && k >= 1
      && FixedWindow(trace) && InitialWindow(trace) == timeWindowSize
      && sCount == |buckets|
      && Summarises(buckets, Segments())
    }

    constructor (k: int, timeWindowSize: int)
      requires k >= 1
      ensures Valid() && trace == Start(timeWindowSize) && this.k == k
    {
      this.k := k;
      this.timeWindowSize := timeWindowSize;
      buckets, sCount := [], 0;
      trace := Start(timeWindowSize);
    }

    method Update(time: int, value: real)
      requires Valid()
      modifies this
      ensures Valid() && k == old(k) && timeWindowSize == old(timeWindowSize)
      ensures trace == Then(old(trace), Insert(Sample(time, value)))
    {
      ghost var st := Run(trace, LastSample, k);
      ghost var sample := Sample(time, value);
      RunInvariant(trace, LastSample, k);
      WindowIsFixed(trace, LastSample, k);

      var removed := CountExpired(buckets, sCount, time - timeWindowSize, Segments());
      ghost var dropped := InsertStep(st, sample, LastSample, k);
      ghost var kept := AfterExpiry(st, time, LastSample);
      var live, count := buckets, sCount;
      if removed > 0 {
        count := count - removed;
        live := live[removed..];
      }
      live := live + [CountBucket(1, 1, time, time)];
      count := count + 1;
      SurvivorsAndNew(buckets, Segments(), removed, sample);
      buckets, sCount := MergeRuns(live, count, k, kept, sample);
      trace := Then(trace, Insert(sample));
    }

    static lemma SurvivorsAndNew(buckets: seq<CountBucket>, segments: seq<Segment>, removed: nat, sample: Sample)
      requires removed <= |buckets| && Summarises(buckets, segments)
      ensures Summarises(buckets[removed..] + [CountBucket(1, 1, sample.time, sample.time)],
        segments[removed..] + [[sample]])
    {
      var kept := segments[removed..] + [[sample]];
      forall p | 0 <= p < |kept|
        ensures Summary(buckets[removed..] + [CountBucket(1, 1, sample.time, sample.time)], kept, p)
      {
        assert p < |kept| - 1 ==> Summary(buckets, segments, removed + p);
      }
    }

    static method CountExpired(buckets: seq<CountBucket>, sCount: int, cutoff: int, ghost segments: seq<Segment>)
      returns (removed: int)
      requires sCount == |buckets| && Summarises(buckets, segments)
      ensures removed == Expired(segments, LastSample, cutoff)
    {
      removed := 0;
      while removed < sCount
        invariant 0 <= removed <= sCount
        invariant forall p :: 0 <= p < removed ==> NewestTime(LastSample, segments[p]) < cutoff
      {
        assert Summary(buckets, segments, removed);
        if buckets[removed].maxTime < cutoff {
          removed := removed + 1;
        } else {
          break;
        }
      }
      assert removed < sCount ==> Summary(buckets, segments, removed);
      ExpiredIs(segments, LastSample, cutoff, removed);
    }

    /** The backward merge pass over the buckets that survived expiry and the new one. */
    static method MergeRuns(buckets: seq<CountBucket>, sCount: int, k: int, ghost kept: Levels, ghost sample: Sample)
      returns (merged: seq<CountBucket>, count: int)
      requires k >= 1 && Canonical(kept, k, 0)
      requires sCount == |buckets| && Summarises(buckets, Flatten(kept) + [[sample]])
      ensures count == |merged| && Summarises(merged, Flatten(Add(kept, [sample], k)))
    {
      merged, count := buckets, sCount;
      ghost var goal := Flatten(Add(kept, [sample], k));
      ghost var sc := ScanStart(kept, [sample], k);
      ghost var segments := Flatten(kept) + [[sample]];
      var same := 1;
      var i := count - 2;
      while i >= 0
        invariant -1 <= i && count == |merged|
        invariant Summarises(merged, segments)
        invariant Scanning(sc, segments, i, same, k, goal)
      {
        ScanInside(sc, segments, i, same, k, goal);
        assert Summary(merged, segments, i) && Summary(merged, segments, i + 1);
        if merged[i].bucketSize == merged[i + 1].bucketSize {
          same := same + 1;
        } else {
          RunIsFullIff(same, k);
          if RunIsFull(same, k) {
            sc := ScanCarry(sc, segments, i, same, k, goal);
            merged := MergeNext(merged, i + 1, segments);
            count := count - 1;
            segments := MergeAt(segments, i + 1);
          } else {
            sc := ScanQuiet(sc, segments, i, same, k, goal);
          }
          same := 1;
          assert Summary(merged, segments, i) && Summary(merged, segments, i + 1);
          if merged[i + 1].bucketSize == merged[i].bucketSize {
            same := same + 1;
          }
        }
        i := i - 1;
      }
      RunIsFullIff(same, k);
      ScanEnd(sc, segments, same, k, goal);
      if RunIsFull(same, k) {
        merged := MergeNext(merged, 0, segments);
        count := count - 1;
      }
    }

    /** Bucket p absorbs bucket p + 1: counts and sizes add, the newest time is taken over. */
    static method MergeNext(buckets: seq<CountBucket>, p: nat, ghost segments: seq<Segment>)
      returns (merged: seq<CountBucket>)
      requires p + 1 < |buckets| && Summarises(buckets, segments)
      ensures Summarises(merged, MergeAt(segments, p))
      ensures |merged| == |buckets| - 1
    {
      var b, next := buckets[p], buckets[p + 1];
      var grown := CountBucket(b.count + next.count, b.bucketSize + next.bucketSize, b.minTime, next.maxTime);
      merged := buckets[..p] + [grown] + buckets[p + 2..];
      assert Summary(buckets, segments, p) && Summary(buckets, segments, p + 1);
      forall q | 0 <= q < |merged|
        ensures Summary(merged, MergeAt(segments, p), q)
      {
        assert q < p ==> Summary(buckets, segments, q);
        assert q > p ==> Summary(buckets, segments, q + 1);
      }
    }

    /** True when the interval starts inside the window that ends at the newest sample. */
    method Cover(mint: int, maxt: int) returns (covered: bool)
      requires Valid()
      ensures covered <==> trace.Then? && mint >= trace.op.sample.time - timeWindowSize
    {
      RunInvariant(trace, LastSample, k);
      FlattenEmpty(Run(trace, LastSample, k).levels, k, 0);
      if sCount == 0 {
        return false;
      }
      NewestIsLatest(trace, k);
      assert Summary(buckets, Segments(), sCount - 1);
      covered := mint >= buckets[sCount - 1].maxTime - timeWindowSize;
    }

    static lemma NewestIsLatest(trace: Trace, k: int)
      requires k >= 1 && FixedWindow(trace) && trace.Then?
      ensures var segments := Flatten(Run(trace, LastSample, k).levels);
        segments != [] && segments[|segments| - 1] == [trace.op.sample]
    {
      RunInvariant(trace, LastSample, k);
      var levels := Run(trace, LastSample, k).levels;
      NewestIsUnit(levels, k, 0);
      var segments := Flatten(levels);
      BucketInPlace(segments, |segments| - 1);
      assert segments[..|segments|] == segments;
      assert Held(levels)[|Held(levels)| - 1] == Inserted(trace)[|Inserted(trace)| - 1];
    }

    /** A covered interval loses no sample: all of it with such a time is still in some bucket. */
    lemma CoverIsSound(mint: int, p: nat)
      requires Valid() && trace.Then? && mint >= trace.op.sample.time - timeWindowSize
      requires Sorted(Inserted(trace)) && p < |Inserted(trace)| && Inserted(trace)[p].time >= mint
      ensures IsSuffix(Concat(Segments()), Inserted(trace))
      ensures p >= |Inserted(trace)| - |Concat(Segments())|
    {
      WindowIsHeld(trace, LastSample, k, p);
    }

    /** The window error bound, read off the concrete buckets. */
    lemma BucketTotalIsAccurate()
      requires Valid() && trace.Then? && Sorted(Inserted(trace))
      ensures var exact := CountSince(Inserted(trace), trace.op.sample.time - timeWindowSize);
        TotalSize(buckets) >= exact && k * (TotalSize(buckets) - exact) <= 2 * exact <==> timeWindowSize >= 0
    {
      TotalSizeIsHeld(buckets, Segments());
      WindowErrorBound(trace, LastSample, k);
    }

    /** Space: logarithmically many buckets in the total they hold. */
    lemma FewConcreteBuckets()
      requires Valid() && trace.Then?
      ensures var levels := Depth(Run(trace, LastSample, k).levels);
        levels >= 1 && sCount <= (Threshold(k) - 1) * levels && Pow2(levels - 1) <= TotalSize(buckets)
    {
      RunInvariant(trace, LastSample, k);
      var levels := Run(trace, LastSample, k).levels;
      FewBuckets(levels, k, 0);
      TotalSizeIsHeld(buckets, Segments());
      assert Depth(levels) >= 1;
    }

    /** A sample held at position p has time t. */
    ghost predicate HeldAt(p: nat, t: int)
      requires k >= 1
      reads this
    {
      p < |Concat(Segments())| && Concat(Segments())[p].time == t
    }

    /** At least the exact number of samples with times in [t1, t2], at most the two end buckets more. */
    ghost predicate Sandwiched(t1: int, t2: int, count: int)
      requires k >= 1 && sCount == |Segments()| && sCount > 0
      reads this
    {
      var exact := CountIn(Inserted(trace), t1, t2);
      var from, to := LastSpanning(Segments(), sCount, t1), LastSpanning(Segments(), sCount, t2);
      exact <= count <= exact + |Segments()[from]| + |Segments()[to]| - 2
    }

    /** The count is the exact one, plus what the end buckets hold outside, less what lies before the start bucket. */
    ghost predicate AccountsFor(t1: int, t2: int, count: int)
      requires k >= 1
      reads this
    {
      && Segments() != [] && IsSuffix(Concat(Segments()), Inserted(trace))
      && Accounted(Inserted(trace), |Inserted(trace)| - |Concat(Segments())|, Segments(), t1, t2, count)
    }

    lemma CountIsSandwiched(t1: int, t2: int, a: nat, b: nat)
      requires Valid() && StrictlySorted(Inserted(trace)) && a <= b && HeldAt(a, t1) && HeldAt(b, t2)
      ensures sCount > 0 && Sandwiched(t1, t2, SpannedCount(t1, t2))
    {
      IntervalSandwich(trace, k, a, b);
    }

    /** The last buckets whose time ranges contain t1 and t2. */
    method FindBuckets(t1: int, t2: int) returns (from: int, to: int)
      requires Valid()
      ensures from == LastSpanning(Segments(), sCount, t1) && to == LastSpanning(Segments(), sCount, t2)
    {
      ghost var segments := Segments();
      from, to := 0, 0;
      var i := 0;
      while i < sCount
        invariant 0 <= i <= sCount
        invariant from == LastSpanning(segments, i, t1) && to == LastSpanning(segments, i, t2)
      {
        assert Summary(buckets, segments, i);
        if t1 >= buckets[i].minTime && t1 <= buckets[i].maxTime {
          from := i;
        }
        if t2 >= buckets[i].minTime && t2 <= buckets[i].maxTime {
          to := i;
        }
        i := i + 1;
      }
    }

    /** Number of samples in the buckets from the one spanning t1 to the one spanning t2. */
    ghost function SpannedCount(t1: int, t2: int): int
      requires k >= 1 && sCount == |Segments()| && sCount > 0
      reads this
    {
      SamplesBetween(Segments(), LastSpanning(Segments(), sCount, t1), LastSpanning(Segments(), sCount, t2))
    }

    method QueryIntervalMergeCount(t1: int, t2: int) returns (r: QueryResult)
      requires Valid()
      ensures r.NotFound? <==> sCount == 0
      ensures r.Found? ==> r.bucket.count == SpannedCount(t1, t2)
      ensures r.Found? ==> r.bucket == if sCount == 1 then buckets[0] else CountBucket(r.bucket.count, 0, 0, 0)
      ensures forall a: nat, b: nat :: StrictlySorted(Inserted(trace)) && a <= b && HeldAt(a, t1) && HeldAt(b, t2) ==>
        r.Found? && sCount > 0 && Sandwiched(t1, t2, r.bucket.count)
      ensures forall a: nat, b: nat :: Sorted(Inserted(trace)) && a <= b && HeldAt(a, t1) && HeldAt(b, t2) ==>
        r.Found? && AccountsFor(t1, t2, r.bucket.count)
    {
      r := AddUp(t1, t2);
      forall a: nat, b: nat | Sorted(Inserted(trace)) && a <= b && HeldAt(a, t1) && HeldAt(b, t2)
        ensures sCount > 0 && AccountsFor(t1, t2, SpannedCount(t1, t2))
      {
        IntervalAccount(trace, k, a, b);
      }
      forall a: nat, b: nat | StrictlySorted(Inserted(trace)) && a <= b && HeldAt(a, t1) && HeldAt(b, t2)
        ensures sCount > 0 && Sandwiched(t1, t2, SpannedCount(t1, t2))
      {
        CountIsSandwiched(t1, t2, a, b);
      }
    }

    method AddUp(t1: int, t2: int) returns (r: QueryResult)
      requires Valid()
      ensures r.NotFound? <==> sCount == 0
      ensures r.Found? ==> r.bucket.count == SpannedCount(t1, t2)
      ensures r.Found? ==> r.bucket == if sCount == 1 then buckets[0] else CountBucket(r.bucket.count, 0, 0, 0)
    {
      var from, to := FindBuckets(t1, t2);
      if sCount > 1 {
        var count := SumCounts(from, to);
        return Found(CountBucket(count, 0, 0, 0));
      } else if sCount == 1 {
        BucketInPlace(Segments(), 0);
        assert Summary(buckets, Segments(), 0);
        return Found(buckets[0]);
      } else {
        return NotFound;
      }
    }

    method SumCounts(from: int, to: int) returns (count: int)
      requires Valid() && 0 <= from < sCount && 0 <= to < sCount
      ensures count == SamplesBetween(Segments(), from, to)
    {
      count := 0;
      var i := from;
      while i <= to
        invariant if from <= to then from <= i <= to + 1 else i == from
        invariant count == StartOf(Segments(), i) - StartOf(Segments(), from)
      {
        BucketInPlace(Segments(), i);
        assert Summary(buckets, Segments(), i);
        count := count + buckets[i].count;
        i := i + 1;
      }
    }
  }
}
