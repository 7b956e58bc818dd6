/**
  Whole runs of an exponential histogram over its reference form: expiry followed by the
  increment, with the window allowed to change between samples. Every state of the two
  histogram classes is tied to a run, so what is proved here holds in every reachable state.
*/
module ExpoRuns {
  import opened Numbers
  import opened Stream
  import opened Cascade
  import opened CascadeBounds

  datatype Op = Insert(sample: Sample) | SetWindow(window: int)

  /** Which field expiry compares: the time of the last sample merged in, or the largest one. */
  datatype Clock = LastSample | LargestTime

  datatype State = State(levels: Levels, window: int)

  ghost function MaxTime(s: Segment): int {
    if s == [] then 0
    else if |s| == 1 then s[0].time
    else if s[0].time > MaxTime(s[1..]) then s[0].time else MaxTime(s[1..])
  }

  ghost function MinTime(s: Segment): int {
    if s == [] then 0
    else if |s| == 1 then s[0].time
    else if s[0].time < MinTime(s[1..]) then s[0].time else MinTime(s[1..])
  }

  ghost function NewestTime(clock: Clock, s: Segment): int {
    match clock
    case LastSample => if s == [] then 0 else s[|s| - 1].time
    case LargestTime => MaxTime(s)
  }

  /** Length of the prefix of buckets whose newest time is before the cutoff. */
  ghost function Expired(buckets: seq<Segment>, clock: Clock, cutoff: int): (n: nat)
    ensures n <= |buckets|
  {
    if buckets == [] || NewestTime(clock, buckets[0]) >= cutoff then 0
    else 1 + Expired(buckets[1..], clock, cutoff)
  }

  /** Expiry stops exactly at the first bucket whose newest time reaches the cutoff. */
  lemma {:induction false} ExpiredPrefix(buckets: seq<Segment>, clock: Clock, cutoff: int)
    ensures var n := Expired(buckets, clock, cutoff);
      && (forall p :: 0 <= p < n ==> NewestTime(clock, buckets[p]) < cutoff)
      && (n < |buckets| ==> NewestTime(clock, buckets[n]) >= cutoff)
  {
    if buckets != [] && NewestTime(clock, buckets[0]) < cutoff {
      ExpiredPrefix(buckets[1..], clock, cutoff);
      assert forall p :: 1 <= p < |buckets| ==> buckets[p] == buckets[1..][p - 1];
    }
  }

  lemma {:induction false} ExpiredIs(buckets: seq<Segment>, clock: Clock, cutoff: int, n: nat)
    requires n <= |buckets|
    requires forall p :: 0 <= p < n ==> NewestTime(clock, buckets[p]) < cutoff
    requires n < |buckets| ==> NewestTime(clock, buckets[n]) >= cutoff
    ensures n == Expired(buckets, clock, cutoff)
  {
    if n > 0 {
      assert forall p :: 1 <= p < |buckets| ==> buckets[p] == buckets[1..][p - 1];
      ExpiredIs(buckets[1..], clock, cutoff, n - 1);
    }
  }

  ghost function AfterExpiry(st: State, time: int, clock: Clock): Levels {
    DropOldest(st.levels, Expired(Flatten(st.levels), clock, time - st.window))
  }

  ghost function Step(st: State, op: Op, clock: Clock, k: int): State
    requires k >= 1
  {
    match op
    case Insert(s) => State(Add(AfterExpiry(st, s.time, clock), [s], k), st.window)
    case SetWindow(w) => State(st.levels, w)
  }

  /** A whole run, newest operation outermost. */
  datatype Trace = Start(window: int) | Then(past: Trace, op: Op)

  ghost function Run(trace: Trace, clock: Clock, k: int): State
    requires k >= 1
  {
    match trace
    case Start(w) => State(Empty, w)
    case Then(past, op) => Step(Run(past, clock, k), op, clock, k)
  }

  /** Every sample ever inserted, in order. */
  ghost function Inserted(trace: Trace): seq<Sample> {
    match trace
    case Start(_) => []
    case Then(past, Insert(s)) => Inserted(past) + [s]
    case Then(past, SetWindow(_)) => Inserted(past)
  }

  ghost predicate IsSuffix<T>(tail: seq<T>, whole: seq<T>) {
    |tail| <= |whole| && whole[|whole| - |tail|..] == tail
  }

  /** One insertion: a prefix of the held samples is dropped, the new sample joins the rest. */
  lemma InsertStep(st: State, s: Sample, clock: Clock, k: int) returns (dropped: seq<Sample>)
    requires k >= 1 && Canonical(st.levels, k, 0)
    ensures var kept := AfterExpiry(st, s.time, clock);
      var n := Expired(Flatten(st.levels), clock, s.time - st.window);
      && Canonical(kept, k, 0)
      && Flatten(kept) == Flatten(st.levels)[n..]
      && dropped == Concat(Flatten(st.levels)[..n])
      && Held(st.levels) == dropped + Held(kept)
    ensures var next := Step(st, Insert(s), clock, k);
      && Canonical(next.levels, k, 0) && next.levels != Empty
      && Held(next.levels) == Held(AfterExpiry(st, s.time, clock)) + [s]
  {
    var n := Expired(Flatten(st.levels), clock, s.time - st.window);
    dropped := Concat(Flatten(st.levels)[..n]);
    DropIsCanonical(st.levels, n, k, 0);
    ConcatSplit(Flatten(st.levels), n);
    var kept := DropOldest(st.levels, n);
    AddIsCanonical(kept, [s], k, 0);
    AddKeepsSamples(kept, [s], k);
  }

  /** In every reachable state the shape is canonical and the buckets partition a suffix of the stream. */
  lemma {:induction false} RunInvariant(trace: Trace, clock: Clock, k: int)
    requires k >= 1
    ensures Canonical(Run(trace, clock, k).levels, k, 0)
    ensures IsSuffix(Held(Run(trace, clock, k).levels), Inserted(trace))
    ensures trace.Then? && trace.op.Insert? ==> Run(trace, clock, k).levels != Empty
  {
    if trace.Then? {
      var st := Run(trace.past, clock, k);
      RunInvariant(trace.past, clock, k);
      if trace.op.Insert? {
        var dropped := InsertStep(st, trace.op.sample, clock, k);
        SuffixSnoc(dropped, Held(AfterExpiry(st, trace.op.sample.time, clock)), Inserted(trace.past), trace.op.sample);
      }
    }
  }

  lemma SuffixSnoc<T>(dropped: seq<T>, kept: seq<T>, whole: seq<T>, s: T)
    requires IsSuffix(dropped + kept, whole)
    ensures IsSuffix(kept + [s], whole + [s])
  {
    var d := |whole| - |dropped + kept|;
    assert whole == whole[..d] + (dropped + kept);
    assert whole + [s] == (whole[..d] + dropped) + (kept + [s]);
  }

  /** The window is the one the run started with. */
  ghost predicate FixedWindow(trace: Trace) {
    match trace
    case Start(_) => true
    case Then(past, op) => op.Insert? && FixedWindow(past)
  }

  ghost function InitialWindow(trace: Trace): int {
    match trace
    case Start(w) => w
    case Then(past, _) => InitialWindow(past)
  }

  /** The window as it is now. */
  ghost function WindowOf(trace: Trace): int {
    match trace
    case Start(w) => w
    case Then(past, Insert(_)) => WindowOf(past)
    case Then(_, SetWindow(w)) => w
  }

  /** Some insertion had a cutoff after this time. */
  ghost predicate CutOff(trace: Trace, time: int) {
    match trace
    case Start(_) => false
    case Then(past, Insert(s)) => time < s.time - WindowOf(past) || CutOff(past, time)
    case Then(past, SetWindow(_)) => CutOff(past, time)
  }

  /** With ordered times and a fixed window that is the cutoff of the newest insertion. */
  lemma {:induction false} CutOffFixed(trace: Trace, time: int)
    requires Sorted(Inserted(trace)) && FixedWindow(trace) && CutOff(trace, time)
    ensures WindowOf(trace) == InitialWindow(trace) && Inserted(trace) != []
    ensures time < Inserted(trace)[|Inserted(trace)| - 1].time - InitialWindow(trace)
  {
    match trace
    case Start(_) =>
    case Then(past, Insert(s)) =>
      PrefixSorted(Inserted(past), s);
      WindowStays(past);
      if CutOff(past, time) {
        CutOffFixed(past, time);
        InTime(Inserted(trace), |Inserted(past)| - 1, |Inserted(past)|);
      }
    case Then(past, SetWindow(_)) =>
  }

  lemma {:induction false} WindowStays(trace: Trace)
    requires FixedWindow(trace)
    ensures WindowOf(trace) == InitialWindow(trace)
  {
    if trace.Then? {
      WindowStays(trace.past);
    }
  }

  lemma {:induction false} WindowIsFixed(trace: Trace, clock: Clock, k: int)
    requires k >= 1 && FixedWindow(trace)
    ensures Run(trace, clock, k).window == InitialWindow(trace)
  {
    if trace.Then? {
      WindowIsFixed(trace.past, clock, k);
    }
  }

  lemma {:induction false} SortedEnds(s: Segment)
    requires s != [] && Sorted(s)
    ensures MaxTime(s) == s[|s| - 1].time && MinTime(s) == s[0].time
  {
    if |s| > 1 {
      TailSorted(s, 1);
      SortedEnds(s[1..]);
      assert InOrder(s, 0, |s| - 1) && InOrder(s, 0, 1);
    }
  }

  lemma ClockOnSorted(clock: Clock, s: Segment)
    requires s != [] && Sorted(s)
    ensures NewestTime(clock, s) == s[|s| - 1].time
  {
    SortedEnds(s);
  }

  /** Bucket p occupies Held[start .. start + |bucket|]. */
  ghost function StartOf(buckets: seq<Segment>, p: nat): nat
    requires p <= |buckets|
  {
    |Concat(buckets[..p])|
  }

  lemma BucketInPlace(buckets: seq<Segment>, p: nat)
    requires p < |buckets|
    ensures StartOf(buckets, p) + |buckets[p]| == StartOf(buckets, p + 1) <= |Concat(buckets)|
    ensures Concat(buckets)[StartOf(buckets, p)..StartOf(buckets, p + 1)] == buckets[p]
  {
    ConcatAround(buckets, p);
    ConcatAround(buckets[..p + 1], p);
    assert buckets[..p + 1][..p] == buckets[..p];
    assert buckets[..p + 1][p + 1..] == [];
  }

  lemma StartsAscend(segments: seq<Segment>, p: nat, q: nat)
    requires p <= q <= |segments|
    ensures StartOf(segments, p) <= StartOf(segments, q) <= |Concat(segments)|
  {
    ConcatSplit(segments[..q], p);
    assert segments[..q][..p] == segments[..p];
    ConcatSplit(segments, q);
  }

  lemma BucketSorted(buckets: seq<Segment>, p: nat)
    requires p < |buckets| && Sorted(Concat(buckets))
    ensures Sorted(buckets[p])
  {
    BucketInPlace(buckets, p);
    SliceSorted(Concat(buckets), StartOf(buckets, p), StartOf(buckets, p + 1));
  }

  lemma OldestInPlace(buckets: seq<Segment>)
    requires buckets != []
    ensures |buckets[0]| <= |Concat(buckets)| && Concat(buckets)[..|buckets[0]|] == buckets[0]
  {
  }

  // ------------------------------------------------------------------ what expiry drops

  /** Everything expiry drops at one step is older than the cutoff. */
  lemma {:induction false} ExpiredAreOld(buckets: seq<Segment>, clock: Clock, cutoff: int, n: nat)
    requires n <= |buckets| && Sorted(Concat(buckets))
    requires forall p :: 0 <= p < |buckets| ==> |buckets[p]| >= 1
    requires forall p :: 0 <= p < n ==> NewestTime(clock, buckets[p]) < cutoff
    ensures StartOf(buckets, n) <= |Concat(buckets)|
    ensures forall q :: 0 <= q < StartOf(buckets, n) ==> Concat(buckets)[q].time < cutoff
  {
    ConcatSplit(buckets, n);
    if n > 0 {
      BucketInPlace(buckets, n - 1);
      BucketSorted(buckets, n - 1);
      ClockOnSorted(clock, buckets[n - 1]);
      var last := StartOf(buckets, n) - 1;
      assert Concat(buckets)[last] == buckets[n - 1][|buckets[n - 1]| - 1];
      forall q | 0 <= q < StartOf(buckets, n)
        ensures Concat(buckets)[q].time < cutoff
      {
        assert q < last ==> InOrder(Concat(buckets), q, last);
      }
    }
  }

  lemma SuffixSorted(tail: seq<Sample>, whole: seq<Sample>)
    requires IsSuffix(tail, whole) && Sorted(whole)
    ensures Sorted(tail)
  {
    TailSorted(whole, |whole| - |tail|);
  }

  lemma PrefixSorted(whole: seq<Sample>, s: Sample)
    requires Sorted(whole + [s])
    ensures Sorted(whole)
    ensures forall p :: 0 <= p < |whole| ==> whole[p].time <= s.time
  {
    SliceSorted(whole + [s], 0, |whole|);
    assert (whole + [s])[0..|whole|] == whole;
    forall p | 0 <= p < |whole|
      ensures whole[p].time <= s.time
    {
      assert InOrder(whole + [s], p, |whole|);
    }
  }

  /** What one insertion drops is older than the cutoff. */
  lemma StepDropsOld(st: State, s: Sample, clock: Clock, k: int) returns (dropped: seq<Sample>)
    requires k >= 1 && Canonical(st.levels, k, 0) && Sorted(Held(st.levels))
    ensures Held(st.levels) == dropped + Held(AfterExpiry(st, s.time, clock))
    ensures Held(Step(st, Insert(s), clock, k).levels) == Held(AfterExpiry(st, s.time, clock)) + [s]
    ensures forall q :: 0 <= q < |dropped| ==> dropped[q].time < s.time - st.window
  {
    dropped := InsertStep(st, s, clock, k);
    var n := Expired(Flatten(st.levels), clock, s.time - st.window);
    AllNonEmpty(st.levels, k);
    ExpiredPrefix(Flatten(st.levels), clock, s.time - st.window);
    ExpiredAreOld(Flatten(st.levels), clock, s.time - st.window, n);
    forall q | 0 <= q < |dropped|
      ensures dropped[q].time < s.time - st.window
    {
      assert dropped[q] == Held(st.levels)[q];
    }
  }

  lemma StillDropped(all: seq<Sample>, held: seq<Sample>, dropped: seq<Sample>, kept: seq<Sample>, s: Sample,
                     earlier: int, cutoff: int)
    requires IsSuffix(held, all) && held == dropped + kept
    requires all != [] ==> earlier <= cutoff
    requires forall p :: 0 <= p < |all| - |held| ==> all[p].time < earlier
    requires forall q :: 0 <= q < |dropped| ==> dropped[q].time < cutoff
    ensures forall p :: 0 <= p < |all + [s]| - |kept + [s]| ==> (all + [s])[p].time < cutoff
  {
    var d := |all| - |held|;
    forall p | 0 <= p < |all| - |kept|
      ensures (all + [s])[p].time < cutoff
    {
      if p >= d {
        assert all[p] == held[p - d] == dropped[p - d];
      }
    }
  }

  /** Over a run with a fixed window, every dropped sample is older than the current window. */
  lemma {:induction false} DroppedAreOld(trace: Trace, clock: Clock, k: int)
    requires k >= 1 && trace.Then? && FixedWindow(trace) && Sorted(Inserted(trace))
    ensures var all, held := Inserted(trace), Held(Run(trace, clock, k).levels);
      && IsSuffix(held, all)
      && forall p :: 0 <= p < |all| - |held| ==> all[p].time < trace.op.sample.time - InitialWindow(trace)
  {
    RunInvariant(trace, clock, k);
    var past, s := trace.past, trace.op.sample;
    RunInvariant(past, clock, k);
    WindowIsFixed(past, clock, k);
    PrefixSorted(Inserted(past), s);
    var st := Run(past, clock, k);
    SuffixSorted(Held(st.levels), Inserted(past));
    var dropped := StepDropsOld(st, s, clock, k);
    var earlier := s.time - st.window;
    if past.Then? {
      DroppedAreOld(past, clock, k);
      earlier := past.op.sample.time - st.window;
      assert Inserted(past)[|Inserted(past)| - 1] == past.op.sample;
    }
    StillDropped(Inserted(past), Held(st.levels), dropped, Held(AfterExpiry(st, s.time, clock)), s,
                 earlier, s.time - st.window);
  }

  // ------------------------------------------------------------------ the window error bound

  /** In the held suffix, at most size-of-oldest-bucket minus one samples are outside the window. */
  lemma OutsideWindow(held: seq<Sample>, first: nat, cutoff: int)
    requires Sorted(held) && 1 <= first <= |held| && held[first - 1].time >= cutoff
    ensures |held| - (first - 1) <= CountSince(held, cutoff) <= |held|
  {
    assert held == held[..first - 1] + held[first - 1..];
    CountSincePlus(held[..first - 1], held[first - 1..], cutoff);
    var inside := held[first - 1..];
    forall p | 0 <= p < |inside|
      ensures inside[p].time >= cutoff
    {
      assert p > 0 ==> InOrder(held, first - 1, first - 1 + p);
    }
    CountSinceAll(inside, cutoff);
    CountSinceBound(held[..first - 1], cutoff);
  }

  lemma CountSinceSuffix(held: seq<Sample>, all: seq<Sample>, cutoff: int)
    requires IsSuffix(held, all)
    requires forall p :: 0 <= p < |all| - |held| ==> all[p].time < cutoff
    ensures CountSince(all, cutoff) == CountSince(held, cutoff)
  {
    var d := |all| - |held|;
    assert all == all[..d] + held;
    CountSincePlus(all[..d], held, cutoff);
    CountSinceNone(all[..d], cutoff);
  }

  /** After an insertion the oldest bucket still reaches into the window. */
  lemma OldestReachesWindow(st: State, s: Sample, clock: Clock, k: int) returns (first: nat)
    requires k >= 1 && Canonical(st.levels, k, 0) && Sorted(Held(st.levels)) && st.window >= 0
    ensures var next := Step(st, Insert(s), clock, k).levels;
      && Flatten(next) != []
      && 1 <= first <= |Flatten(next)[0]| && first <= |Held(next)|
      && Held(next)[first - 1].time >= s.time - st.window
  {
    var dropped := InsertStep(st, s, clock, k);
    var kept := AfterExpiry(st, s.time, clock);
    AddGrowsOldest(kept, [s], k, 0);
    FlattenEmpty(kept, k, 0);
    if kept == Empty {
      first := 1;
    } else {
      AllNonEmpty(kept, k);
      first := |Flatten(kept)[0]|;
      OldestNotExpired(st, s, clock, k, dropped);
      var next := Step(st, Insert(s), clock, k).levels;
      assert Held(next)[first - 1] == Held(kept)[first - 1];
    }
  }

  lemma OldestNotExpired(st: State, s: Sample, clock: Clock, k: int, dropped: seq<Sample>)
    requires k >= 1 && Canonical(st.levels, k, 0) && Sorted(Held(st.levels))
    requires Flatten(AfterExpiry(st, s.time, clock)) != []
    requires Flatten(AfterExpiry(st, s.time, clock)) ==
      Flatten(st.levels)[Expired(Flatten(st.levels), clock, s.time - st.window)..]
    requires Held(st.levels) == dropped + Held(AfterExpiry(st, s.time, clock))
    requires |Flatten(AfterExpiry(st, s.time, clock))[0]| >= 1
    ensures var kept := AfterExpiry(st, s.time, clock);
      var oldest := |Flatten(kept)[0]|;
      oldest <= |Held(kept)| && Held(kept)[oldest - 1].time >= s.time - st.window
  {
    var kept := AfterExpiry(st, s.time, clock);
    var oldest := Flatten(kept)[0];
    ExpiredPrefix(Flatten(st.levels), clock, s.time - st.window);
    assert IsSuffix(Held(kept), Held(st.levels));
    SuffixSorted(Held(kept), Held(st.levels));
    OldestInPlace(Flatten(kept));
    BucketSorted(Flatten(kept), 0);
    ClockOnSorted(clock, oldest);
    assert Held(kept)[|oldest| - 1] == Held(kept)[..|oldest|][|oldest| - 1];
  }

  /** Oldest bucket of `top` samples, all but a prefix shorter than it inside the window. */
  lemma RelativeError(total: int, exact: int, top: int, k: int)
    requires k >= 1 && total - exact <= top - 1 && k * (top - 1) <= 2 * (total - top)
    ensures k * (total - exact) <= 2 * exact
  {
    assert k * (total - exact) <= k * (top - 1);
  }

  /**
    The exponential-histogram error bound: after any non-empty run of insertions with
    non-decreasing times and a fixed window, the total of the bucket sizes is at least the
    exact number of samples in the window and exceeds it by at most a 2/k fraction,
    if and only if the window is not negative.
   */
  lemma WindowErrorBound(trace: Trace, clock: Clock, k: int)
    requires k >= 1 && trace.Then? && FixedWindow(trace) && Sorted(Inserted(trace))
    ensures var total := |Held(Run(trace, clock, k).levels)|;
      var exact := CountSince(Inserted(trace), trace.op.sample.time - InitialWindow(trace));
      total >= exact && k * (total - exact) <= 2 * exact <==> InitialWindow(trace) >= 0
  {
    if InitialWindow(trace) >= 0 {
      ErrorWithinBound(trace, clock, k);
    } else {
      NegativeWindow(trace, clock, k);
    }
  }

  lemma ErrorWithinBound(trace: Trace, clock: Clock, k: int)
    requires k >= 1 && trace.Then? && FixedWindow(trace) && Sorted(Inserted(trace))
    requires InitialWindow(trace) >= 0
    ensures var total := |Held(Run(trace, clock, k).levels)|;
      var exact := CountSince(Inserted(trace), trace.op.sample.time - InitialWindow(trace));
      total >= exact && k * (total - exact) <= 2 * exact
  {
    var levels, all := Run(trace, clock, k).levels, Inserted(trace);
    var cutoff := trace.op.sample.time - InitialWindow(trace);
    RunInvariant(trace, clock, k);
    DroppedAreOld(trace, clock, k);
    CountSinceSuffix(Held(levels), all, cutoff);
    SuffixSorted(Held(levels), all);
    var first := RunReachesWindow(trace, clock, k);
    OutsideWindow(Held(levels), first, cutoff);
    OldestIsSmall(levels, k, 0);
    RelativeError(|Held(levels)|, CountSince(Held(levels), cutoff), |Flatten(levels)[0]|, k);
  }

  lemma RunReachesWindow(trace: Trace, clock: Clock, k: int) returns (first: nat)
    requires k >= 1 && trace.Then? && FixedWindow(trace) && Sorted(Inserted(trace))
    requires InitialWindow(trace) >= 0
    ensures var levels := Run(trace, clock, k).levels;
      && Flatten(levels) != []
      && 1 <= first <= |Flatten(levels)[0]| && first <= |Held(levels)|
      && Held(levels)[first - 1].time >= trace.op.sample.time - InitialWindow(trace)
  {
    var past := trace.past;
    RunInvariant(past, clock, k);
    WindowIsFixed(past, clock, k);
    PrefixSorted(Inserted(past), trace.op.sample);
    var st := Run(past, clock, k);
    SuffixSorted(Held(st.levels), Inserted(past));
    first := OldestReachesWindow(st, trace.op.sample, clock, k);
  }

  lemma NegativeWindow(trace: Trace, clock: Clock, k: int)
    requires k >= 1 && trace.Then? && FixedWindow(trace) && Sorted(Inserted(trace))
    requires InitialWindow(trace) < 0
    ensures CountSince(Inserted(trace), trace.op.sample.time - InitialWindow(trace)) == 0
    ensures k * (|Held(Run(trace, clock, k).levels)| - 0) > 0
  {
    RunInvariant(trace, clock, k);
    PrefixSorted(Inserted(trace.past), trace.op.sample);
    CountSinceNone(Inserted(trace), trace.op.sample.time - InitialWindow(trace));
    var levels := Run(trace, clock, k).levels;
    FewBuckets(levels, k, 0);
    MulMono(1, |Held(levels)|, k);
  }

  /** Everything inserted at or after newest - window is still held. */
  lemma WindowIsHeld(trace: Trace, clock: Clock, k: int, p: nat)
    requires k >= 1 && trace.Then? && FixedWindow(trace) && Sorted(Inserted(trace)) && p < |Inserted(trace)|
    requires Inserted(trace)[p].time >= trace.op.sample.time - InitialWindow(trace)
    ensures IsSuffix(Held(Run(trace, clock, k).levels), Inserted(trace))
    ensures p >= |Inserted(trace)| - |Held(Run(trace, clock, k).levels)|
  {
    DroppedAreOld(trace, clock, k);
  }
}
