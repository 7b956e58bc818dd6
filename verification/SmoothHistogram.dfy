/** The smooth histogram over pooled sketches: internal/promsketch/SmoothHistogram.go. */
module SmoothHistogram {
  import opened Numbers
  import opened SketchContent
  import opened SketchPools
  import opened SmoothBuckets
  import opened NormThinning

  datatype QueryResult = Merged(content: Content, minTime: int, maxTime: int) | NotFound

  const MAX_INT64: int := 0x7fff_ffff_ffff_ffff

  // ------------------------------------------------------------------ choosing the two buckets

  /** The first of the first n ages that is nearest to x. */
  ghost function Nearest(ages: seq<int>, n: nat, x: int): (p: nat)
    requires 1 <= n <= |ages|
    ensures p < n
  {
    if n == 1 then 0
    else
      var p := Nearest(ages, n - 1, x);
      if Abs(ages[n - 1] - x) < Abs(ages[p] - x) then n - 1 else p
  }

  lemma {:induction false} NearestIsFirstMinimum(ages: seq<int>, n: nat, x: int)
    requires 1 <= n <= |ages|
    ensures var p := Nearest(ages, n, x);
      && (forall i :: 0 <= i < n ==> Abs(ages[p] - x) <= Abs(ages[i] - x))
      && (forall i :: 0 <= i < p ==> Abs(ages[p] - x) < Abs(ages[i] - x))
  {
    if n > 1 {
      NearestIsFirstMinimum(ages, n - 1, x);
    }
  }

  /** No age is nearer to x, and no earlier one as near. */
  ghost predicate IsNearest(ages: seq<int>, x: int, p: nat) {
    && p < |ages|
    && (forall i :: 0 <= i < |ages| ==> Abs(ages[p] - x) <= Abs(ages[i] - x))
    && (forall i :: 0 <= i < p ==> Abs(ages[p] - x) < Abs(ages[i] - x))
  }

  /** The end is the newest bucket: nearest to t1, or the one after a start that is nearest to t1 itself. */
  ghost predicate EndsAtNewest(ages: seq<int>, t1: int, from: nat) {
    var last := |ages| - 1;
    last >= 1 && ((from < last && IsNearest(ages, t1, last)) || (from == last - 1 && IsNearest(ages, t1, from)))
  }

  /** Where an answer that starts with bucket `from` ends, |ages| being now. */
  ghost predicate EndIs(ages: seq<int>, t1: int, t2: int, from: nat, to: nat)
    requires ages != []
  {
    var last := |ages| - 1;
    var now := Abs(t2) <= Abs(ages[last] - t2);
    && (forall near: nat :: near < last && near != from && IsNearest(ages, t1, near) ==> to == near)
    && (IsNearest(ages, t1, from) && from + 1 < last ==> to == from + 1)
    && (EndsAtNewest(ages, t1, from) && !now ==> to == last)
    && (to == |ages| <==> from == last || (EndsAtNewest(ages, t1, from) && now))
  }

  lemma NearestIsOne(ages: seq<int>, x: int, p: nat, q: nat)
    requires IsNearest(ages, x, p) && IsNearest(ages, x, q)
    ensures p == q
  {
    assert Abs(ages[p] - x) == Abs(ages[q] - x);
  }

  lemma NearestIs(ages: seq<int>, x: int)
    requires ages != []
    ensures IsNearest(ages, x, Nearest(ages, |ages|, x))
  {
    NearestIsFirstMinimum(ages, |ages|, x);
  }

  /** From the nearest buckets and the two corrections to where the answer ends. */
  lemma EndFollows(ages: seq<int>, t1: int, t2: int, from: nat, near: nat, to: nat)
    requires IsNearest(ages, t2, from) && IsNearest(ages, t1, near) && from <= near
    requires var next := if near == from then near + 1 else near;
      to == if next == |ages| - 1 && Abs(t2) <= Abs(ages[next] - t2) then |ages| else next
    ensures EndIs(ages, t1, t2, from, to)
  {
    forall p: nat | IsNearest(ages, t1, p)
      ensures p == near
    {
      NearestIsOne(ages, t1, p, near);
    }
    var last := |ages| - 1;
    assert EndsAtNewest(ages, t1, from) <==> last >= 1 && from < last && (near == last || (near == from == last - 1));
  }

  lemma ChosenIs(ages: seq<int>, t1: int, t2: int, from: nat, to: nat)
    requires ages != [] && Descending(ages) && t1 <= t2 && from == Nearest(ages, |ages|, t2)
    requires var near := Nearest(ages, |ages|, t1);
      var next := if near == from then near + 1 else near;
      to == if next == |ages| - 1 && Abs(t2) <= Abs(ages[next] - t2) then |ages| else next
    ensures IsNearest(ages, t2, from) && EndIs(ages, t1, t2, from, to) && from < to
  {
    var near := Nearest(ages, |ages|, t1);
    NearestIsMonotone(ages, t1, t2);
    NearestIs(ages, t1);
    NearestIs(ages, t2);
    EndFollows(ages, t1, t2, from, near, to);
  }

  ghost function AgesOf(univs: seq<Bucket>, t: int): seq<int> {
    seq(|univs|, i requires 0 <= i < |univs| => t - univs[i].minTime)
  }

  /** Every distance the scan computes is below its starting value. */
  ghost predicate DistancesFit(ages: seq<int>, x: int) {
    forall i :: 0 <= i < |ages| ==> Abs(ages[i] - x) < MAX_INT64
  }

  /** The first of the buckets whose age is nearest to t1, and to t2. */
  method NearestBuckets(univs: seq<Bucket>, t1: int, t2: int, t: int) returns (from: int, to: int)
    requires univs != [] && DistancesFit(AgesOf(univs, t), t1) && DistancesFit(AgesOf(univs, t), t2)
    ensures from == Nearest(AgesOf(univs, t), |univs|, t2) && to == Nearest(AgesOf(univs, t), |univs|, t1)
  {
    ghost var ages := AgesOf(univs, t);
    var diff1, diff2 := MAX_INT64, MAX_INT64;
    from, to := |univs|, |univs|;
    var i := 0;
    while i < |univs|
      invariant 0 <= i <= |univs|
      invariant i == 0 ==> diff1 == diff2 == MAX_INT64
      invariant i > 0 ==> to == Nearest(ages, i, t1) && diff1 == Abs(ages[to] - t1)
      invariant i > 0 ==> from == Nearest(ages, i, t2) && diff2 == Abs(ages[from] - t2)
    {
      var age := t - univs[i].minTime;
      assert age == ages[i];
      var cur1, cur2 := Abs(age - t1), Abs(age - t2);
      if cur1 < diff1 {
        diff1, to := cur1, i;
      }
      if cur2 < diff2 {
        diff2, from := cur2, i;
      }
      i := i + 1;
    }
  }

  ghost predicate Descending(ages: seq<int>) {
    forall i, j :: 0 <= i < j < |ages| ==> ages[i] >= ages[j]
  }

  lemma OlderStaysNearer(older: int, newer: int, t1: int, t2: int)
    requires newer <= older && t1 <= t2 && Abs(older - t1) <= Abs(newer - t1)
    ensures Abs(older - t2) <= Abs(newer - t2)
  {
  }

  /** With ages descending, the bucket nearest to the larger offset is not after the one nearest to the smaller. */
  lemma NearestIsMonotone(ages: seq<int>, t1: int, t2: int)
    requires ages != [] && Descending(ages) && t1 <= t2
    ensures Nearest(ages, |ages|, t2) <= Nearest(ages, |ages|, t1)
  {
    NearestIsFirstMinimum(ages, |ages|, t1);
    NearestIsFirstMinimum(ages, |ages|, t2);
    var from, to := Nearest(ages, |ages|, t2), Nearest(ages, |ages|, t1);
    if to < from {
      OlderStaysNearer(ages[to], ages[from], t1, t2);
    }
  }

  // ------------------------------------------------------------------ expiry

  ghost predicate OldUpTo(starts: seq<nat>, history: seq<Event>, limit: int, n: nat)
    requires n <= |starts|
  {
    forall i :: 0 <= i < n ==> starts[i] < |history| && history[starts[i]].time < limit
  }

  /** Only a prefix of buckets is gone, each of which started before the limit. */
  ghost predicate OnlyOldDropped(before: seq<nat>, after: seq<nat>, history: seq<Event>, limit: int) {
    |after| <= |before|
    && after == before[|before| - |after|..] && OldUpTo(before, history, limit, |before| - |after|)
  }

  lemma PrefixIsOld(add: Weights, slots: seq<Content>, univs: seq<Bucket>, starts: seq<nat>, history: seq<Event>,
                    limit: int, n: nat)
    requires n <= |univs| == |starts| && BucketsAre(add, slots, univs, starts, history)
    requires forall i :: 0 <= i < n ==> univs[i].minTime < limit
    ensures OldUpTo(starts, history, limit, n)
  {
    forall i | 0 <= i < n
      ensures starts[i] < |history| && history[starts[i]].time < limit
    {
      assert BucketIs(add, slots, univs, starts, history, i);
    }
  }

  /** What an update leaves: the survivors of the fed list, n of the oldest aside, which are older than the limit. */
  ghost predicate Shrunk(beta: real, fed: seq<real>, was: seq<nat>, starts: seq<nat>, norms: seq<real>,
                         history: seq<Event>, limit: int, n: nat)
  {
    && |fed| == |was|
    && n <= |Survivors(beta, fed, was, 0)| && starts == Survivors(beta, fed, was, 0)[n..]
    && n <= |Survivors(beta, fed, fed, 0)| && norms == Survivors(beta, fed, fed, 0)[n..]
    && OldUpTo(Survivors(beta, fed, was, 0), history, limit, n)
  }

  /** The bucket of this start, if it is not older than the limit, is the oldest one left. */
  ghost predicate OldestStays(was: seq<nat>, starts: seq<nat>, history: seq<Event>, limit: int) {
    was != [] && was[0] < |history| && history[was[0]].time >= limit ==> starts != [] && starts[0] == was[0]
  }

  lemma NextIsFirst<T>(s: seq<T>, n: nat)
    requires n <= |s|
    ensures |Without(s, 0, n)| == |s| - n
    ensures n < |s| ==> Without(s, 0, n)[0] == s[n]
  {
  }

  /** The first n are gone, all older than the limit. */
  ghost predicate FrontGone(was: seq<nat>, before: seq<real>, starts: seq<nat>, norms: seq<real>, history: seq<Event>,
                            limit: int, n: nat)
  {
    && n <= |was| == |before| && starts == was[n..] && norms == before[n..] && OldUpTo(was, history, limit, n)
  }

  lemma SurvivorsShrink(beta: real, fed: seq<real>, was: seq<nat>, thinned: seq<nat>, kept: seq<real>, starts: seq<nat>,
                        norms: seq<real>, history: seq<Event>, limit: int, n: nat)
    requires |fed| == |was| && thinned == Survivors(beta, fed, was, 0) && kept == Survivors(beta, fed, fed, 0)
    requires FrontGone(thinned, kept, starts, norms, history, limit, n)
    ensures Shrunk(beta, fed, was, starts, norms, history, limit, n)
    ensures n == 0 && Rebounds(beta, fed, 0) ==> !Thin(beta, norms, |norms|)
  {
    ThinIff(beta, fed);
  }

  /** Dropping old buckets from the front leaves the others settled. */
  lemma FrontDropped(beta: real, was: seq<nat>, descending: bool, starts: seq<nat>, norms: seq<real>,
                     history: seq<Event>, limit: int, n: nat)
    requires n <= |norms| && Settled(beta, was, descending, starts, norms) && OldUpTo(starts, history, limit, n)
    ensures Settled(beta, was, descending, starts[n..], norms[n..])
    ensures OnlyOldDropped(starts, starts[n..], history, limit)
    ensures FrontGone(starts, norms, starts[n..], norms[n..], history, limit, n)
  {
    StaysSettled(beta, was, descending, starts, norms, n);
  }

  lemma EndsStay(was: seq<nat>, thinned: seq<nat>, starts: seq<nat>, history: seq<Event>, limit: int)
    requires OnlyOldDropped(thinned, starts, history, limit)
    requires (thinned == [] <==> was == []) && (thinned != [] ==> thinned[0] == was[0])
    ensures OldestStays(was, starts, history, limit)
    ensures thinned != [] && thinned[|thinned| - 1] < |history| && history[thinned[|thinned| - 1]].time >= limit ==>
      starts != []
  {
  }

  /** Thinning and expiry together. */
  lemma ShrinkMeans(beta: real, fed: seq<real>, was: seq<nat>, thinned: seq<nat>, kept: seq<real>, starts: seq<nat>,
                    norms: seq<real>, history: seq<Event>, limit: int, n: nat)
    requires |fed| == |was| && thinned == Survivors(beta, fed, was, 0) && kept == Survivors(beta, fed, fed, 0)
    requires FrontGone(thinned, kept, starts, norms, history, limit, n)
    requires OnlyOldDropped(thinned, starts, history, limit)
    requires Settled(beta, was, !Rebounds(beta, fed, 0), thinned, kept)
    requires (thinned == [] <==> was == []) && (thinned != [] ==> thinned[0] == was[0])
    ensures Shrunk(beta, fed, was, starts, norms, history, limit, n) && OldestStays(was, starts, history, limit)
    ensures n == 0 && Rebounds(beta, fed, 0) ==> !Thin(beta, norms, |norms|)
    ensures was != [] && was[|was| - 1] < |history| && history[was[|was| - 1]].time >= limit ==> starts != []
  {
    EndsStay(was, thinned, starts, history, limit);
    SurvivorsShrink(beta, fed, was, thinned, kept, starts, norms, history, limit, n);
  }

  /** The scan over buckets whose norm is close to that of bucket i. */
  method ScanClose(beta: real, l2: Norm, slots: seq<Content>, univs: seq<Bucket>, i: int) returns (maxj: int)
    requires 0 <= i < |univs| && forall j :: 0 <= j < |univs| ==> univs[j].poolIdx < |slots|
    ensures maxj == Furthest(beta, Norms(l2, slots, univs), i, i + 2)
  {
    ghost var norms := Norms(l2, slots, univs);
    maxj := i + 1;
    var compareValue := CompareValue(beta, l2(slots[univs[i].poolIdx]));
    var j := i + 2;
    while j <= |univs| - 3
      invariant maxj == j - 1 && i + 2 <= j && compareValue == CompareValue(beta, norms[i])
      invariant Furthest(beta, norms, i, i + 2) == Furthest(beta, norms, i, j)
    {
      assert norms[j] == l2(slots[univs[j].poolIdx]);
      if l2(slots[univs[j].poolIdx]) >= compareValue {
        maxj := j;
      } else {
        break;
      }
      j := j + 1;
    }
  }

  class SmoothHistogramUnivMon {
    var sCount: int
    var univs: seq<Bucket>
    const pool: SketchPool<Content>
    const beta: real
    const timeWindowSize: int
    const add: Weights
    const rank: Ranking
    const hashing: Hashing
    /** cs_l2 of layer 0, read off the counters. */
    const l2: Norm
    /** Every sample ever fed, and the position each bucket started at. */
    ghost var history: seq<Event>
    ghost var starts: seq<nat>

    ghost predicate Valid()
      reads this, pool
    {
      && pool.Valid() && pool.clean == Zero()
      && sCount == |univs| == |starts|
      && Increasing(starts)
      && DistinctSlots(univs) && pool.live == Slots(univs)
      && BucketsAre(add, pool.slots, univs, starts, history)
    }

    constructor (beta: real, timeWindowSize: int, add: Weights, rank: Ranking, hashing: Hashing, l2: Norm)
      ensures Valid() && history == [] && starts == []
      ensures this.beta == beta && this.timeWindowSize == timeWindowSize && this.l2 == l2
      ensures this.add == add && this.rank == rank && this.hashing == hashing
      ensures fresh(pool)
    {
      sCount, univs := 0, [];
      this.beta, this.timeWindowSize, this.l2 := beta, timeWindowSize, l2;
      this.add, this.rank, this.hashing := add, rank, hashing;
      pool := new SketchPool<Content>(Zero(), 1);
      history, starts := [], [];
      new;
      assert Slots(univs) == {};
    }

    ghost function NormSeq(): (n: seq<real>)
      reads this, pool
      ensures |n| == |univs|
    {
      Norms(l2, pool.slots, univs)
    }

    /** A background worker's step: no bucket notices. */
    method Background(receive: bool)
      requires Valid()
      modifies pool
      ensures Valid() && pool.live == old(pool.live)
    {
      if receive {
        if pool.queue != [] && |pool.inFlight| < WORKERS {
          pool.Receive();
        }
      } else if |pool.inFlight| > 0 {
        pool.CleanSlot(0);
      }
      SlotsUntouched(add, old(pool.slots), pool.slots, univs, starts, history);
    }

    /** Every bucket takes the sample; the newest one is on a clean slot. */
    method FeedBuckets(time: int, key: string, ghost before: seq<Event>)
      requires pool.Valid() && pool.clean == Zero() && |univs| == |starts|
      requires DistinctSlots(univs) && pool.live == Slots(univs)
      requires forall j :: 0 <= j < |univs| ==> Unfed(add, pool.slots, univs, starts, before, Event(time, key), j)
      modifies this`univs, pool
      ensures pool.Valid() && |univs| == |old(univs)| && DistinctSlots(univs) && pool.live == Slots(univs)
      ensures BucketsAre(add, pool.slots, univs, starts, before + [Event(time, key)])
    {
      ghost var e := Event(time, key);
      var i := 0;
      while i < |univs|
        invariant 0 <= i <= |univs| == |old(univs)| && pool.Valid() && pool.live == Slots(univs)
        invariant FedUpTo(add, pool.slots, univs, starts, before, e, i)
      {
        FedNext(add, rank, pool.slots, univs, starts, before, e, i);
        pool.Write(univs[i].poolIdx, Feed(add, rank, pool.slots[univs[i].poolIdx], key));
        univs := univs[i := univs[i].(maxTime := time)];
        i := i + 1;
      }
    }

    /** A new bucket, clean, at the newest end. */
    method OpenBucket(time: int, ghost e: Event)
      requires Valid() && e.time == time
      modifies this, pool
      ensures pool.Valid() && |univs| == |starts| == sCount + 1 && Increasing(starts)
      ensures starts == old(starts) + [|old(history)|] && history == old(history) + [e]
      ensures DistinctSlots(univs) && pool.live == Slots(univs)
      ensures forall j :: 0 <= j < |univs| ==> Unfed(add, pool.slots, univs, starts, old(history), e, j)
    {
      ghost var slots, before, firsts := pool.slots, history, starts;
      var us := univs;
      var idx := pool.GetUnivSketch();
      var b := Bucket(idx, time, time);
      Opened(add, slots, pool.slots, us, firsts, before, e, b);
      univs := us + [b];
      starts := firsts + [|before|];
      history := before + [e];
    }

    /** One new bucket on a clean slot, then every bucket takes the sample. */
    method FeedAll(time: int, key: string)
      requires Valid()
      modifies this, pool
      ensures Valid() && history == old(history) + [Event(time, key)] && starts == old(starts) + [|old(history)|]
    {
      ghost var before := history;
      OpenBucket(time, Event(time, key));
      FeedBuckets(time, key, before);
      sCount := sCount + 1;
    }

    /** These buckets give their slots back. */
    method GiveBack(buckets: seq<Bucket>)
      requires pool.Valid() && DistinctSlots(buckets) && Slots(buckets) <= pool.live
      modifies pool
      ensures pool.Valid() && pool.live == old(pool.live) - Slots(buckets)
      ensures Untouched(pool.live, old(pool.slots), pool.slots)
    {
      ghost var slots, live := pool.slots, pool.live;
      var idx := 0;
      while idx < |buckets|
        invariant 0 <= idx <= |buckets|
        invariant pool.Valid() && pool.live == live - Slots(buckets[..idx])
        invariant Untouched(pool.live, slots, pool.slots)
      {
        NextGiven(buckets, idx, live);
        ghost var held, was := pool.live, pool.slots;
        pool.PutUnivSketch(buckets[idx].poolIdx);
        StillUntouched(held, pool.live, slots, was, pool.slots);
        idx := idx + 1;
      }
      assert buckets[..idx] == buckets;
    }

    /** Buckets from..to - 1 leave the list. */
    method RemoveRange(from: int, to: int)
      requires Valid() && 0 <= from <= to <= sCount
      modifies this, pool
      ensures Valid() && history == old(history)
      ensures starts == Without(old(starts), from, to) && univs == Without(old(univs), from, to)
      ensures NormSeq() == Without(old(NormSeq()), from, to)
    {
      ghost var slots, ss := pool.slots, starts;
      var us := univs;
      WithoutKeeps(add, slots, us, ss, history, from, to);
      WithoutSlots(us, from, to);
      RangeDistinct(us, from, to);
      GiveBack(us[from..to]);
      ghost var after := pool.slots;
      univs := us[..from] + us[to..];
      sCount := sCount - (to - from);
      starts := Without(ss, from, to);
      SlotsUntouched(add, slots, after, univs, starts, history);
      NormsWithout(l2, slots, after, us, from, to);
    }

    /** The furthest bucket reachable over buckets whose norm is close to that of bucket i. */
    method LastClose(i: int) returns (maxj: int)
      requires Valid() && 0 <= i <= sCount - 3
      ensures maxj == Furthest(beta, NormSeq(), i, i + 2)
    {
      SlotsInRange();
      maxj := ScanClose(beta, l2, pool.slots, univs, i);
    }

    lemma SlotsInRange()
      requires Valid()
      ensures forall j :: 0 <= j < |univs| ==> univs[j].poolIdx < |pool.slots|
    {
      forall j | 0 <= j < |univs|
        ensures univs[j].poolIdx < |pool.slots|
      {
        assert BucketIs(add, pool.slots, univs, starts, history, j);
      }
    }

    /** Everything between bucket i and the furthest close one leaves. */
    method ThinAt(i: int, ghost was: seq<nat>, ghost p: int) returns (ghost next: int)
      requires Valid() && 0 <= i <= sCount - 3
      requires Thinning(beta, was, starts, NormSeq(), i, p)
      modifies this, pool
      ensures Valid() && history == old(history) && sCount <= old(sCount)
      ensures Thinning(beta, was, starts, NormSeq(), i + 1, next)
      ensures SameSurvivors(beta, old(NormSeq()), old(univs), old(starts), i, NormSeq(), univs, starts, i + 1)
    {
      ghost var ss, norms, us := starts, NormSeq(), univs;
      var maxj := LastClose(i);
      RemoveRange(i + 1, maxj);
      ghost var now, us2, ss2 := NormSeq(), univs, starts;
      StepIs(beta, was, norms, us, ss, i, maxj, p, now, us2, ss2);
      next := p + (maxj - i);
    }

    /**
      Thinning out: it keeps exactly the survivors, any two neighbouring buckets either were
      neighbours before or are close in norm, and no bucket is close to the second one after it
      if and only if no norm rebounds.
     */
    method Sparsify()
      requires Valid()
      modifies this, pool
      ensures Valid() && history == old(history)
      ensures |old(univs)| == |old(starts)| == |old(NormSeq())|
      ensures univs == Survivors(beta, old(NormSeq()), old(univs), 0)
      ensures starts == Survivors(beta, old(NormSeq()), old(starts), 0)
      ensures NormSeq() == Survivors(beta, old(NormSeq()), old(NormSeq()), 0)
      ensures Thin(beta, NormSeq(), sCount) <==> !Rebounds(beta, old(NormSeq()), 0)
      ensures Settled(beta, old(starts), !Rebounds(beta, old(NormSeq()), 0), starts, NormSeq())
      ensures starts == [] <==> old(starts) == []
      ensures starts != [] ==> starts[0] == old(starts)[0]
    {
      ghost var was, norms, us := starts, NormSeq(), univs;
      ghost var i, p := ThinAll();
      ghost var kept := NormSeq();
      ThinIff(beta, norms);
      assert kept == Survivors(beta, norms, norms, 0);
      ThinningEnd(beta, was, !Rebounds(beta, norms, 0), starts, kept, i, p);
    }

    /** The loop: i and p tell how far it came in the list as it is and as it was. */
    method ThinAll() returns (ghost n: nat, ghost p: int)
      requires Valid()
      modifies this, pool
      ensures Valid() && history == old(history) && n > sCount - 3
      ensures Thinning(beta, old(starts), starts, NormSeq(), n, p)
      ensures SameSurvivors(beta, old(NormSeq()), old(univs), old(starts), 0, NormSeq(), univs, starts, n)
    {
      ghost var was, norms, us := starts, NormSeq(), univs;
      p := 0;
      var i := 0;
      while i <= sCount - 3
        invariant Valid() && history == old(history) && 0 <= i
        invariant Thinning(beta, was, starts, NormSeq(), i, p)
        invariant SameSurvivors(beta, norms, us, was, 0, NormSeq(), univs, starts, i)
        decreases sCount - i
      {
        p := ThinAt(i, was, p);
        i := i + 1;
      }
      n := i;
    }

    /** How many of the oldest buckets started more than two windows ago. */
    method CountExpired(time: int) returns (removed: int)
      requires Valid()
      ensures 0 <= removed <= sCount && OldUpTo(starts, history, time - timeWindowSize * 2, removed)
      ensures removed < sCount ==> univs[removed].minTime + timeWindowSize * 2 >= time
    {
      removed := 0;
      while removed < sCount
        invariant 0 <= removed <= sCount
        invariant forall i :: 0 <= i < removed ==> univs[i].minTime + timeWindowSize * 2 < time
      {
        if univs[removed].minTime + timeWindowSize * 2 < time {
          removed := removed + 1;
        } else {
          break;
        }
      }
      PrefixIsOld(add, pool.slots, univs, starts, history, time - timeWindowSize * 2, removed);
    }

    method RemoveFront(n: int)
      requires Valid() && 0 <= n <= sCount
      modifies this, pool
      ensures Valid() && history == old(history) && univs == Without(old(univs), 0, n)
      ensures |old(starts)| == |old(NormSeq())| == old(sCount)
      ensures starts == old(starts)[n..] && NormSeq() == old(NormSeq())[n..]
    {
      RemoveRange(0, n);
    }

    /** They leave; the first bucket kept is younger, and what was settled about the others stays so. */
    method DropExpired(time: int, ghost was: seq<nat>, ghost descending: bool) returns (ghost n: nat)
      requires Valid() && Settled(beta, was, descending, starts, NormSeq())
      modifies this, pool
      ensures Valid() && history == old(history) && Settled(beta, was, descending, starts, NormSeq())
      ensures OnlyOldDropped(old(starts), starts, history, time - timeWindowSize * 2)
      ensures FrontGone(old(starts), old(NormSeq()), starts, NormSeq(), history, time - timeWindowSize * 2, n)
      ensures sCount > 0 ==> univs[0].minTime + timeWindowSize * 2 >= time
    {
      var removed := CountExpired(time);
      n := removed;
      ghost var limit := time - timeWindowSize * 2;
      FrontDropped(beta, was, descending, starts, NormSeq(), history, limit, n);
      NextIsFirst(univs, removed);
      RemoveFront(removed);
    }

    /**
      One sample. Every bucket still holds exactly the samples since its start and slots are held
      by one bucket each. With `fed` the norms after feeding, exactly the survivors of thinning stay,
      `expired` of the oldest ones aside; neighbours that were not neighbours before are close in
      norm, and the norm drops over any two buckets unless some fed norm rebounds, which none does
      when suffixes weigh no more than the whole. The oldest bucket stays until it started more
      than two windows ago.
     */
    method Update(time: int, key: string) returns (ghost fed: seq<real>, ghost expired: nat)
      requires Valid()
      modifies this, pool
      ensures Valid() && history == old(history) + [Event(time, key)]
      ensures NormsOf(add, l2, history, old(starts) + [|old(history)|], fed)
      ensures Shrunk(beta, fed, old(starts) + [|old(history)|], starts, NormSeq(), history, time - timeWindowSize * 2,
                     expired)
      ensures Settled(beta, old(starts) + [|old(history)|], !Rebounds(beta, fed, 0), starts, NormSeq())
      ensures expired == 0 && Rebounds(beta, fed, 0) ==> !Thin(beta, NormSeq(), sCount)
      ensures MonotoneNorm(add, l2, history) ==> !Rebounds(beta, fed, 0)
      ensures sCount > 0 ==> univs[0].minTime + timeWindowSize * 2 >= time
      ensures OldestStays(old(starts) + [|old(history)|], starts, history, time - timeWindowSize * 2)
      ensures timeWindowSize >= 0 ==> sCount > 0
    {
      FeedAll(time, key);
      fed := NormSeq();
      NormsBelong(add, l2, pool.slots, univs, starts, history);
      if MonotoneNorm(add, l2, history) {
        NormsDescend(add, l2, pool.slots, univs, starts, history);
        FallingNeverRebounds(beta, fed, 0);
      }
      expired := Shrink(time);
    }

    /** What follows the feeding: thinning out, then expiry. */
    method Shrink(time: int) returns (ghost expired: nat)
      requires Valid() && starts != []
      requires starts[sCount - 1] < |history| && history[starts[sCount - 1]].time == time
      modifies this, pool
      ensures Valid() && history == old(history)
      ensures Shrunk(beta, old(NormSeq()), old(starts), starts, NormSeq(), history, time - timeWindowSize * 2, expired)
      ensures Settled(beta, old(starts), !Rebounds(beta, old(NormSeq()), 0), starts, NormSeq())
      ensures expired == 0 && Rebounds(beta, old(NormSeq()), 0) ==> !Thin(beta, NormSeq(), sCount)
      ensures sCount > 0 ==> univs[0].minTime + timeWindowSize * 2 >= time
      ensures OldestStays(old(starts), starts, history, time - timeWindowSize * 2)
      ensures timeWindowSize >= 0 ==> sCount > 0
    {
      ghost var was, fed := starts, NormSeq();
      Sparsify();
      expired := Expire(time, was, fed);
    }

    /** Expiry after thinning, seen from the list as it was fed. */
    method Expire(time: int, ghost was: seq<nat>, ghost fed: seq<real>) returns (ghost expired: nat)
      requires Valid() && |fed| == |was| && starts == Survivors(beta, fed, was, 0)
      requires NormSeq() == Survivors(beta, fed, fed, 0)
      requires Settled(beta, was, !Rebounds(beta, fed, 0), starts, NormSeq())
      requires (starts == [] <==> was == []) && (starts != [] ==> starts[0] == was[0])
      modifies this, pool
      ensures Valid() && history == old(history)
      ensures Shrunk(beta, fed, was, starts, NormSeq(), history, time - timeWindowSize * 2, expired)
      ensures Settled(beta, was, !Rebounds(beta, fed, 0), starts, NormSeq())
      ensures expired == 0 && Rebounds(beta, fed, 0) ==> !Thin(beta, NormSeq(), sCount)
      ensures sCount > 0 ==> univs[0].minTime + timeWindowSize * 2 >= time
      ensures OldestStays(was, starts, history, time - timeWindowSize * 2)
      ensures was != [] && was[|was| - 1] < |history| && history[was[|was| - 1]].time >= time - timeWindowSize * 2 ==>
        sCount > 0
    {
      ghost var limit, h, thinned, kept := time - timeWindowSize * 2, history, starts, NormSeq();
      expired := DropExpired(time, was, !Rebounds(beta, fed, 0));
      ghost var ss, norms := starts, NormSeq();
      ShrinkMeans(beta, fed, was, thinned, kept, ss, norms, h, limit, expired);
    }

    /** The list as an update leaves it: geometric decay, so logarithmically many buckets in the ratio of norms. */
    lemma FewBuckets(was: seq<nat>, m: nat)
      requires Valid() && Settled(beta, was, true, starts, NormSeq())
      requires 0.0 <= beta <= 2.0 && 2 * m <= sCount - 3
      ensures NormSeq()[2 * m] <= Power(1.0 - 0.5 * beta, m) * NormSeq()[0]
    {
      NormsDecay(beta, NormSeq(), m);
    }

    /** Starting times of the buckets, seen from time t. */
    ghost function Ages(t: int): seq<int>
      reads this
    {
      AgesOf(univs, t)
    }

    ghost predicate TimesAscend() reads this {
      forall i, j :: 0 <= i < j < |history| ==> history[i].time <= history[j].time
    }

    lemma AgesDescend(t: int)
      requires Valid() && TimesAscend()
      ensures Descending(Ages(t))
    {
      forall i, j | 0 <= i < j < |univs|
        ensures Ages(t)[i] >= Ages(t)[j]
      {
        assert BucketIs(add, pool.slots, univs, starts, history, i) &&
          BucketIs(add, pool.slots, univs, starts, history, j);
        assert InOrder(starts, i, j);
      }
    }

    ghost predicate InReach(t1: int, t2: int, t: int)
      reads this
    {
      DistancesFit(Ages(t), t1) && DistancesFit(Ages(t), t2)
    }

    /**
      The bucket whose age is nearest to t2, and the bound for t1, moved past the last bucket when
      that is nearer to now.
     */
    method ChooseBuckets(t1: int, t2: int, t: int) returns (from: int, to: int)
      requires sCount == |univs| && sCount > 0
      requires InReach(t1, t2, t)
      ensures from == Nearest(Ages(t), sCount, t2)
      ensures var near := Nearest(Ages(t), sCount, t1);
        var next := if near == from then near + 1 else near;
        to == if next == sCount - 1 && Abs(t2) <= Abs(Ages(t)[next] - t2) then sCount else next
    {
      from, to := NearestBuckets(univs, t1, t2, t);
      if from == to {
        to := to + 1;
      }
      if to == sCount - 1 {
        if Abs(t2) <= Abs((t - univs[to].minTime) - t2) {
          to := to + 1;
        }
      }
    }

    /** The samples from the start of bucket `from` up to the start of bucket `to`, or to now. */
    ghost function EventsBetween(from: nat, to: nat): seq<Event>
      requires Valid() && from < to && from < sCount
      reads this, pool
    {
      assert BucketIs(add, pool.slots, univs, starts, history, from);
      if to < sCount then
        assert BucketIs(add, pool.slots, univs, starts, history, to) && InOrder(starts, from, to);
        history[starts[from]..starts[to]]
      else history[starts[from]..]
    }

    /** The sketch a bucket refers to. */
    ghost function SketchAt(i: nat): Content
      requires Valid() && i < sCount
      reads this, pool
    {
      assert BucketIs(add, pool.slots, univs, starts, history, i);
      pool.slots[univs[i].poolIdx]
    }

    /** Heaps are copied, and re-estimated from the counters of the answer when something was subtracted. */
    ghost predicate HeapsAre(content: Content, from: nat, to: nat)
      requires Valid() && from < sCount
      reads this, pool
    {
      var heaps := SketchAt(from).heaps;
      && |content.heaps| == |heaps| == LAYERS
      && (to >= sCount ==> content.heaps == heaps)
      && (to < sCount ==>
            forall l :: 0 <= l < LAYERS ==> Reestimated(heaps[l], content.heaps[l], content.counts, hashing, l))
    }

    /** Subtraction refines a direct build: the answer is the sketch of exactly the samples in between. */
    method MergeRange(from: nat, to: nat) returns (r: QueryResult)
      requires Valid() && from < to && from < sCount
      ensures r.Merged? && Absorbed(add, r.content, EventsBetween(from, to)) && HeapsAre(r.content, from, to)
      ensures r.minTime == univs[from].minTime
      ensures r.maxTime == if to < sCount then univs[to].minTime else univs[from].maxTime
    {
      assert BucketIs(add, pool.slots, univs, starts, history, from);
      var a := pool.slots[univs[from].poolIdx];
      if to < sCount {
        assert BucketIs(add, pool.slots, univs, starts, history, to);
        var b := pool.slots[univs[to].poolIdx];
        assert InOrder(starts, from, to);
        ghost var p, q := starts[from], starts[to];
        assert history[p..] == history[p..q] + history[q..];
        var d := Subtract(a, b, hashing);
        SubtractAbsorbs(add, a, b, d, history[p..q], history[q..]);
        return Merged(d, univs[from].minTime, univs[to].minTime);
      } else {
        return Merged(a, univs[from].minTime, univs[from].maxTime);
      }
    }

    /** Samples of the answer lie between the two starting times, and every sample strictly between them is one. */
    ghost predicate TimesBetween(from: nat, to: nat)
      requires |starts| == |univs| && from < |univs|
      reads this
    {
      var until := if to < |starts| then starts[to] else |history|;
      && (forall i :: starts[from] <= i < until && i < |history| ==>
            univs[from].minTime <= history[i].time && (to < |univs| ==> history[i].time <= univs[to].minTime))
      && (forall i :: 0 <= i < |history| ==>
            univs[from].minTime < history[i].time && (to < |univs| ==> history[i].time < univs[to].minTime) ==>
            starts[from] <= i < until)
    }

    lemma Chosen(t1: int, t2: int, t: int, from: nat, to: nat)
      requires Valid() && TimesAscend() && t1 <= t2 && sCount > 0 && from == Nearest(Ages(t), sCount, t2)
      requires var near := Nearest(Ages(t), sCount, t1);
        var next := if near == from then near + 1 else near;
        to == if next == sCount - 1 && Abs(t2) <= Abs(Ages(t)[next] - t2) then sCount else next
      ensures IsNearest(Ages(t), t2, from) && EndIs(Ages(t), t1, t2, from, to)
      ensures from < to && from < sCount && TimesBetween(from, to)
    {
      AgesDescend(t);
      ChosenIs(Ages(t), t1, t2, from, to);
      TimesOfAnswer(from, to);
    }

    lemma TimesOfAnswer(from: nat, to: nat)
      requires Valid() && TimesAscend() && from < to && from < sCount
      ensures TimesBetween(from, to)
    {
      assert BucketIs(add, pool.slots, univs, starts, history, from);
      if to < sCount {
        assert BucketIs(add, pool.slots, univs, starts, history, to);
      }
    }

    /**
      In every reachable state with ascending times, for t1 <= t2 the start bucket is strictly
      before the end bucket and the answer is the sketch of the samples between their starts. It
      starts with the bucket nearest to t2 and ends with the one nearest to t1, apart from the two
      corrections: the next bucket when both are the same, and now when the end is the newest
      bucket and t2 is at least as near to now as to its start.
     */
    method QueryIntervalMergeUniv(t1: int, t2: int, t: int) returns (r: QueryResult, ghost from: int, ghost to: int)
      requires Valid() && TimesAscend() && t1 <= t2
      requires InReach(t1, t2, t)
      ensures r.NotFound? <==> sCount == 0
      ensures r.Merged? ==> 0 <= from < to && from < sCount && Absorbed(add, r.content, EventsBetween(from, to))
      ensures r.Merged? ==> HeapsAre(r.content, from, to)
      ensures r.Merged? ==> sCount == |univs| == |starts| > from && EndIs(Ages(t), t1, t2, from, to)
      ensures r.Merged? ==> IsNearest(Ages(t), t2, from) && TimesBetween(from, to)
      ensures r.Merged? ==> r.minTime == univs[from].minTime
      ensures r.Merged? ==> r.maxTime == if to < sCount then univs[to].minTime else univs[from].maxTime
    {
      from, to := 0, 0;
      if sCount == 0 {
        return NotFound, 0, 0;
      }
      var f, e := ChooseBuckets(t1, t2, t);
      Chosen(t1, t2, t, f, e);
      from, to := f, e;
      r := MergeRange(f, e);
    }
  }
}
