/** The bucket list of the smooth histogram: which samples each bucket holds, and which slots are held by whom. */
module SmoothBuckets {
  import opened SketchContent
  import opened SketchPools

  /** A bucket refers to a slot of the pool. */
  datatype Bucket = Bucket(poolIdx: nat, minTime: int, maxTime: int)

  predicate InOrder(starts: seq<nat>, i: int, j: int) {
    0 <= i < j < |starts| ==> starts[i] < starts[j]
  }

  ghost predicate Increasing(starts: seq<nat>) {
    forall i, j :: InOrder(starts, i, j)
  }

  ghost function Slots(univs: seq<Bucket>): set<nat> {
    set i | 0 <= i < |univs| :: univs[i].poolIdx
  }

  predicate Apart(univs: seq<Bucket>, i: int, j: int) {
    0 <= i < j < |univs| ==> univs[i].poolIdx != univs[j].poolIdx
  }

  ghost predicate DistinctSlots(univs: seq<Bucket>) {
    forall i, j :: Apart(univs, i, j)
  }

  /** Bucket i holds the sketch of everything fed since its start. */
  ghost predicate BucketIs(add: Weights, slots: seq<Content>, univs: seq<Bucket>, starts: seq<nat>,
                           history: seq<Event>, i: nat)
    requires i < |univs| == |starts|
  {
    && univs[i].poolIdx < |slots|
    && starts[i] < |history|
    && univs[i].minTime == history[starts[i]].time
    && univs[i].maxTime == history[|history| - 1].time
    && Absorbed(add, slots[univs[i].poolIdx], history[starts[i]..])
  }

  ghost predicate BucketsAre(add: Weights, slots: seq<Content>, univs: seq<Bucket>, starts: seq<nat>,
                             history: seq<Event>)
    requires |univs| == |starts|
  {
    forall i :: 0 <= i < |univs| ==> BucketIs(add, slots, univs, starts, history, i)
  }

  lemma SlotsUntouched(add: Weights, slots: seq<Content>, after: seq<Content>, univs: seq<Bucket>,
                       starts: seq<nat>, history: seq<Event>)
    requires |univs| == |starts| && BucketsAre(add, slots, univs, starts, history)
    requires |slots| <= |after| && forall i :: i in Slots(univs) && i < |slots| ==> after[i] == slots[i]
    ensures BucketsAre(add, after, univs, starts, history)
  {
    forall i | 0 <= i < |univs|
      ensures BucketIs(add, after, univs, starts, history, i)
    {
      assert BucketIs(add, slots, univs, starts, history, i);
      assert univs[i].poolIdx in Slots(univs);
    }
  }

  /** Bucket i has not taken the sample after `before` yet; the newest one is still clean. */
  ghost predicate Unfed(add: Weights, slots: seq<Content>, univs: seq<Bucket>, starts: seq<nat>,
                        before: seq<Event>, e: Event, i: nat)
    requires i < |univs| == |starts|
  {
    && univs[i].poolIdx < |slots| && starts[i] <= |before|
    && univs[i].minTime == (before + [e])[starts[i]].time
    && Absorbed(add, slots[univs[i].poolIdx], before[starts[i]..])
  }

  lemma AllUnfed(add: Weights, slots: seq<Content>, univs: seq<Bucket>, starts: seq<nat>, before: seq<Event>,
                 e: Event, b: Bucket)
    requires |univs| == |starts| && BucketsAre(add, slots, univs, starts, before)
    requires b.poolIdx < |slots| && slots[b.poolIdx] == Zero() && b.minTime == e.time
    ensures forall j :: 0 <= j <= |univs| ==> Unfed(add, slots, univs + [b], starts + [|before|], before, e, j)
  {
    ZeroAbsorbs(add);
    assert before[|before|..] == [];
    forall j | 0 <= j < |univs|
      ensures Unfed(add, slots, univs + [b], starts + [|before|], before, e, j)
    {
      assert BucketIs(add, slots, univs, starts, before, j);
    }
  }

  lemma StartsGrow(add: Weights, slots: seq<Content>, univs: seq<Bucket>, starts: seq<nat>, before: seq<Event>)
    requires Increasing(starts) && |univs| == |starts| && BucketsAre(add, slots, univs, starts, before)
    ensures Increasing(starts + [|before|])
  {
    forall i | 0 <= i < |starts|
      ensures starts[i] < |before|
    {
      assert BucketIs(add, slots, univs, starts, before, i);
    }
    forall i, j
      ensures InOrder(starts + [|before|], i, j)
    {
      assert InOrder(starts, i, j);
    }
  }

  /** A new bucket on a clean slot that nobody held: the list before the sample is fed. */
  lemma Opened(add: Weights, slots: seq<Content>, after: seq<Content>, univs: seq<Bucket>, starts: seq<nat>,
               before: seq<Event>, e: Event, b: Bucket)
    requires Increasing(starts) && DistinctSlots(univs)
    requires |univs| == |starts| && BucketsAre(add, slots, univs, starts, before)
    requires |slots| <= |after| && forall i :: 0 <= i < |slots| ==> after[i] == slots[i]
    requires b.poolIdx < |after| && after[b.poolIdx] == Zero() && b.minTime == e.time && b.poolIdx !in Slots(univs)
    ensures Increasing(starts + [|before|]) && DistinctSlots(univs + [b])
    ensures Slots(univs + [b]) == Slots(univs) + {b.poolIdx}
    ensures forall j :: 0 <= j <= |univs| ==> Unfed(add, after, univs + [b], starts + [|before|], before, e, j)
  {
    StartsGrow(add, slots, univs, starts, before);
    SlotsUntouched(add, slots, after, univs, starts, before);
    NewSlot(univs, b);
    AllUnfed(add, after, univs, starts, before, e, b);
  }

  /** Writing the fed sketch of bucket i moves it on and leaves the others where they were. */
  lemma FedOne(add: Weights, rank: Ranking, slots: seq<Content>, univs: seq<Bucket>, starts: seq<nat>,
               before: seq<Event>, e: Event, i: nat)
    requires i < |univs| == |starts| && DistinctSlots(univs)
    requires Unfed(add, slots, univs, starts, before, e, i)
    ensures var slot := univs[i].poolIdx;
      var after := slots[slot := Feed(add, rank, slots[slot], e.key)];
      var us := univs[i := univs[i].(maxTime := e.time)];
      && BucketIs(add, after, us, starts, before + [e], i)
      && (forall j :: 0 <= j < |univs| && j != i && BucketIs(add, slots, univs, starts, before + [e], j) ==>
            BucketIs(add, after, us, starts, before + [e], j))
      && (forall j :: 0 <= j < |univs| && j != i && Unfed(add, slots, univs, starts, before, e, j) ==>
            Unfed(add, after, us, starts, before, e, j))
  {
    FeedAbsorbs(add, rank, slots[univs[i].poolIdx], before[starts[i]..], e);
    assert (before + [e])[starts[i]..] == before[starts[i]..] + [e];
    forall j | 0 <= j < |univs| && j != i
      ensures univs[j].poolIdx != univs[i].poolIdx
    {
      assert Apart(univs, i, j) && Apart(univs, j, i);
    }
  }

  /** The first i buckets have taken the sample, the others have not. */
  ghost predicate FedUpTo(add: Weights, slots: seq<Content>, univs: seq<Bucket>, starts: seq<nat>, before: seq<Event>,
                          e: Event, i: nat)
  {
    && i <= |univs| == |starts| && DistinctSlots(univs)
    && (forall j :: 0 <= j < i ==> BucketIs(add, slots, univs, starts, before + [e], j))
    && (forall j :: i <= j < |univs| ==> Unfed(add, slots, univs, starts, before, e, j))
  }

  lemma FedNext(add: Weights, rank: Ranking, slots: seq<Content>, univs: seq<Bucket>, starts: seq<nat>,
                before: seq<Event>, e: Event, i: nat)
    requires FedUpTo(add, slots, univs, starts, before, e, i) && i < |univs|
    ensures univs[i].poolIdx < |slots| && univs[i].poolIdx in Slots(univs)
    ensures var slot := univs[i].poolIdx;
      var after := slots[slot := Feed(add, rank, slots[slot], e.key)];
      var us := univs[i := univs[i].(maxTime := e.time)];
      FedUpTo(add, after, us, starts, before, e, i + 1) && Slots(us) == Slots(univs)
  {
    FedOne(add, rank, slots, univs, starts, before, e, i);
    SameSlots(univs, univs[i := univs[i].(maxTime := e.time)]);
  }

  lemma SameSlots(univs: seq<Bucket>, us: seq<Bucket>)
    requires |univs| == |us| && forall i :: 0 <= i < |univs| ==> univs[i].poolIdx == us[i].poolIdx
    ensures Slots(us) == Slots(univs) && (DistinctSlots(univs) ==> DistinctSlots(us))
  {
    forall i, j | DistinctSlots(univs)
      ensures Apart(us, i, j)
    {
      assert Apart(univs, i, j);
    }
    forall x
      ensures x in Slots(us) <==> x in Slots(univs)
    {
      if x in Slots(univs) {
        var i :| 0 <= i < |univs| && univs[i].poolIdx == x;
        assert us[i].poolIdx == x;
      }
    }
  }

  lemma NewSlot(univs: seq<Bucket>, b: Bucket)
    requires DistinctSlots(univs) && b.poolIdx !in Slots(univs)
    ensures DistinctSlots(univs + [b]) && Slots(univs + [b]) == Slots(univs) + {b.poolIdx}
  {
    forall i, j
      ensures Apart(univs + [b], i, j)
    {
      assert Apart(univs, i, j);
      assert 0 <= i < |univs| ==> univs[i].poolIdx in Slots(univs);
    }
    forall x
      ensures x in Slots(univs + [b]) <==> x in Slots(univs) || x == b.poolIdx
    {
      if x in Slots(univs) {
        var i :| 0 <= i < |univs| && univs[i].poolIdx == x;
        assert (univs + [b])[i].poolIdx == x;
      } else if x == b.poolIdx {
        assert (univs + [b])[|univs|].poolIdx == x;
      }
    }
  }

  ghost function Without<T>(s: seq<T>, from: int, to: int): seq<T>
    requires 0 <= from <= to <= |s|
  {
    s[..from] + s[to..]
  }

  lemma RangeDistinct(univs: seq<Bucket>, from: int, to: int)
    requires 0 <= from <= to <= |univs| && DistinctSlots(univs)
    ensures DistinctSlots(univs[from..to]) && Slots(univs[from..to]) <= Slots(univs)
  {
    var out := univs[from..to];
    forall i, j
      ensures Apart(out, i, j)
    {
      assert Apart(univs, from + i, from + j);
    }
    forall j | 0 <= j < |out|
      ensures out[j].poolIdx in Slots(univs)
    {
      assert out[j] == univs[from + j];
    }
  }

  lemma SlotLeftOrOut(univs: seq<Bucket>, from: int, to: int, x: nat)
    requires 0 <= from <= to <= |univs| && x in Slots(univs)
    ensures x in Slots(Without(univs, from, to)) || x in Slots(univs[from..to])
  {
    var i :| 0 <= i < |univs| && univs[i].poolIdx == x;
    if from <= i < to {
      assert univs[from..to][i - from] == univs[i];
    } else {
      assert Without(univs, from, to)[if i < from then i else i - (to - from)] == univs[i];
    }
  }

  lemma SlotNotBoth(univs: seq<Bucket>, from: int, to: int, i: nat, j: nat)
    requires 0 <= from <= to <= |univs| && DistinctSlots(univs)
    requires i < |Without(univs, from, to)| && j < to - from
    ensures Without(univs, from, to)[i].poolIdx != univs[from..to][j].poolIdx
  {
    var k := if i < from then i else i + (to - from);
    assert Without(univs, from, to)[i] == univs[k] && univs[from..to][j] == univs[from + j];
    assert Apart(univs, k, from + j) && Apart(univs, from + j, k);
  }

  /** The slots of the buckets taken out are the ones the others no longer hold. */
  lemma WithoutSlots(univs: seq<Bucket>, from: int, to: int)
    requires 0 <= from <= to <= |univs| && DistinctSlots(univs)
    ensures Slots(Without(univs, from, to)) == Slots(univs) - Slots(univs[from..to])
  {
    var us, out := Without(univs, from, to), univs[from..to];
    forall x
      ensures x in Slots(us) <==> x in Slots(univs) && x !in Slots(out)
    {
      if x in Slots(us) {
        var i :| 0 <= i < |us| && us[i].poolIdx == x;
        assert us[i] == univs[if i < from then i else i + (to - from)];
        forall j | 0 <= j < |out|
          ensures out[j].poolIdx != x
        {
          SlotNotBoth(univs, from, to, i, j);
        }
      } else if x in Slots(univs) {
        SlotLeftOrOut(univs, from, to, x);
      }
    }
  }

  lemma NextSlot(buckets: seq<Bucket>, k: nat)
    requires k < |buckets| && DistinctSlots(buckets)
    ensures buckets[k].poolIdx in Slots(buckets) && buckets[k].poolIdx !in Slots(buckets[..k])
    ensures Slots(buckets[..k + 1]) == Slots(buckets[..k]) + {buckets[k].poolIdx}
  {
    forall i, j
      ensures Apart(buckets[..k], i, j)
    {
      assert Apart(buckets, i, j);
    }
    forall i | 0 <= i < k
      ensures buckets[i].poolIdx != buckets[k].poolIdx
    {
      assert Apart(buckets, i, k);
    }
    NewSlot(buckets[..k], buckets[k]);
    assert buckets[..k + 1] == buckets[..k] + [buckets[k]];
  }

  lemma NextGiven(buckets: seq<Bucket>, k: nat, live: set<nat>)
    requires k < |buckets| && DistinctSlots(buckets) && Slots(buckets) <= live
    ensures buckets[k].poolIdx in live - Slots(buckets[..k])
    ensures live - Slots(buckets[..k]) - {buckets[k].poolIdx} == live - Slots(buckets[..k + 1])
  {
    NextSlot(buckets, k);
  }

  lemma StillUntouched<T>(held: set<nat>, fewer: set<nat>, was: seq<T>, between: seq<T>, now: seq<T>)
    requires fewer <= held && Untouched(held, was, between) && Untouched(fewer, between, now)
    ensures Untouched(fewer, was, now)
  {
  }

  /** Deleting a range of buckets keeps everything the others say. */
  lemma WithoutKeeps(add: Weights, slots: seq<Content>, univs: seq<Bucket>, starts: seq<nat>,
                     history: seq<Event>, from: int, to: int)
    requires 0 <= from <= to <= |univs| == |starts|
    requires BucketsAre(add, slots, univs, starts, history) && Increasing(starts) && DistinctSlots(univs)
    ensures Increasing(Without(starts, from, to)) && DistinctSlots(Without(univs, from, to))
    ensures BucketsAre(add, slots, Without(univs, from, to), Without(starts, from, to), history)
  {
    var us, ss := Without(univs, from, to), Without(starts, from, to);
    var gap := to - from;
    forall i, j
      ensures InOrder(ss, i, j) && Apart(us, i, j)
    {
      var k, l := if i < from then i else i + gap, if j < from then j else j + gap;
      assert InOrder(starts, k, l) && Apart(univs, k, l);
    }
    forall i | 0 <= i < |us|
      ensures BucketIs(add, slots, us, ss, history, i)
    {
      var j := if i < from then i else i + gap;
      assert us[i] == univs[j] && ss[i] == starts[j];
      assert BucketIs(add, slots, univs, starts, history, j);
    }
  }
}
