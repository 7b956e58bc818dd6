/**
  The sketch buckets of the second-moment histogram, each a stretch of the stream older than
  all maps: internal/promsketch/exponential_univmon_optimized.go.
*/
module MomentSketches {
  import opened Numbers
  import opened Stream

  /** A sketch bucket; norm is what its layer-0 cs_l22 returns. */
  datatype SketchBucket = SketchBucket(minTime: int, maxTime: int, bucketSize: int, norm: int)

  // ------------------------------------------------------------------ merging and expiry

  ghost function NormSum(univs: seq<SketchBucket>): int {
    if univs == [] then 0 else univs[0].norm + NormSum(univs[1..])
  }

  ghost function SketchTotal(univs: seq<SketchBucket>): int {
    if univs == [] then 0 else univs[0].bucketSize + SketchTotal(univs[1..])
  }

  /** Merging adds the counters and sizes; the stored norm of the older sketch stays as it is. */
  function MergeSketches(a: SketchBucket, b: SketchBucket): SketchBucket {
    SketchBucket(Min(a.minTime, b.minTime), Max(a.maxTime, b.maxTime), a.bucketSize + b.bucketSize, a.norm)
  }

  ghost function JoinSketch(x: SketchBucket, rest: seq<SketchBucket>, k: int, mass: int): seq<SketchBucket> {
    if rest != [] && k * (x.norm + rest[0].norm) <= mass + NormSum(rest[1..])
    then [MergeSketches(x, rest[0])] + rest[1..]
    else [x] + rest
  }

  /** The sketch merge pass, newest to oldest, with the energy of the newer maps as its start. */
  ghost function SketchPass(univs: seq<SketchBucket>, k: int, mass: int): seq<SketchBucket> {
    if univs == [] then [] else JoinSketch(univs[0], SketchPass(univs[1..], k, mass), k, mass)
  }

  lemma SketchPassFrom(univs: seq<SketchBucket>, i: nat, k: int, mass: int)
    requires i < |univs|
    ensures SketchPass(univs[i..], k, mass) == JoinSketch(univs[i], SketchPass(univs[i + 1..], k, mass), k, mass)
    ensures SketchPass([], k, mass) == []
  {
    assert univs[i..][1..] == univs[i + 1..];
  }

  lemma {:induction false} SketchPassConserves(univs: seq<SketchBucket>, k: int, mass: int)
    ensures SketchTotal(SketchPass(univs, k, mass)) == SketchTotal(univs)
    ensures univs != [] ==> SketchPass(univs, k, mass) != []
  {
    if univs != [] {
      SketchPassConserves(univs[1..], k, mass);
      var rest := SketchPass(univs[1..], k, mass);
      if rest != [] {
        assert ([MergeSketches(univs[0], rest[0])] + rest[1..])[1..] == rest[1..];
      }
      assert ([univs[0]] + rest)[1..] == rest;
    }
  }

  lemma {:induction false} SketchTotalPlus(a: seq<SketchBucket>, b: seq<SketchBucket>)
    ensures SketchTotal(a + b) == SketchTotal(a) + SketchTotal(b)
  {
    if a == [] {
      assert a + b == b;
    } else {
      SketchTotalPlus(a[1..], b);
      assert (a + b)[1..] == a[1..] + b;
    }
  }

  ghost function ExpiredSketches(univs: seq<SketchBucket>, cutoff: int): (n: nat)
    ensures n <= |univs|
  {
    if univs == [] || univs[0].maxTime >= cutoff then 0 else 1 + ExpiredSketches(univs[1..], cutoff)
  }

  lemma {:induction false} ExpiredSketchesIs(univs: seq<SketchBucket>, cutoff: int, n: nat)
    requires n <= |univs|
    requires forall p :: 0 <= p < n ==> univs[p].maxTime < cutoff
    requires n < |univs| ==> univs[n].maxTime >= cutoff
    ensures n == ExpiredSketches(univs, cutoff)
  {
    if n > 0 {
      ExpiredSketchesIs(univs[1..], cutoff, n - 1);
    }
  }

  // ------------------------------------------------------------------ what the merge pass leaves

  /** No adjacent pair can be merged any more. */
  ghost predicate SketchTight(univs: seq<SketchBucket>, k: int, mass: int) {
    |univs| >= 2 ==>
      && k * (univs[0].norm + univs[1].norm) > mass + NormSum(univs[2..])
      && SketchTight(univs[1..], k, mass)
  }

  ghost predicate NormsFall(univs: seq<SketchBucket>) {
    |univs| >= 2 ==> univs[0].norm >= univs[1].norm && NormsFall(univs[1..])
  }

  lemma SketchJoinIsTight(x: SketchBucket, rest: seq<SketchBucket>, k: int, mass: int)
    requires k >= 1 && SketchTight(rest, k, mass) && NormsFall(rest) && (rest != [] ==> x.norm >= rest[0].norm)
    ensures SketchTight(JoinSketch(x, rest, k, mass), k, mass) && NormsFall(JoinSketch(x, rest, k, mass))
    ensures JoinSketch(x, rest, k, mass) != [] && JoinSketch(x, rest, k, mass)[0].norm == x.norm
  {
    var joined := JoinSketch(x, rest, k, mass);
    if rest != [] && k * (x.norm + rest[0].norm) <= mass + NormSum(rest[1..]) {
      assert joined[1..] == rest[1..];
      if |rest| >= 2 {
        assert joined[2..] == rest[2..];
        PairGrows(k, x.norm, rest[0].norm, rest[1].norm);
      }
    } else {
      assert joined[1..] == rest;
      assert |joined| >= 2 ==> joined[2..] == rest[1..];
    }
  }

  lemma PairGrows(k: int, x: int, y: int, z: int)
    requires k >= 1 && x >= y
    ensures k * (x + z) >= k * (y + z)
  {
  }

  /** When no older sketch is lighter than a newer one, the pass leaves no mergeable pair. */
  lemma {:induction false} SketchPassIsTight(univs: seq<SketchBucket>, k: int, mass: int)
    requires k >= 1 && NormsFall(univs)
    ensures SketchTight(SketchPass(univs, k, mass), k, mass) && NormsFall(SketchPass(univs, k, mass))
    ensures univs != [] ==> SketchPass(univs, k, mass) != [] && SketchPass(univs, k, mass)[0].norm == univs[0].norm
  {
    if univs != [] {
      SketchPassIsTight(univs[1..], k, mass);
      SketchJoinIsTight(univs[0], SketchPass(univs[1..], k, mass), k, mass);
    }
  }

  /** A merged sketch keeps the older norm, so the pass can leave a mergeable pair: norms 1, 5, 4 and maps of mass 5. */
  lemma StaleNormStaysMergeable(univs: seq<SketchBucket>)
    requires |univs| == 3 && univs[0].norm == 1 && univs[1].norm == 5 && univs[2].norm == 4
    ensures var left := SketchPass(univs, 1, 5);
      && |left| == 2 && left[0].norm == 1 && left[1].norm == 4
      && 1 * (left[0].norm + left[1].norm) <= 5 + NormSum(left[2..]) && !SketchTight(left, 1, 5)
  {
    var newest := univs[2..];
    assert newest == [univs[2]] && univs[1..][1..] == newest && newest[1..] == [];
    assert SketchPass(newest, 1, 5) == newest;
    assert NormSum(newest[1..]) == 0;
    var two := SketchPass(univs[1..], 1, 5);
    assert two == [univs[1]] + newest;
    assert two[1..] == newest && NormSum(newest) == 4;
    assert SketchPass(univs, 1, 5) == [MergeSketches(univs[0], univs[1])] + newest;
    assert ([MergeSketches(univs[0], univs[1])] + newest)[2..] == [];
  }

  /** A sketch that was not there before is small against everything newer. */
  ghost predicate SketchDominated(univs: seq<SketchBucket>, before: seq<SketchBucket>, k: int, mass: int) {
    univs != [] ==>
      && (univs[0] in before || k * univs[0].norm <= mass + NormSum(univs[1..]))
      && SketchDominated(univs[1..], before, k, mass)
  }

  lemma {:induction false} DominatedOfMore(univs: seq<SketchBucket>, before: seq<SketchBucket>,
                                           more: seq<SketchBucket>, k: int, mass: int)
    requires SketchDominated(univs, before, k, mass) && forall u :: u in before ==> u in more
    ensures SketchDominated(univs, more, k, mass)
  {
    if univs != [] {
      DominatedOfMore(univs[1..], before, more, k, mass);
    }
  }

  /** Sketches merge only when their norms are small against everything newer. */
  lemma {:induction false} SketchPassIsDominated(univs: seq<SketchBucket>, k: int, mass: int)
    requires k >= 1 && forall p :: 0 <= p < |univs| ==> univs[p].norm >= 0
    ensures SketchDominated(SketchPass(univs, k, mass), univs, k, mass)
    ensures forall p :: 0 <= p < |SketchPass(univs, k, mass)| ==> SketchPass(univs, k, mass)[p].norm >= 0
  {
    if univs != [] {
      SketchPassIsDominated(univs[1..], k, mass);
      var x, rest := univs[0], SketchPass(univs[1..], k, mass);
      DominatedOfMore(rest, univs[1..], univs, k, mass);
      var joined := JoinSketch(x, rest, k, mass);
      if rest != [] && k * (x.norm + rest[0].norm) <= mass + NormSum(rest[1..]) {
        PairGrows(k, rest[0].norm, 0, x.norm);
        assert joined[1..] == rest[1..];
      } else {
        assert joined[1..] == rest;
      }
    }
  }

  // ------------------------------------------------------------------ the stretches behind the sketches

  ghost predicate SizesAre(univs: seq<SketchBucket>, parts: seq<Segment>) {
    |univs| == |parts| && forall p :: 0 <= p < |univs| ==> parts[p] != [] && univs[p].bucketSize == |parts[p]|
  }

  ghost predicate TimesAre(univs: seq<SketchBucket>, parts: seq<Segment>)
    requires SizesAre(univs, parts)
  {
    forall p :: 0 <= p < |univs| ==> Bounded(univs[p], parts[p])
  }

  /** The times of a sketch are those of its first and last sample. */
  ghost predicate Bounded(u: SketchBucket, s: Segment)
    requires s != []
  {
    u.minTime == s[0].time && u.maxTime == s[|s| - 1].time
  }

  /** The stretches after the merge pass. */
  ghost function PassParts(univs: seq<SketchBucket>, parts: seq<Segment>, k: int, mass: int): (r: seq<Segment>)
    requires |univs| == |parts|
    ensures |r| == |SketchPass(univs, k, mass)|
  {
    if univs == [] then []
    else
      var rest, more := SketchPass(univs[1..], k, mass), PassParts(univs[1..], parts[1..], k, mass);
      if rest != [] && k * (univs[0].norm + rest[0].norm) <= mass + NormSum(rest[1..])
      then [parts[0] + more[0]] + more[1..]
      else [parts[0]] + more
  }

  /** Merging keeps every sample in its place, and the sizes. */
  lemma {:induction false} PassKeepsSizes(univs: seq<SketchBucket>, parts: seq<Segment>, k: int, mass: int)
    requires SizesAre(univs, parts)
    ensures SizesAre(SketchPass(univs, k, mass), PassParts(univs, parts, k, mass))
    ensures Concat(PassParts(univs, parts, k, mass)) == Concat(parts)
    ensures parts != [] ==> PassParts(univs, parts, k, mass) != [] && parts[0] <= PassParts(univs, parts, k, mass)[0]
  {
    if univs != [] {
      PassKeepsSizes(univs[1..], parts[1..], k, mass);
      var rest, more := SketchPass(univs[1..], k, mass), PassParts(univs[1..], parts[1..], k, mass);
      if rest != [] && k * (univs[0].norm + rest[0].norm) <= mass + NormSum(rest[1..]) {
        JoinedSizes(univs[0], rest, parts[0], more);
      } else {
        AloneSizes(univs[0], rest, parts[0], more);
      }
    }
  }

  lemma JoinedSizes(u: SketchBucket, rest: seq<SketchBucket>, s: Segment, more: seq<Segment>)
    requires rest != [] && SizesAre(rest, more) && s != [] && u.bucketSize == |s|
    ensures SizesAre([MergeSketches(u, rest[0])] + rest[1..], [s + more[0]] + more[1..])
    ensures Concat([s + more[0]] + more[1..]) == s + Concat(more) && s <= s + more[0]
  {
    AloneSizes(MergeSketches(u, rest[0]), rest[1..], s + more[0], more[1..]);
    assert s + more[0] + Concat(more[1..]) == s + (more[0] + Concat(more[1..]));
  }

  lemma AloneSizes(u: SketchBucket, rest: seq<SketchBucket>, s: Segment, more: seq<Segment>)
    requires SizesAre(rest, more) && s != [] && u.bucketSize == |s|
    ensures SizesAre([u] + rest, [s] + more) && Concat([s] + more) == s + Concat(more)
  {
    assert ([s] + more)[1..] == more;
  }

  /** In a stream of non-decreasing times the merged times are those of the first and the last sample. */
  lemma {:induction false} PassKeepsTimes(univs: seq<SketchBucket>, parts: seq<Segment>, k: int, mass: int)
    requires SizesAre(univs, parts) && TimesAre(univs, parts) && Sorted(Concat(parts))
    ensures SizesAre(SketchPass(univs, k, mass), PassParts(univs, parts, k, mass))
    ensures TimesAre(SketchPass(univs, k, mass), PassParts(univs, parts, k, mass))
  {
    PassKeepsSizes(univs, parts, k, mass);
    if univs != [] {
      TailSorted(Concat(parts), |parts[0]|);
      assert Concat(parts)[|parts[0]|..] == Concat(parts[1..]);
      PassKeepsTimes(univs[1..], parts[1..], k, mass);
      PassKeepsSizes(univs[1..], parts[1..], k, mass);
      var rest, more := SketchPass(univs[1..], k, mass), PassParts(univs[1..], parts[1..], k, mass);
      if rest != [] && k * (univs[0].norm + rest[0].norm) <= mass + NormSum(rest[1..]) {
        assert Concat(parts) == parts[0] + (more[0] + Concat(more[1..]));
        MergedBounds(univs[0], rest[0], parts[0], more[0], Concat(more[1..]));
      }
    }
  }

  lemma MergedBounds(u: SketchBucket, v: SketchBucket, s: Segment, t: Segment, rest: Segment)
    requires s != [] && t != [] && Bounded(u, s) && Bounded(v, t) && Sorted(s + (t + rest))
    ensures Bounded(MergeSketches(u, v), s + t)
  {
    var all := s + (t + rest);
    assert all[0] == s[0] && all[|s|] == t[0] && all[|s| - 1] == s[|s| - 1] && all[|s| + |t| - 1] == t[|t| - 1];
    InTime(all, 0, |s|);
    InTime(all, |s| - 1, |s| + |t| - 1);
  }

  /** Expiry drops only samples before the cutoff, and stops at a sketch that reaches it. */
  lemma {:induction false} ExpiredSketchesAreOld(univs: seq<SketchBucket>, parts: seq<Segment>, cutoff: int)
    requires SizesAre(univs, parts) && TimesAre(univs, parts) && Sorted(Concat(parts))
    ensures var n := ExpiredSketches(univs, cutoff);
      && (forall x :: x in Concat(parts[..n]) ==> x.time < cutoff)
      && (n < |parts| ==> parts[n][|parts[n]| - 1].time >= cutoff)
  {
    if univs != [] && univs[0].maxTime < cutoff {
      TailSorted(Concat(parts), |parts[0]|);
      assert Concat(parts)[|parts[0]|..] == Concat(parts[1..]);
      ExpiredSketchesAreOld(univs[1..], parts[1..], cutoff);
      var n := ExpiredSketches(univs, cutoff);
      assert parts[..n][1..] == parts[1..][..n - 1];
      var first := parts[0];
      assert Bounded(univs[0], first);
      forall x | x in first
        ensures x.time < cutoff
      {
        var i :| 0 <= i < |first| && first[i] == x;
        assert Concat(parts)[i] == x && Concat(parts)[|first| - 1] == first[|first| - 1];
        InTime(Concat(parts), i, |first| - 1);
      }
    } else {
      assert parts[..0] == [];
      assert univs != [] ==> Bounded(univs[0], parts[0]);
    }
  }

  lemma {:induction false} SizesAddUp(univs: seq<SketchBucket>, parts: seq<Segment>)
    requires SizesAre(univs, parts)
    ensures SketchTotal(univs) == |Concat(parts)|
  {
    if univs != [] {
      SizesAddUp(univs[1..], parts[1..]);
    }
  }
}
