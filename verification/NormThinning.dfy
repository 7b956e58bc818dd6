/**
  Thinning the bucket list by norms, and what it leaves: the loop of
  SmoothHistogramUnivMon.Update in internal/promsketch/SmoothHistogram.go.
 */
module NormThinning {
  import opened SketchContent
  import opened SketchPools
  import opened SmoothBuckets

  type Norm = Content -> real

  /** The norm of every bucket, oldest first. */
  ghost function Norms(l2: Norm, slots: seq<Content>, univs: seq<Bucket>): seq<real> {
    seq(|univs|, i requires 0 <= i < |univs| => if univs[i].poolIdx < |slots| then l2(slots[univs[i].poolIdx]) else 0.0)
  }

  function CompareValue(beta: real, older: real): real {
    (1.0 - 0.5 * beta) * older
  }

  predicate Close(beta: real, older: real, newer: real) {
    newer >= CompareValue(beta, older)
  }

  predicate AdjacentAt(was: seq<nat>, p: int, a: nat, b: nat) {
    0 <= p < |was| - 1 && was[p] == a && was[p + 1] == b
  }

  ghost predicate Neighbours(was: seq<nat>, a: nat, b: nat) {
    exists p :: AdjacentAt(was, p, a, b)
  }

  /** Buckets q and q + 1 were neighbours before, or the newer one is close in norm to the older one. */
  ghost predicate PairOk(beta: real, was: seq<nat>, starts: seq<nat>, norms: seq<real>, q: nat)
    requires q + 1 < |norms| == |starts|
  {
    Neighbours(was, starts[q], starts[q + 1]) || Close(beta, norms[q], norms[q + 1])
  }

  predicate AtLeast(norms: seq<real>, i: int, j: int) {
    0 <= i <= j < |norms| ==> norms[i] >= norms[j]
  }

  ghost predicate NonIncreasing(norms: seq<real>) {
    forall i, j :: AtLeast(norms, i, j)
  }

  /** Where the scan over buckets close to bucket i stops; the two newest buckets are never reached. */
  ghost function Furthest(beta: real, norms: seq<real>, i: nat, j: nat): (r: nat)
    requires i < |norms| && i + 2 <= j
    ensures j - 1 <= r && (r > j - 1 ==> r <= |norms| - 3 && Close(beta, norms[i], norms[r]))
    ensures r + 1 <= |norms| - 3 ==> !Close(beta, norms[i], norms[r + 1])
    decreases |norms| - j
  {
    if j <= |norms| - 3 && Close(beta, norms[i], norms[j]) then Furthest(beta, norms, i, j + 1) else j - 1
  }

  /** What thinning from bucket i on keeps of a list that goes with the norms. */
  ghost function Survivors<T>(beta: real, norms: seq<real>, list: seq<T>, i: nat): (kept: seq<T>)
    requires |list| == |norms|
    decreases |norms| - i
  {
    if i > |norms| - 3 then list
    else
      var m := Furthest(beta, norms, i, i + 2);
      Survivors(beta, Without(norms, i + 1, m), Without(list, i + 1, m), i + 1)
  }

  lemma StepKeeps<T>(beta: real, norms: seq<real>, list: seq<T>, i: nat)
    requires |list| == |norms| && i <= |norms| - 3
    ensures var m := Furthest(beta, norms, i, i + 2);
      Survivors(beta, Without(norms, i + 1, m), Without(list, i + 1, m), i + 1) == Survivors(beta, norms, list, i)
  {
  }

  /** Thinning from bucket j on keeps of the second lists what thinning from bucket i on keeps of the first ones. */
  ghost predicate SameSurvivors<S, T>(beta: real, was: seq<real>, a: seq<S>, b: seq<T>, i: nat,
                                      now: seq<real>, c: seq<S>, d: seq<T>, j: nat) {
    && |a| == |b| == |was| && |c| == |d| == |now|
    && Survivors(beta, now, now, j) == Survivors(beta, was, was, i)
    && Survivors(beta, now, c, j) == Survivors(beta, was, a, i)
    && Survivors(beta, now, d, j) == Survivors(beta, was, b, i)
  }

  lemma StepSurvives<S, T>(beta: real, was: seq<real>, a: seq<S>, b: seq<T>, i: nat,
                           now: seq<real>, c: seq<S>, d: seq<T>, m: nat)
    requires |a| == |b| == |was| && i <= |was| - 3 && m == Furthest(beta, was, i, i + 2)
    requires now == Without(was, i + 1, m) && c == Without(a, i + 1, m) && d == Without(b, i + 1, m)
    ensures SameSurvivors(beta, was, a, b, i, now, c, d, i + 1)
  {
    StepKeeps(beta, was, was, i);
    StepKeeps(beta, was, a, i);
    StepKeeps(beta, was, b, i);
  }

  /** The first i + 1 are kept, and so are the two after them that the next step starts from. */
  lemma {:induction false} PrefixStays<T>(beta: real, norms: seq<real>, list: seq<T>, i: nat)
    requires |list| == |norms|
    ensures |Survivors(beta, norms, list, i)| <= |list|
    ensures i <= |list| - 3 ==> |Survivors(beta, norms, list, i)| >= i + 3
    ensures forall k :: 0 <= k <= i && k < |list| ==>
      k < |Survivors(beta, norms, list, i)| && Survivors(beta, norms, list, i)[k] == list[k]
    decreases |norms| - i
  {
    if i <= |norms| - 3 {
      var m := Furthest(beta, norms, i, i + 2);
      PrefixStays(beta, Without(norms, i + 1, m), Without(list, i + 1, m), i + 1);
    }
  }

  /** The step at bucket i + 1 drops buckets and ends at one that bucket i is close to again. */
  ghost predicate ReboundAt(beta: real, norms: seq<real>, i: nat) {
    i + 1 <= |norms| - 3 &&
    var m := Furthest(beta, norms, i + 1, i + 3);
    m > i + 2 && Close(beta, norms[i], norms[m])
  }

  /** Some step from i + 1 on does so. */
  ghost predicate Rebounds(beta: real, norms: seq<real>, i: nat)
    decreases |norms| - i
  {
    i <= |norms| - 3 &&
    var ns := Without(norms, i + 1, Furthest(beta, norms, i, i + 2));
    ReboundAt(beta, ns, i) || Rebounds(beta, ns, i + 1)
  }

  predicate Drops(beta: real, norms: seq<real>, q: int) {
    0 <= q && q + 2 <= |norms| - 3 ==> !Close(beta, norms[q], norms[q + 2])
  }

  /** The norm drops by the factor over any two steps, the three newest buckets aside. */
  ghost predicate Thin(beta: real, norms: seq<real>, n: int) {
    forall q :: 0 <= q < n ==> Drops(beta, norms, q)
  }

  /** On this run a sketch of a later suffix weighs at most what one of an earlier suffix weighs. */
  ghost predicate SuffixesShrink(add: Weights, l2: Norm, h: seq<Event>, p: int, q: int) {
    0 <= p <= q <= |h| ==>
      forall a, b :: Absorbed(add, a, h[p..]) && Absorbed(add, b, h[q..]) ==> l2(b) <= l2(a)
  }

  ghost predicate MonotoneNorm(add: Weights, l2: Norm, h: seq<Event>) {
    forall p, q :: SuffixesShrink(add, l2, h, p, q)
  }

  /** The norms that belong to these starts on this run. */
  ghost predicate NormsOf(add: Weights, l2: Norm, history: seq<Event>, starts: seq<nat>, norms: seq<real>) {
    |norms| == |starts| && forall i :: 0 <= i < |norms| ==> NormAt(add, l2, history, starts[i], norms[i])
  }

  ghost predicate NormAt(add: Weights, l2: Norm, history: seq<Event>, start: nat, norm: real) {
    start <= |history| && exists s :: Absorbed(add, s, history[start..]) && norm == l2(s)
  }

  lemma NormsBelong(add: Weights, l2: Norm, slots: seq<Content>, univs: seq<Bucket>, starts: seq<nat>,
                    history: seq<Event>)
    requires |univs| == |starts| && BucketsAre(add, slots, univs, starts, history)
    ensures NormsOf(add, l2, history, starts, Norms(l2, slots, univs))
  {
    forall i | 0 <= i < |univs|
      ensures NormAt(add, l2, history, starts[i], Norms(l2, slots, univs)[i])
    {
      assert BucketIs(add, slots, univs, starts, history, i);
    }
  }

  lemma NormsDescend(add: Weights, l2: Norm, slots: seq<Content>, univs: seq<Bucket>, starts: seq<nat>,
                     history: seq<Event>)
    requires |univs| == |starts| && BucketsAre(add, slots, univs, starts, history) && Increasing(starts)
    requires MonotoneNorm(add, l2, history)
    ensures NonIncreasing(Norms(l2, slots, univs))
  {
    forall i, j | 0 <= i <= j < |univs|
      ensures AtLeast(Norms(l2, slots, univs), i, j)
    {
      assert InOrder(starts, i, j);
      assert BucketIs(add, slots, univs, starts, history, i) && BucketIs(add, slots, univs, starts, history, j);
      assert SuffixesShrink(add, l2, history, starts[i], starts[j]);
    }
  }

  lemma NormsWithout(l2: Norm, slots: seq<Content>, after: seq<Content>, univs: seq<Bucket>, from: int, to: int)
    requires 0 <= from <= to <= |univs| && Untouched(Slots(Without(univs, from, to)), slots, after)
    ensures Norms(l2, after, Without(univs, from, to)) == Without(Norms(l2, slots, univs), from, to)
  {
    var us := Without(univs, from, to);
    forall i | 0 <= i < |us|
      ensures Norms(l2, after, us)[i] == Without(Norms(l2, slots, univs), from, to)[i]
    {
      assert us[i].poolIdx in Slots(us);
      assert us[i] == univs[if i < from then i else i + (to - from)];
    }
  }

  /** How far thinning has come: pairs up to bucket i are settled, the rest is as it was from p on. */
  ghost predicate Thinning(beta: real, was: seq<nat>, starts: seq<nat>, norms: seq<real>, i: int, p: int) {
    && |norms| == |starts| && 0 <= i <= |starts| && i <= p <= |was| && starts[i..] == was[p..]
    && (starts == [] <==> was == [])
    && (starts != [] ==> i < |starts| && starts[0] == was[0])
    && AllPairsOk(beta, was, starts, norms, i)
  }

  /** What holds of the buckets after thinning, `was` being where buckets started before. */
  ghost predicate Settled(beta: real, was: seq<nat>, descending: bool, starts: seq<nat>, norms: seq<real>) {
    && |norms| == |starts| && AllPairsOk(beta, was, starts, norms, |norms|)
    && (descending ==> Thin(beta, norms, |norms|))
    && (starts != [] ==> was != [] && starts[|starts| - 1] == was[|was| - 1])
  }

  ghost predicate AllPairsOk(beta: real, was: seq<nat>, starts: seq<nat>, norms: seq<real>, n: int)
    requires |norms| == |starts|
  {
    forall q :: 0 <= q < n && q < |norms| - 1 ==> PairOk(beta, was, starts, norms, q)
  }

  /** One thinning step at bucket i settles the pair (i, i + 1) and leaves the earlier pairs settled. */
  lemma PairsKept(beta: real, was: seq<nat>, starts: seq<nat>, norms: seq<real>, i: nat, maxj: nat, p: nat)
    requires |norms| == |starts| && i < maxj < |norms| && p <= |was| && starts[i..] == was[p..]
    requires maxj > i + 1 ==> Close(beta, norms[i], norms[maxj])
    requires AllPairsOk(beta, was, starts, norms, i)
    ensures var ns, ss := Without(norms, i + 1, maxj), Without(starts, i + 1, maxj);
      && AllPairsOk(beta, was, ss, ns, i + 1)
      && p + (maxj - i) <= |was| && ss[i + 1..] == was[p + (maxj - i)..]
  {
    var ns, ss := Without(norms, i + 1, maxj), Without(starts, i + 1, maxj);
    assert ss[i + 1..] == starts[maxj..] == starts[i..][maxj - i..];
    assert ns[i] == norms[i] && ns[i + 1] == norms[maxj];
    assert starts[i] == starts[i..][0] == was[p] && starts[i + 1] == starts[i..][1] == was[p + 1];
    assert AdjacentAt(was, p, starts[i], starts[i + 1]);
    forall q | 0 <= q <= i
      ensures PairOk(beta, was, ss, ns, q)
    {
      assert q < i ==> PairOk(beta, was, starts, norms, q);
    }
  }

  lemma ThinningStep(beta: real, was: seq<nat>, starts: seq<nat>, norms: seq<real>, i: int, maxj: int, p: int)
    requires Thinning(beta, was, starts, norms, i, p) && i < maxj < |norms|
    requires maxj > i + 1 ==> Close(beta, norms[i], norms[maxj])
    ensures Thinning(beta, was, Without(starts, i + 1, maxj), Without(norms, i + 1, maxj), i + 1, p + (maxj - i))
  {
    PairsKept(beta, was, starts, norms, i, maxj, p);
  }

  /** The same step, seen from the lists it leaves. */
  lemma StepIs<S>(beta: real, was: seq<nat>, norms: seq<real>, us: seq<S>, ss: seq<nat>, i: nat, maxj: int, p: int,
                  now: seq<real>, us2: seq<S>, ss2: seq<nat>)
    requires Thinning(beta, was, ss, norms, i, p) && |us| == |norms| && i <= |norms| - 3
    requires maxj == Furthest(beta, norms, i, i + 2)
    requires now == Without(norms, i + 1, maxj) && us2 == Without(us, i + 1, maxj) && ss2 == Without(ss, i + 1, maxj)
    ensures Thinning(beta, was, ss2, now, i + 1, p + (maxj - i))
    ensures SameSurvivors(beta, norms, us, ss, i, now, us2, ss2, i + 1)
  {
    ThinningStep(beta, was, ss, norms, i, maxj, p);
    StepSurvives(beta, norms, us, ss, i, now, us2, ss2, maxj);
  }

  lemma ThinningEnd(beta: real, was: seq<nat>, descending: bool, starts: seq<nat>, norms: seq<real>, i: int, p: int)
    requires Thinning(beta, was, starts, norms, i, p) && i > |starts| - 3
    requires descending ==> Thin(beta, norms, |norms|)
    ensures Settled(beta, was, descending, starts, norms)
    ensures (starts == [] <==> was == []) && (starts != [] ==> starts[0] == was[0])
  {
    forall q | i <= q < |norms| - 1
      ensures PairOk(beta, was, starts, norms, q)
    {
      assert starts[q] == starts[i..][q - i] == was[p + (q - i)];
      assert starts[q + 1] == starts[i..][q + 1 - i] == was[p + (q - i) + 1];
      assert AdjacentAt(was, p + (q - i), starts[q], starts[q + 1]);
    }
    assert i < |starts| ==> starts[|starts| - 1] == starts[i..][|starts| - 1 - i];
  }

  // ------------------------------------------------------------------ when the kept norms drop

  /** The pair (i, i + 2) of the kept list, bucket i + 1 being the next to thin from. */
  lemma DropsUnlessRebound(beta: real, norms: seq<real>, i: nat)
    requires i < |norms|
    requires i + 2 <= |norms| - 3 ==> !Close(beta, norms[i], norms[i + 2])
    ensures Drops(beta, Survivors(beta, norms, norms, i + 1), i) <==> !ReboundAt(beta, norms, i)
  {
    PrefixStays(beta, norms, norms, i + 1);
    if i + 1 <= |norms| - 3 {
      var m := Furthest(beta, norms, i + 1, i + 3);
      var ns := Without(norms, i + 2, m);
      PrefixStays(beta, ns, ns, i + 2);
      assert ns[i + 2] == norms[m] && ns[i] == norms[i];
      assert m == i + 2 ==> ns == norms;
    }
  }

  predicate DropsFrom(beta: real, norms: seq<real>, i: int, q: int) {
    i <= q < |norms| ==> Drops(beta, norms, q)
  }

  ghost predicate ThinBeyond(beta: real, norms: seq<real>, i: nat) {
    forall q :: DropsFrom(beta, norms, i, q)
  }

  lemma OneMoreDrops(beta: real, norms: seq<real>, i: nat)
    requires i < |norms|
    ensures ThinBeyond(beta, norms, i) <==> Drops(beta, norms, i) && ThinBeyond(beta, norms, i + 1)
  {
    var next := i + 1;
    assert DropsFrom(beta, norms, i, i) <==> Drops(beta, norms, i);
    if ThinBeyond(beta, norms, i) {
      forall q
        ensures DropsFrom(beta, norms, next, q)
      {
        assert DropsFrom(beta, norms, i, q);
      }
    }
    if Drops(beta, norms, i) && ThinBeyond(beta, norms, next) {
      forall q
        ensures DropsFrom(beta, norms, i, q)
      {
        assert DropsFrom(beta, norms, next, q);
      }
    }
  }

  lemma {:induction false} ThinFrom(beta: real, norms: seq<real>, i: nat)
    ensures ThinBeyond(beta, Survivors(beta, norms, norms, i), i) <==> !Rebounds(beta, norms, i)
    decreases |norms| - i
  {
    if i <= |norms| - 3 {
      var ns := Without(norms, i + 1, Furthest(beta, norms, i, i + 2));
      var kept := Survivors(beta, norms, norms, i);
      DropsUnlessRebound(beta, ns, i);
      ThinFrom(beta, ns, i + 1);
      PrefixStays(beta, norms, norms, i);
      OneMoreDrops(beta, kept, i);
    }
  }

  /**
    For any norms at all: the kept list drops by the factor over any two steps if and only if no
    step ends at a bucket that is close again to the one before the step's own.
   */
  lemma ThinIff(beta: real, norms: seq<real>)
    ensures var kept := Survivors(beta, norms, norms, 0);
      Thin(beta, kept, |kept|) <==> !Rebounds(beta, norms, 0)
  {
    var kept := Survivors(beta, norms, norms, 0);
    ThinFrom(beta, norms, 0);
    assert forall q :: 0 <= q < |kept| ==> (Drops(beta, kept, q) <==> DropsFrom(beta, kept, 0, q));
  }

  /** With these norms dropping the third bucket makes the fourth, which rebounds, follow the second. */
  lemma ReboundIsKept(beta: real, norms: seq<real>)
    requires beta == 0.5 && norms == [4.0, 3.0, 2.0, 3.0, 2.0, 1.0]
    ensures Survivors(beta, norms, norms, 0) == [4.0, 3.0, 3.0, 2.0, 1.0] && Rebounds(beta, norms, 0)
  {
    var ns := [4.0, 3.0, 3.0, 2.0, 1.0];
    assert Furthest(beta, norms, 0, 2) == 1 && Furthest(beta, norms, 1, 3) == 3 && Furthest(beta, ns, 2, 4) == 3;
    assert Without(norms, 1, 1) == norms && Without(norms, 2, 3) == ns && Without(ns, 3, 3) == ns;
    StepKeeps(beta, norms, norms, 0);
    StepKeeps(beta, norms, norms, 1);
    StepKeeps(beta, ns, ns, 2);
    assert Survivors(beta, ns, ns, 3) == ns;
    assert ReboundAt(beta, norms, 0);
  }

  lemma StillFalls(norms: seq<real>, from: int, to: int)
    requires NonIncreasing(norms) && 0 <= from <= to <= |norms|
    ensures NonIncreasing(Without(norms, from, to))
  {
    var gap := to - from;
    forall j, k
      ensures AtLeast(Without(norms, from, to), j, k)
    {
      assert AtLeast(norms, if j < from then j else j + gap, if k < from then k else k + gap);
    }
  }

  /** Norms that never rise never rebound. */
  lemma {:induction false} FallingNeverRebounds(beta: real, norms: seq<real>, i: nat)
    requires NonIncreasing(norms)
    ensures !Rebounds(beta, norms, i)
    decreases |norms| - i
  {
    if i <= |norms| - 3 {
      var m := Furthest(beta, norms, i, i + 2);
      var ns := Without(norms, i + 1, m);
      StillFalls(norms, i + 1, m);
      FallingNeverRebounds(beta, ns, i + 1);
      if i + 1 <= |ns| - 3 {
        var k := Furthest(beta, ns, i + 1, i + 3);
        assert AtLeast(ns, i + 2, k);
      }
    }
  }

  lemma StaysSettled(beta: real, was: seq<nat>, descending: bool, starts: seq<nat>, norms: seq<real>, n: nat)
    requires n <= |norms| && Settled(beta, was, descending, starts, norms)
    ensures Settled(beta, was, descending, starts[n..], norms[n..])
  {
    forall q | 0 <= q < |norms| - n - 1
      ensures PairOk(beta, was, starts[n..], norms[n..], q)
    {
      assert PairOk(beta, was, starts, norms, n + q);
    }
    forall q | descending && 0 <= q < |norms| - n
      ensures Drops(beta, norms[n..], q)
    {
      assert Drops(beta, norms, n + q);
    }
  }

  function Power(c: real, m: nat): real {
    if m == 0 then 1.0 else c * Power(c, m - 1)
  }

  /** Geometric decay, hence logarithmically many buckets in the ratio of largest to smallest norm. */
  lemma {:induction false} NormsDecay(beta: real, norms: seq<real>, m: nat)
    requires 0.0 <= beta <= 2.0 && Thin(beta, norms, |norms|) && 2 * m <= |norms| - 3
    ensures norms[2 * m] <= Power(1.0 - 0.5 * beta, m) * norms[0]
  {
    if m > 0 {
      NormsDecay(beta, norms, m - 1);
      var c := 1.0 - 0.5 * beta;
      var older := norms[2 * m - 2];
      assert Drops(beta, norms, 2 * m - 2);
      Scaled(c, older, Power(c, m - 1) * norms[0]);
      assert c * (Power(c, m - 1) * norms[0]) == Power(c, m) * norms[0];
    }
  }

  lemma Scaled(c: real, x: real, y: real)
    requires 0.0 <= c && x <= y
    ensures c * x <= c * y
  {
  }
}
