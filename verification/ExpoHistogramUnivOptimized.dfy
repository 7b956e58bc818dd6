/**
  The second-moment histogram: internal/promsketch/exponential_univmon_optimized.go.
  Newer buckets are exact frequency maps, merged by a rule on their sums of squares;
  the oldest map turns into a sketch when it has too many distinct values.
*/
module MomentHistogram {
  import opened Numbers
  import opened Stream
  import opened FiniteSums
  import opened MomentSketches
  import opened ExpoRuns

  /** A map bucket; l22 is its sum of squared counts. */
  datatype EHMap = EHMap(maxTime: int, minTime: int, bucketSize: int, l22: int, m: map<real, int>)

  // ------------------------------------------------------------------ frequencies and their energy

  ghost function Freq(s: Segment, v: real): nat {
    if s == [] then 0 else (if s[0].value == v then 1 else 0) + Freq(s[1..], v)
  }

  ghost function Domain(s: Segment): set<real> {
    set p | 0 <= p < |s| :: s[p].value
  }

  ghost function SquaredFreq(s: Segment): real -> int {
    v => Freq(s, v) * Freq(s, v)
  }

  /** The second frequency moment of a run of samples. */
  ghost function Energy(s: Segment): int {
    Sum(Domain(s), SquaredFreq(s))
  }

  lemma {:induction false} FreqPlus(a: Segment, b: Segment, v: real)
    ensures Freq(a + b, v) == Freq(a, v) + Freq(b, v)
  {
    if a == [] {
      assert a + b == b;
    } else {
      FreqPlus(a[1..], b, v);
      assert (a + b)[1..] == a[1..] + b;
    }
  }

  lemma {:induction false} FreqPositive(s: Segment, v: real)
    ensures Freq(s, v) > 0 <==> v in Domain(s)
  {
    if s != [] {
      FreqPositive(s[1..], v);
      assert forall p :: 1 <= p < |s| ==> s[p] == s[1..][p - 1];
      assert v in Domain(s) <==> v == s[0].value || v in Domain(s[1..]);
    }
  }

  lemma DomainPlus(a: Segment, b: Segment)
    ensures Domain(a + b) == Domain(a) + Domain(b)
  {
    forall v
      ensures v in Domain(a + b) <==> v in Domain(a) + Domain(b)
    {
      FreqPositive(a, v);
      FreqPositive(b, v);
      FreqPositive(a + b, v);
      FreqPlus(a, b, v);
    }
  }

  lemma EnergyOver(s: Segment, keys: set<real>)
    requires Domain(s) <= keys
    ensures Energy(s) == Sum(keys, SquaredFreq(s))
  {
    forall v | v in keys && v !in Domain(s)
      ensures SquaredFreq(s)(v) == 0
    {
      FreqPositive(s, v);
    }
    SumSuperset(Domain(s), keys, SquaredFreq(s));
  }

  lemma SquareBounds(x: nat, y: nat)
    ensures x * x + y * y <= (x + y) * (x + y) <= 2 * (x * x + y * y)
  {
    assert (x + y) * (x + y) == x * x + y * y + 2 * (x * y);
    assert (x - y) * (x - y) == x * x + y * y - 2 * (x * y);
    assert (x - y) * (x - y) >= 0;
    assert x * y >= 0;
  }

  ghost function BothSquared(a: Segment, b: Segment): real -> int {
    v => Freq(a, v) * Freq(a, v) + Freq(b, v) * Freq(b, v)
  }

  ghost function TwiceSquared(a: Segment, b: Segment): real -> int {
    v => BothSquared(a, b)(v) + BothSquared(a, b)(v)
  }

  lemma SquareOfMerge(a: Segment, b: Segment, v: real)
    ensures BothSquared(a, b)(v) <= SquaredFreq(a + b)(v) <= TwiceSquared(a, b)(v)
  {
    FreqPlus(a, b, v);
    SquareBounds(Freq(a, v), Freq(b, v));
  }

  lemma EnergySums(a: Segment, b: Segment, keys: set<real>)
    requires Domain(a) <= keys && Domain(b) <= keys
    ensures Sum(keys, BothSquared(a, b)) == Energy(a) + Energy(b)
    ensures Sum(keys, TwiceSquared(a, b)) == 2 * (Energy(a) + Energy(b))
  {
    EnergyOver(a, keys);
    EnergyOver(b, keys);
    SumPlus(keys, SquaredFreq(a), SquaredFreq(b), BothSquared(a, b));
    SumPlus(keys, BothSquared(a, b), BothSquared(a, b), TwiceSquared(a, b));
  }

  /** Merging two buckets at least adds and at most doubles their energies. */
  lemma EnergyOfMerge(a: Segment, b: Segment)
    ensures Energy(a) + Energy(b) <= Energy(a + b) <= 2 * (Energy(a) + Energy(b))
  {
    var keys := Domain(a) + Domain(b);
    DomainPlus(a, b);
    EnergySums(a, b, keys);
    forall v | v in keys
      ensures BothSquared(a, b)(v) <= SquaredFreq(a + b)(v) <= TwiceSquared(a, b)(v)
    {
      SquareOfMerge(a, b, v);
    }
    SumLe(keys, BothSquared(a, b), SquaredFreq(a + b));
    SumLe(keys, SquaredFreq(a + b), TwiceSquared(a, b));
  }

  lemma DomainOfOne(s: Sample)
    ensures Domain([s]) == {s.value}
  {
    forall v
      ensures v in Domain([s]) <==> v in {s.value}
    {
      FreqPositive([s], v);
      FreqOfOne(s, v);
    }
  }

  lemma FreqOfOne(s: Sample, v: real)
    ensures Freq([s], v) == if v == s.value then 1 else 0
  {
    assert [s][1..] == [];
  }

  lemma EnergyOfOne(s: Sample)
    ensures Energy([s]) == 1
  {
    DomainOfOne(s);
    FreqOfOne(s, s.value);
    SumRemove({s.value}, SquaredFreq([s]), s.value);
    assert {s.value} - {s.value} == {};
  }

  lemma EnergyPositive(s: Segment)
    requires s != []
    ensures Energy(s) >= 1
  {
    EnergyOfOne(s[0]);
    EnergyOfMerge([s[0]], s[1..]);
    assert [s[0]] + s[1..] == s;
    EnergyNonNegative(s[1..]);
  }

  lemma EnergyNonNegative(s: Segment)
    ensures Energy(s) >= 0
  {
    var zero := (v: real) => 0;
    SumPlus(Domain(s), zero, zero, zero);
    SumLe(Domain(s), zero, SquaredFreq(s));
  }

  /** Squares of other values do not change. */
  lemma OtherSquares(s: Segment, x: Sample, keys: set<real>)
    requires x.value !in keys
    ensures Sum(keys, SquaredFreq(s)) == Sum(keys, SquaredFreq(s + [x]))
  {
    forall v | v in keys
      ensures SquaredFreq(s)(v) == SquaredFreq(s + [x])(v)
    {
      FreqOfExtension(s, x, v);
    }
    SumEq(keys, SquaredFreq(s), SquaredFreq(s + [x]));
  }

  lemma ExtendedDomain(s: Segment, x: Sample)
    ensures Domain(s + [x]) == Domain(s) + {x.value}
  {
    DomainOfOne(x);
    DomainPlus(s, [x]);
  }

  /** Counting one more occurrence of v changes the energy by 2 * count + 1. */
  lemma EnergyOfExtension(s: Segment, x: Sample)
    ensures Energy(s + [x]) == Energy(s) + 2 * Freq(s, x.value) + 1
  {
    var keys := Domain(s) + {x.value};
    ExtendedDomain(s, x);
    EnergyOver(s, keys);
    SumRemove(keys, SquaredFreq(s), x.value);
    SumRemove(keys, SquaredFreq(s + [x]), x.value);
    OtherSquares(s, x, keys - {x.value});
    OwnSquare(s, x);
  }

  lemma OwnSquare(s: Segment, x: Sample)
    ensures SquaredFreq(s + [x])(x.value) == SquaredFreq(s)(x.value) + 2 * Freq(s, x.value) + 1
  {
    FreqOfExtension(s, x, x.value);
    NextSquare(Freq(s, x.value));
  }

  lemma FreqOfExtension(s: Segment, x: Sample, v: real)
    ensures Freq(s + [x], v) == Freq(s, v) + if v == x.value then 1 else 0
  {
    FreqPlus(s, [x], v);
    FreqOfOne(x, v);
  }

  lemma NextSquare(c: int)
    ensures (c + 1) * (c + 1) == c * c + 2 * c + 1
  {
  }

  // ------------------------------------------------------------------ the merge pass over maps

  /** Total energy of the buckets. */
  ghost function Mass(segments: seq<Segment>): int {
    if segments == [] then 0 else Energy(segments[0]) + Mass(segments[1..])
  }

  /** The pass reaches bucket x, having already settled the newer ones. */
  ghost function Join(x: Segment, rest: seq<Segment>, k: int): seq<Segment> {
    if rest != [] && k * (Energy(x) + Energy(rest[0])) <= Mass(rest[1..])
    then [x + rest[0]] + rest[1..]
    else [x] + rest
  }

  /** The pass goes from newest to oldest; this is its result, oldest bucket first. */
  ghost function Pass(segments: seq<Segment>, k: int): seq<Segment> {
    if segments == [] then [] else Join(segments[0], Pass(segments[1..], k), k)
  }

  lemma PassFrom(segments: seq<Segment>, i: nat, k: int)
    requires i < |segments|
    ensures Pass(segments[i..], k) == Join(segments[i], Pass(segments[i + 1..], k), k)
    ensures Pass([], k) == []
  {
    assert segments[i..][1..] == segments[i + 1..];
  }

  /** No adjacent pair can be merged any more. */
  ghost predicate Tight(segments: seq<Segment>, k: int) {
    |segments| >= 2 ==>
      && k * (Energy(segments[0]) + Energy(segments[1])) > Mass(segments[2..])
      && Tight(segments[1..], k)
  }

  /** Every bucket above the unit size is small against everything newer. */
  ghost predicate Dominated(segments: seq<Segment>, k: int, unit: int) {
    segments != [] ==>
      && (|segments[0]| > unit ==> k * Energy(segments[0]) <= 2 * Mass(segments[1..]))
      && Dominated(segments[1..], k, unit)
  }

  ghost predicate NonEmpty(segments: seq<Segment>) {
    forall p :: 0 <= p < |segments| ==> segments[p] != []
  }

  lemma {:induction false} MassPlus(a: seq<Segment>, b: seq<Segment>)
    ensures Mass(a + b) == Mass(a) + Mass(b)
  {
    if a == [] {
      assert a + b == b;
    } else {
      MassPlus(a[1..], b);
      assert (a + b)[1..] == a[1..] + b;
    }
  }

  lemma {:induction false} MassBound(segments: seq<Segment>)
    requires NonEmpty(segments)
    ensures Mass(segments) >= |segments|
  {
    if segments != [] {
      EnergyPositive(segments[0]);
      MassBound(segments[1..]);
    }
  }

  lemma JoinConserves(x: Segment, rest: seq<Segment>, k: int)
    requires x != [] && NonEmpty(rest)
    ensures NonEmpty(Join(x, rest, k)) && Join(x, rest, k) != [] && |Join(x, rest, k)| <= 1 + |rest|
    ensures Concat(Join(x, rest, k)) == x + Concat(rest)
    ensures Mass(Join(x, rest, k)) >= Energy(x) + Mass(rest)
  {
    assert ([x] + rest)[1..] == rest;
    if rest != [] {
      EnergyOfMerge(x, rest[0]);
      var merged := [x + rest[0]] + rest[1..];
      assert merged[1..] == rest[1..];
      assert Concat(merged) == x + (rest[0] + Concat(rest[1..]));
    }
  }

  /** The pass keeps every sample, in order, and never lowers the total energy. */
  lemma {:induction false} PassConserves(segments: seq<Segment>, k: int)
    requires NonEmpty(segments)
    ensures NonEmpty(Pass(segments, k)) && |Pass(segments, k)| <= |segments|
    ensures segments != [] ==> Pass(segments, k) != []
    ensures Concat(Pass(segments, k)) == Concat(segments)
    ensures Mass(Pass(segments, k)) >= Mass(segments)
  {
    if segments != [] {
      PassConserves(segments[1..], k);
      JoinConserves(segments[0], Pass(segments[1..], k), k);
    }
  }

  lemma PairKept(e0: int, e1: int, merged: int, e2: int, tail: int, k: int)
    requires k >= 1 && e0 >= 0 && merged >= e0 + e1
    requires k * (e1 + e2) > tail
    ensures k * (merged + e2) > tail
  {
    assert k * (merged + e2) >= k * (e1 + e2);
  }

  lemma TightCons(x: Segment, rest: seq<Segment>, k: int)
    requires Tight(rest, k)
    requires rest != [] ==> k * (Energy(x) + Energy(rest[0])) > Mass(rest[1..])
    ensures Tight([x] + rest, k)
  {
    assert ([x] + rest)[1..] == rest;
    assert rest != [] ==> ([x] + rest)[2..] == rest[1..];
  }

  lemma {:induction false} PassIsTight(segments: seq<Segment>, k: int)
    requires k >= 1
    ensures Tight(Pass(segments, k), k)
  {
    if segments != [] {
      PassIsTight(segments[1..], k);
      JoinIsTight(segments[0], Pass(segments[1..], k), k);
    }
  }

  lemma JoinIsTight(x: Segment, rest: seq<Segment>, k: int)
    requires k >= 1 && Tight(rest, k)
    ensures Tight(Join(x, rest, k), k)
  {
    if rest != [] && k * (Energy(x) + Energy(rest[0])) <= Mass(rest[1..]) {
      MergeIsTight(x, rest, k);
    } else {
      TightCons(x, rest, k);
    }
  }

  lemma MergeIsTight(x: Segment, rest: seq<Segment>, k: int)
    requires k >= 1 && rest != [] && Tight(rest, k)
    ensures Tight([x + rest[0]] + rest[1..], k)
  {
    EnergyOfMerge(x, rest[0]);
    EnergyNonNegative(x);
    if |rest| >= 2 {
      assert rest[1..][1..] == rest[2..];
      PairKept(Energy(x), Energy(rest[0]), Energy(x + rest[0]), Energy(rest[1]), Mass(rest[2..]), k);
    }
    TightCons(x + rest[0], rest[1..], k);
  }

  lemma MergedIsDominated(e0: int, e1: int, merged: int, tail: int, k: int)
    requires k >= 1 && merged <= 2 * (e0 + e1) && k * (e0 + e1) <= tail
    ensures k * merged <= 2 * tail
  {
    assert k * merged <= k * (2 * (e0 + e1)) == 2 * (k * (e0 + e1));
  }

  lemma DominatedCons(x: Segment, rest: seq<Segment>, k: int, unit: int)
    requires Dominated(rest, k, unit)
    requires |x| > unit ==> k * Energy(x) <= 2 * Mass(rest)
    ensures Dominated([x] + rest, k, unit)
  {
    assert ([x] + rest)[1..] == rest;
  }

  lemma {:induction false} PassIsDominated(segments: seq<Segment>, k: int, unit: int)
    requires k >= 1 && NonEmpty(segments) && Dominated(segments, k, unit)
    ensures Dominated(Pass(segments, k), k, unit)
  {
    if segments != [] {
      PassIsDominated(segments[1..], k, unit);
      PassConserves(segments[1..], k);
      JoinIsDominated(segments[0], Pass(segments[1..], k), Mass(segments[1..]), k, unit);
    }
  }

  lemma JoinIsDominated(x: Segment, rest: seq<Segment>, mass: int, k: int, unit: int)
    requires k >= 1 && Dominated(rest, k, unit) && mass <= Mass(rest)
    requires |x| > unit ==> k * Energy(x) <= 2 * mass
    ensures Dominated(Join(x, rest, k), k, unit)
  {
    if rest != [] && k * (Energy(x) + Energy(rest[0])) <= Mass(rest[1..]) {
      EnergyOfMerge(x, rest[0]);
      MergedIsDominated(Energy(x), Energy(rest[0]), Energy(x + rest[0]), Mass(rest[1..]), k);
      DominatedCons(x + rest[0], rest[1..], k, unit);
    } else {
      DominatedCons(x, rest, k, unit);
    }
  }

  /** Dropping the oldest buckets keeps both halves of the invariant. */
  lemma {:induction false} SuffixKeeps(segments: seq<Segment>, n: nat, k: int, unit: int)
    requires n <= |segments|
    ensures Tight(segments, k) ==> Tight(segments[n..], k)
    ensures Dominated(segments, k, unit) ==> Dominated(segments[n..], k, unit)
  {
    if n > 0 {
      SuffixKeeps(segments[1..], n - 1, k, unit);
      assert segments[1..][n - 1..] == segments[n..];
    } else {
      assert segments[0..] == segments;
    }
  }

  /** A new bucket at the newest end adds energy behind every older one. */
  lemma {:induction false} AppendKeeps(segments: seq<Segment>, s: Sample, k: int, unit: int)
    requires unit >= 1 && Dominated(segments, k, unit)
    ensures Dominated(segments + [[s]], k, unit)
  {
    if segments == [] {
      assert [] + [[s]] == [[s]];
    } else {
      AppendKeeps(segments[1..], s, k, unit);
      assert (segments + [[s]])[1..] == segments[1..] + [[s]];
      MassPlus(segments[1..], [[s]]);
      EnergyOfOne(s);
      assert Mass([[s]]) == 1;
    }
  }

  /** Likewise when the newest bucket, still below the unit size, absorbs the sample. */
  lemma {:induction false} ExtendKeeps(segments: seq<Segment>, s: Sample, k: int, unit: int)
    requires segments != [] && |segments[|segments| - 1]| < unit && Dominated(segments, k, unit)
    ensures Dominated(Extend(segments, s), k, unit)
    ensures Mass(Extend(segments, s)) >= Mass(segments)
  {
    EnergyOfExtension(segments[|segments| - 1], s);
    var longer := Extend(segments, s);
    if |segments| > 1 {
      ExtendKeeps(segments[1..], s, k, unit);
      assert longer[1..] == Extend(segments[1..], s);
    } else {
      assert longer[1..] == [];
    }
  }

  ghost function Extend(segments: seq<Segment>, s: Sample): seq<Segment>
    requires segments != []
  {
    segments[..|segments| - 1] + [segments[|segments| - 1] + [s]]
  }

  // ------------------------------------------------------------------ logarithmic size

  ghost function Pow(b: int, e: nat): int {
    if e == 0 then 1 else b * Pow(b, e - 1)
  }

  lemma {:induction false} PowPositive(b: int, e: nat)
    requires b >= 1
    ensures Pow(b, e) >= 1
  {
    if e > 0 {
      PowPositive(b, e - 1);
      assert b * Pow(b, e - 1) >= Pow(b, e - 1);
    }
  }

  lemma DecayOnce(e: int, tail: int, all: int, k: int)
    requires all == e + tail && k * e > tail
    ensures (k + 1) * tail <= k * all
  {
    assert k * all == k * e + k * tail;
  }

  lemma DecayStep(p: int, q: int, tail: int, mid: int, all: int, k: int)
    requires p >= 0 && q >= 0 && k >= 1
    requires (k + 1) * tail <= k * all
    requires p * mid <= q * tail
    ensures ((k + 1) * p) * mid <= (k * q) * all
  {
    assert ((k + 1) * p) * mid == (k + 1) * (p * mid);
    assert (k + 1) * (p * mid) <= (k + 1) * (q * tail);
    assert (k + 1) * (q * tail) == q * ((k + 1) * tail);
    assert q * ((k + 1) * tail) <= q * (k * all);
    assert q * (k * all) == (k * q) * all;
  }

  lemma MassOfTwo(segments: seq<Segment>)
    requires |segments| >= 2
    ensures Mass(segments) == Energy(segments[0]) + Energy(segments[1]) + Mass(segments[2..])
  {
    assert segments[1..][1..] == segments[2..];
  }

  /** Two buckets further on, the remaining energy has shrunk by the factor k / (k + 1). */
  lemma {:induction false} EnergyDecays(segments: seq<Segment>, k: int, m: nat)
    requires k >= 1 && NonEmpty(segments) && Tight(segments, k) && 2 * m < |segments|
    ensures Pow(k + 1, m) * Mass(segments[2 * m..]) <= Pow(k, m) * Mass(segments)
  {
    if m == 0 {
      assert segments[0..] == segments;
    } else {
      var tail := segments[2..];
      SuffixKeeps(segments, 2, k, 0);
      EnergyDecays(tail, k, m - 1);
      assert tail[2 * (m - 1)..] == segments[2 * m..];
      FirstDecay(segments, k);
      DecayPowers(k, m, Mass(tail), Mass(segments[2 * m..]), Mass(segments));
    }
  }

  lemma FirstDecay(segments: seq<Segment>, k: int)
    requires k >= 1 && Tight(segments, k) && |segments| >= 2
    ensures (k + 1) * Mass(segments[2..]) <= k * Mass(segments)
  {
    MassOfTwo(segments);
    DecayOnce(Energy(segments[0]) + Energy(segments[1]), Mass(segments[2..]), Mass(segments), k);
  }

  lemma DecayPowers(k: int, m: nat, tail: int, mid: int, all: int)
    requires k >= 1 && m >= 1 && (k + 1) * tail <= k * all
    requires Pow(k + 1, m - 1) * mid <= Pow(k, m - 1) * tail
    ensures Pow(k + 1, m) * mid <= Pow(k, m) * all
  {
    PowPositive(k + 1, m - 1);
    PowPositive(k, m - 1);
    DecayStep(Pow(k + 1, m - 1), Pow(k, m - 1), tail, mid, all, k);
  }

  lemma AtLeastOne(p: int, tail: int, bound: int)
    requires p >= 0 && tail >= 1 && p * tail <= bound
    ensures p <= bound
  {
    assert p * 1 <= p * tail;
  }

  /** Hence logarithmically many buckets: with 2m + 1 of them the total energy is at least ((k + 1) / k)^m. */
  lemma FewMaps(segments: seq<Segment>, k: int, m: nat)
    requires k >= 1 && NonEmpty(segments) && Tight(segments, k) && 2 * m < |segments|
    ensures Pow(k + 1, m) <= Pow(k, m) * Mass(segments)
  {
    EnergyDecays(segments, k, m);
    MassBound(segments[2 * m..]);
    PowPositive(k + 1, m);
    AtLeastOne(Pow(k + 1, m), Mass(segments[2 * m..]), Pow(k, m) * Mass(segments));
  }

  // ------------------------------------------------------------------ one update on the reference form

  /** Length of the prefix of map buckets whose newest sample is before the cutoff. */
  ghost function ExpiredMaps(segments: seq<Segment>, cutoff: int): (n: nat)
    ensures n <= |segments|
  {
    if segments == [] || segments[0] == [] || segments[0][|segments[0]| - 1].time >= cutoff then 0
    else 1 + ExpiredMaps(segments[1..], cutoff)
  }

  lemma {:induction false} ExpiredMapsIs(segments: seq<Segment>, cutoff: int, n: nat)
    requires n <= |segments| && NonEmpty(segments)
    requires forall p :: 0 <= p < n ==> segments[p][|segments[p]| - 1].time < cutoff
    requires n < |segments| ==> segments[n][|segments[n]| - 1].time >= cutoff
    ensures n == ExpiredMaps(segments, cutoff)
  {
    if n > 0 {
      ExpiredMapsIs(segments[1..], cutoff, n - 1);
    }
  }

  /** The newest bucket takes the sample while it is below the unit size; otherwise a new one does. */
  ghost function WithSample(segments: seq<Segment>, s: Sample, unit: int): seq<Segment> {
    if segments != [] && |segments[|segments| - 1]| < unit then Extend(segments, s) else segments + [[s]]
  }

  /** The map buckets after expiry, insertion and the merge pass. */
  ghost function MapsAfter(segments: seq<Segment>, s: Sample, cutoff: int, unit: int, k: int): seq<Segment> {
    Pass(WithSample(segments[ExpiredMaps(segments, cutoff)..], s, unit), k)
  }

  ghost predicate NewestIsShort(segments: seq<Segment>, unit: int) {
    segments != [] ==> |segments[|segments| - 1]| <= unit
  }

  lemma {:induction false} PassKeepsNewest(segments: seq<Segment>, k: int)
    requires k >= 1 && NonEmpty(segments) && segments != []
    ensures Pass(segments, k) != []
    ensures Pass(segments, k)[|Pass(segments, k)| - 1] == segments[|segments| - 1]
  {
    if |segments| > 1 {
      PassKeepsNewest(segments[1..], k);
      PassConserves(segments[1..], k);
      JoinKeepsNewest(segments[0], Pass(segments[1..], k), k);
    }
  }

  /** The newest bucket has nothing newer to be small against, so it is never absorbed. */
  lemma JoinKeepsNewest(x: Segment, rest: seq<Segment>, k: int)
    requires k >= 1 && rest != [] && x != [] && rest[0] != []
    ensures Join(x, rest, k)[|Join(x, rest, k)| - 1] == rest[|rest| - 1]
  {
    EnergyPositive(x);
    EnergyPositive(rest[0]);
    AtLeastOnce(k, Energy(x) + Energy(rest[0]));
  }

  lemma AtLeastOnce(k: int, e: int)
    requires k >= 1 && e >= 1
    ensures k * e >= 1
  {
  }

  /** The two-sided invariant on the map buckets. */
  ghost predicate Balanced(segments: seq<Segment>, k: int, unit: int) {
    NonEmpty(segments) && Tight(segments, k) && Dominated(segments, k, unit) && NewestIsShort(segments, unit)
  }

  lemma ExtendSamples(segments: seq<Segment>, s: Sample)
    requires segments != []
    ensures Concat(Extend(segments, s)) == Concat(segments) + [s]
  {
    var init, last := segments[..|segments| - 1], segments[|segments| - 1];
    assert segments == init + [last];
    ConcatPlus(init, [last]);
    ConcatPlus(init, [last + [s]]);
    ConcatOne(last);
    ConcatOne(last + [s]);
    assert Concat(init) + (last + [s]) == Concat(init) + last + [s];
  }

  /** Before the pass: nothing but tightness is lost by the new sample. */
  lemma FedKeeps(live: seq<Segment>, s: Sample, k: int, unit: int)
    requires unit >= 1 && NonEmpty(live) && Dominated(live, k, unit) && NewestIsShort(live, unit)
    ensures var fed := WithSample(live, s, unit);
      && fed != [] && NonEmpty(fed) && Dominated(fed, k, unit) && NewestIsShort(fed, unit)
      && Concat(fed) == Concat(live) + [s]
  {
    if live != [] && |live[|live| - 1]| < unit {
      ExtendKeeps(live, s, k, unit);
      ExtendSamples(live, s);
    } else {
      AppendKeeps(live, s, k, unit);
      ConcatPlus(live, [[s]]);
      ConcatOne([s]);
    }
  }

  /** One update keeps the two-sided invariant, and every sample that did not expire. */
  lemma MapsAfterIsBalanced(segments: seq<Segment>, s: Sample, cutoff: int, unit: int, k: int)
    requires k >= 1 && unit >= 1 && Balanced(segments, k, unit)
    ensures var after := MapsAfter(segments, s, cutoff, unit, k);
      && after != [] && Balanced(after, k, unit)
      && Concat(after) == Concat(segments[ExpiredMaps(segments, cutoff)..]) + [s]
  {
    var live := segments[ExpiredMaps(segments, cutoff)..];
    SuffixKeeps(segments, ExpiredMaps(segments, cutoff), k, unit);
    var fed := WithSample(live, s, unit);
    FedKeeps(live, s, k, unit);
    PassConserves(fed, k);
    PassIsTight(fed, k);
    PassIsDominated(fed, k, unit);
    PassKeepsNewest(fed, k);
  }

  lemma {:induction false} FewValues(s: Segment)
    ensures |Domain(s)| <= |s|
  {
    if s != [] {
      FewValues(s[1..]);
      DomainOfOne(s[0]);
      DomainPlus([s[0]], s[1..]);
      assert [s[0]] + s[1..] == s;
    } else {
      assert Domain(s) == {};
    }
  }

  /** A bucket large enough to become a sketch is never the newest one. */
  lemma ConvertedIsNotNewest(segments: seq<Segment>, k: int, unit: int)
    requires k >= 1 && segments != [] && Balanced(segments, k, unit) && |Domain(segments[0])| > unit
    ensures |segments| >= 2
  {
    FewValues(segments[0]);
    EnergyPositive(segments[0]);
    assert k * Energy(segments[0]) >= Energy(segments[0]);
    assert segments[1..] != [];
  }

  lemma RestIsBalanced(segments: seq<Segment>, k: int, unit: int)
    requires k >= 1 && segments != [] && Balanced(segments, k, unit) && |Domain(segments[0])| > unit
    ensures |segments| >= 2 && Balanced(segments[1..], k, unit)
  {
    ConvertedIsNotNewest(segments, k, unit);
    SuffixKeeps(segments, 1, k, unit);
  }

  /** The list a backward pass works on at index i: an untouched prefix and what is already settled. */
  lemma AtIndex<T>(all: seq<T>, i: nat, done: seq<T>, merged: T)
    requires i < |all| && done != []
    ensures var now := all[..i + 1] + done;
      && now[i] == all[i] && now[i + 1] == done[0]
      && now == all[..i] + ([all[i]] + done)
      && now[..i] + [merged] + now[i + 2..] == all[..i] + ([merged] + done[1..])
  {
    var now := all[..i + 1] + done;
    assert now[..i] == all[..i];
    assert now[i + 2..] == done[1..];
  }

  // ------------------------------------------------------------------ one update of maps and sketches

  /** Samples in the map buckets and sketches that an update with this cutoff removes. */
  ghost function ExpiredTotal(univs: seq<SketchBucket>, segments: seq<Segment>, cutoff: int): int {
    SketchTotal(univs[..ExpiredSketches(univs, cutoff)]) + |Concat(segments[..ExpiredMaps(segments, cutoff)])|
  }

  /** The total of all sizes is the old one less what expired, plus the new sample. */
  ghost predicate AddsOne(univs: seq<SketchBucket>, segments: seq<Segment>, cutoff: int,
                          us: seq<SketchBucket>, ss: seq<Segment>) {
    SketchTotal(us) + |Concat(ss)| ==
      SketchTotal(univs) + |Concat(segments)| - ExpiredTotal(univs, segments, cutoff) + 1
  }

  /** The new maps and sketches exactly: expiry, insertion and pass, then conversion of a large oldest map. */
  ghost predicate IsUpdate(univs: seq<SketchBucket>, segments: seq<Segment>, s: Sample, cutoff: int, unit: int,
                           limit: int, k: int, norm: map<real, int> -> int,
                           us: seq<SketchBucket>, ss: seq<Segment>) {
    var live := univs[ExpiredSketches(univs, cutoff)..];
    IsConversion(live, MapsAfter(segments, s, cutoff, unit, k), limit, k, norm, us, ss)
  }

  ghost predicate IsConversion(live: seq<SketchBucket>, maps: seq<Segment>, limit: int, k: int,
                               norm: map<real, int> -> int, us: seq<SketchBucket>, ss: seq<Segment>) {
    && maps != [] && maps[0] != []
    && ss == (if Converts(maps, limit) then maps[1..] else maps)
    && us == (if Converts(maps, limit) then SketchesAfter(live, maps, norm, k) else live)
  }

  /** Twice the number of distinct values of the oldest map reaches the limit. */
  ghost predicate Converts(maps: seq<Segment>, maxMapSize: int)
    requires maps != []
  {
    2 * |Domain(maps[0])| >= maxMapSize
  }

  /** The sketch that the oldest map becomes. */
  ghost function Converted(maps: seq<Segment>, norm: map<real, int> -> int): SketchBucket
    requires maps != [] && maps[0] != []
  {
    var b := Summary(maps[0]);
    SketchBucket(b.minTime, b.maxTime, b.bucketSize, norm(b.m))
  }

  ghost function SketchesAfter(live: seq<SketchBucket>, maps: seq<Segment>, norm: map<real, int> -> int,
                               k: int): seq<SketchBucket>
    requires maps != [] && maps[0] != []
  {
    SketchPass(live + [Converted(maps, norm)], k, Mass(maps[1..]))
  }

  /** The stretches behind the sketches after an update. */
  ghost function PartsAfter(univs: seq<SketchBucket>, parts: seq<Segment>, segments: seq<Segment>, s: Sample,
                            cutoff: int, unit: int, limit: int, k: int, norm: map<real, int> -> int): seq<Segment>
    requires |univs| == |parts|
  {
    var n := ExpiredSketches(univs, cutoff);
    var maps := MapsAfter(segments, s, cutoff, unit, k);
    if maps != [] && maps[0] != [] && Converts(maps, limit)
    then PassParts(univs[n..] + [Converted(maps, norm)], parts[n..] + [maps[0]], k, Mass(maps[1..]))
    else parts[n..]
  }

  // ------------------------------------------------------------------ what is still held

  ghost function HeldIn(parts: seq<Segment>, segments: seq<Segment>): seq<Sample> {
    Concat(parts) + Concat(segments)
  }

  /** Sketches and maps together hold the newest samples in order, and what is gone was before some cutoff. */
  ghost predicate Tracks(univs: seq<SketchBucket>, parts: seq<Segment>, segments: seq<Segment>, trace: Trace)
    requires SizesAre(univs, parts)
  {
    && TimesAre(univs, parts) && IsSuffix(HeldIn(parts, segments), Inserted(trace))
    && AllCutOff(trace, HeldIn(parts, segments))
  }

  /** Every sample in front of the held ones was before some cutoff. */
  ghost predicate AllCutOff(trace: Trace, held: seq<Sample>) {
    forall p :: 0 <= p < |Inserted(trace)| - |held| ==> CutOff(trace, Inserted(trace)[p].time)
  }

  /** What of the samples is left when buckets before the cutoff go. */
  ghost function LeftOf(univs: seq<SketchBucket>, parts: seq<Segment>, segments: seq<Segment>, cutoff: int): seq<Sample>
    requires SizesAre(univs, parts)
  {
    HeldIn(parts[ExpiredSketches(univs, cutoff)..], segments[ExpiredMaps(segments, cutoff)..])
  }

  /** Expiry of maps drops only samples before the cutoff, and stops at a map that reaches it. */
  lemma {:induction false} ExpiredMapsAreOld(segments: seq<Segment>, cutoff: int)
    requires NonEmpty(segments) && Sorted(Concat(segments))
    ensures var n := ExpiredMaps(segments, cutoff);
      && (forall x :: x in Concat(segments[..n]) ==> x.time < cutoff)
      && (n < |segments| ==> segments[n][|segments[n]| - 1].time >= cutoff)
  {
    if segments != [] && segments[0][|segments[0]| - 1].time < cutoff {
      var first, all := segments[0], Concat(segments);
      TailSorted(all, |first|);
      assert all[|first|..] == Concat(segments[1..]);
      ExpiredMapsAreOld(segments[1..], cutoff);
      var n := ExpiredMaps(segments, cutoff);
      assert segments[..n][1..] == segments[1..][..n - 1];
      forall x | x in first
        ensures x.time < cutoff
      {
        var i :| 0 <= i < |first| && first[i] == x;
        assert all[i] == x && all[|first| - 1] == first[|first| - 1];
        InTime(all, i, |first| - 1);
      }
    } else {
      assert segments[..0] == [];
    }
  }

  /** While a sketch is left no map expires. */
  lemma SketchesFirst(univs: seq<SketchBucket>, parts: seq<Segment>, segments: seq<Segment>, cutoff: int)
    requires SizesAre(univs, parts) && TimesAre(univs, parts) && NonEmpty(segments) && Sorted(HeldIn(parts, segments))
    requires ExpiredSketches(univs, cutoff) < |parts|
    ensures ExpiredMaps(segments, cutoff) == 0
  {
    var n, older, newer := ExpiredSketches(univs, cutoff), Concat(parts), Concat(segments);
    var held := older + newer;
    SliceSorted(held, 0, |older|);
    assert held[0..|older|] == older;
    ExpiredSketchesAreOld(univs, parts, cutoff);
    if segments != [] {
      BucketInPlace(parts, n);
      var e, last := StartOf(parts, n + 1) - 1, |segments[0]| - 1;
      assert parts[n][|parts[n]| - 1] == older[e] == held[e];
      assert segments[0][last] == newer[last] == held[|older| + last];
      InTime(held, e, |older| + last);
    }
  }

  /** What is left of the held samples is the end of them, and what went was before the cutoff. */
  lemma ExpireHeld(univs: seq<SketchBucket>, parts: seq<Segment>, segments: seq<Segment>, cutoff: int)
    returns (dropped: seq<Sample>)
    requires SizesAre(univs, parts) && TimesAre(univs, parts) && NonEmpty(segments) && Sorted(HeldIn(parts, segments))
    ensures HeldIn(parts, segments) == dropped + LeftOf(univs, parts, segments, cutoff)
    ensures forall x :: x in dropped ==> x.time < cutoff
  {
    var n, e := ExpiredSketches(univs, cutoff), ExpiredMaps(segments, cutoff);
    BothSorted(parts, segments);
    ExpiredSketchesAreOld(univs, parts, cutoff);
    ExpiredMapsAreOld(segments, cutoff);
    if n < |parts| {
      SketchesFirst(univs, parts, segments, cutoff);
    }
    dropped := SplitHeld(parts, segments, n, e);
  }

  lemma BothSorted(parts: seq<Segment>, segments: seq<Segment>)
    requires Sorted(HeldIn(parts, segments))
    ensures Sorted(Concat(parts)) && Sorted(Concat(segments))
  {
    var held, older, newer := HeldIn(parts, segments), Concat(parts), Concat(segments);
    SliceSorted(held, 0, |older|);
    assert held[0..|older|] == older;
    TailSorted(held, |older|);
    assert held[|older|..] == newer;
  }

  lemma SplitHeld(parts: seq<Segment>, segments: seq<Segment>, n: nat, e: nat) returns (dropped: seq<Sample>)
    requires n <= |parts| && e <= |segments| && (n < |parts| ==> e == 0)
    ensures HeldIn(parts, segments) == dropped + HeldIn(parts[n..], segments[e..])
    ensures forall x :: x in dropped ==> x in Concat(parts[..n]) || x in Concat(segments[..e])
  {
    ConcatSplit(parts, n);
    ConcatSplit(segments, e);
    if n < |parts| {
      assert segments[..0] == [];
    } else {
      assert parts[n..] == [];
    }
    dropped := Concat(parts[..n]) + Concat(segments[..e]);
  }

  /** The oldest map joins the live stretches, and the merge pass goes over them. */
  lemma ConvertKeeps(live: seq<SketchBucket>, parts: seq<Segment>, maps: seq<Segment>, norm: map<real, int> -> int,
                     k: int, mass: int)
    requires SizesAre(live, parts) && maps != [] && maps[0] != []
    ensures var us, ps := live + [Converted(maps, norm)], parts + [maps[0]];
      && SizesAre(us, ps) && SizesAre(SketchPass(us, k, mass), PassParts(us, ps, k, mass))
      && HeldIn(PassParts(us, ps, k, mass), maps[1..]) == HeldIn(parts, maps)
  {
    var us, ps := live + [Converted(maps, norm)], parts + [maps[0]];
    PassKeepsSizes(us, ps, k, mass);
    ConcatPlus(parts, [maps[0]]);
    ConcatOne(maps[0]);
    assert Concat(parts) + maps[0] + Concat(maps[1..]) == Concat(parts) + (maps[0] + Concat(maps[1..]));
  }

  lemma ConvertKeepsTimes(live: seq<SketchBucket>, parts: seq<Segment>, maps: seq<Segment>,
                          norm: map<real, int> -> int, k: int, mass: int)
    requires SizesAre(live, parts) && TimesAre(live, parts) && maps != [] && maps[0] != []
    requires Sorted(HeldIn(parts, maps))
    ensures var us, ps := live + [Converted(maps, norm)], parts + [maps[0]];
      && SizesAre(us, ps) && SizesAre(SketchPass(us, k, mass), PassParts(us, ps, k, mass))
      && TimesAre(SketchPass(us, k, mass), PassParts(us, ps, k, mass))
  {
    var us, ps := live + [Converted(maps, norm)], parts + [maps[0]];
    ConcatPlus(parts, [maps[0]]);
    ConcatOne(maps[0]);
    var held, front := HeldIn(parts, maps), Concat(ps);
    assert held == front + Concat(maps[1..]);
    SliceSorted(held, 0, |front|);
    assert held[0..|front|] == front;
    assert Bounded(us[|live|], ps[|live|]);
    assert forall p :: 0 <= p < |live| ==> Bounded(live[p], parts[p]);
    PassKeepsTimes(us, ps, k, mass);
  }

  /** After an update: the held samples are those that did not expire and the new one. */
  lemma HeldAfter(univs: seq<SketchBucket>, parts: seq<Segment>, segments: seq<Segment>, s: Sample, cutoff: int,
                  unit: int, limit: int, k: int, norm: map<real, int> -> int, us: seq<SketchBucket>, ss: seq<Segment>)
    requires k >= 1 && unit >= 1 && Balanced(segments, k, unit) && SizesAre(univs, parts)
    requires IsUpdate(univs, segments, s, cutoff, unit, limit, k, norm, us, ss)
    ensures var ps := PartsAfter(univs, parts, segments, s, cutoff, unit, limit, k, norm);
      var n, e := ExpiredSketches(univs, cutoff), ExpiredMaps(segments, cutoff);
      && n <= |parts| && SizesAre(us, ps) && HeldIn(ps, ss) == HeldIn(parts[n..], segments[e..]) + [s]
  {
    var n, e := ExpiredSketches(univs, cutoff), ExpiredMaps(segments, cutoff);
    var maps := MapsAfter(segments, s, cutoff, unit, k);
    MapsAfterIsBalanced(segments, s, cutoff, unit, k);
    assert HeldIn(parts[n..], maps) == HeldIn(parts[n..], segments[e..]) + [s];
    if Converts(maps, limit) {
      ConvertKeeps(univs[n..], parts[n..], maps, norm, k, Mass(maps[1..]));
    }
  }

  lemma TimesAfter(univs: seq<SketchBucket>, parts: seq<Segment>, segments: seq<Segment>, s: Sample, cutoff: int,
                   unit: int, limit: int, k: int, norm: map<real, int> -> int, us: seq<SketchBucket>, ss: seq<Segment>)
    requires k >= 1 && unit >= 1 && Balanced(segments, k, unit) && SizesAre(univs, parts) && TimesAre(univs, parts)
    requires IsUpdate(univs, segments, s, cutoff, unit, limit, k, norm, us, ss)
    requires ExpiredSketches(univs, cutoff) <= |parts|
    requires Sorted(HeldIn(parts[ExpiredSketches(univs, cutoff)..], segments[ExpiredMaps(segments, cutoff)..]) + [s])
    ensures var ps := PartsAfter(univs, parts, segments, s, cutoff, unit, limit, k, norm);
      SizesAre(us, ps) && TimesAre(us, ps)
  {
    var n, e := ExpiredSketches(univs, cutoff), ExpiredMaps(segments, cutoff);
    var maps := MapsAfter(segments, s, cutoff, unit, k);
    HeldAfter(univs, parts, segments, s, cutoff, unit, limit, k, norm, us, ss);
    MapsAfterIsBalanced(segments, s, cutoff, unit, k);
    assert HeldIn(parts[n..], maps) == HeldIn(parts[n..], segments[e..]) + [s];
    LiveTimes(univs, parts, n);
    if Converts(maps, limit) {
      ConvertKeepsTimes(univs[n..], parts[n..], maps, norm, k, Mass(maps[1..]));
    }
  }

  lemma LiveTimes(univs: seq<SketchBucket>, parts: seq<Segment>, n: nat)
    requires SizesAre(univs, parts) && TimesAre(univs, parts) && n <= |parts|
    ensures SizesAre(univs[n..], parts[n..]) && TimesAre(univs[n..], parts[n..])
  {
    forall p | 0 <= p < |parts| - n
      ensures Bounded(univs[n..][p], parts[n..][p])
    {
      assert Bounded(univs[n + p], parts[n + p]);
    }
  }

  /** One update, seen from the samples: those left and the new one, behind sketches that still fit them. */
  ghost predicate Carries(univs: seq<SketchBucket>, parts: seq<Segment>, segments: seq<Segment>, s: Sample, cutoff: int,
                          us: seq<SketchBucket>, ps: seq<Segment>, ss: seq<Segment>)
    requires SizesAre(univs, parts)
  {
    && SizesAre(us, ps) && HeldIn(ps, ss) == LeftOf(univs, parts, segments, cutoff) + [s]
    && (TimesAre(univs, parts) && Sorted(LeftOf(univs, parts, segments, cutoff) + [s]) ==> TimesAre(us, ps))
  }

  lemma UpdateCarries(univs: seq<SketchBucket>, parts: seq<Segment>, segments: seq<Segment>, s: Sample, cutoff: int,
                      unit: int, limit: int, k: int, norm: map<real, int> -> int, us: seq<SketchBucket>,
                      ss: seq<Segment>)
    requires k >= 1 && unit >= 1 && Balanced(segments, k, unit) && SizesAre(univs, parts)
    requires IsUpdate(univs, segments, s, cutoff, unit, limit, k, norm, us, ss)
    ensures var ps := PartsAfter(univs, parts, segments, s, cutoff, unit, limit, k, norm);
      Carries(univs, parts, segments, s, cutoff, us, ps, ss)
  {
    HeldAfter(univs, parts, segments, s, cutoff, unit, limit, k, norm, us, ss);
    if TimesAre(univs, parts) && Sorted(LeftOf(univs, parts, segments, cutoff) + [s]) {
      TimesAfter(univs, parts, segments, s, cutoff, unit, limit, k, norm, us, ss);
    }
  }

  /** Over a run with non-decreasing times no update loses a sample at or after its cutoff. */
  lemma TrackUpdate(univs: seq<SketchBucket>, parts: seq<Segment>, segments: seq<Segment>, trace: Trace, s: Sample,
                    cutoff: int, us: seq<SketchBucket>, ps: seq<Segment>, ss: seq<Segment>)
    requires SizesAre(univs, parts) && NonEmpty(segments) && Sorted(Inserted(trace) + [s])
    requires Tracks(univs, parts, segments, trace) && cutoff == s.time - WindowOf(trace)
    requires Carries(univs, parts, segments, s, cutoff, us, ps, ss)
    ensures Tracks(us, ps, ss, Then(trace, Insert(s)))
  {
    var dropped := KeptOf(univs, parts, segments, trace, s, cutoff);
    TracksHeld(us, ps, ss, Then(trace, Insert(s)), LeftOf(univs, parts, segments, cutoff) + [s]);
  }

  lemma TracksHeld(univs: seq<SketchBucket>, parts: seq<Segment>, segments: seq<Segment>, trace: Trace,
                   held: seq<Sample>)
    requires SizesAre(univs, parts) && TimesAre(univs, parts) && held == HeldIn(parts, segments)
    requires IsSuffix(held, Inserted(trace)) && AllCutOff(trace, held)
    ensures Tracks(univs, parts, segments, trace)
  {
  }

  lemma KeptOf(univs: seq<SketchBucket>, parts: seq<Segment>, segments: seq<Segment>, trace: Trace, s: Sample,
               cutoff: int) returns (dropped: seq<Sample>)
    requires SizesAre(univs, parts) && NonEmpty(segments) && Tracks(univs, parts, segments, trace)
    requires Sorted(Inserted(trace) + [s]) && cutoff == s.time - WindowOf(trace)
    ensures HeldIn(parts, segments) == dropped + LeftOf(univs, parts, segments, cutoff)
    ensures var kept := LeftOf(univs, parts, segments, cutoff) + [s];
      Sorted(kept) && IsSuffix(kept, Inserted(Then(trace, Insert(s)))) && AllCutOff(Then(trace, Insert(s)), kept)
  {
    var all, kept := Inserted(trace), LeftOf(univs, parts, segments, cutoff);
    PrefixSorted(all, s);
    SuffixSorted(HeldIn(parts, segments), all);
    dropped := ExpireHeld(univs, parts, segments, cutoff);
    SuffixSnoc(dropped, kept, all, s);
    SuffixSorted(kept + [s], all + [s]);
    DroppedAreCutOff(trace, s, dropped, kept);
  }

  lemma DroppedAreCutOff(trace: Trace, s: Sample, dropped: seq<Sample>, kept: seq<Sample>)
    requires IsSuffix(dropped + kept, Inserted(trace))
    requires forall x :: x in dropped ==> x.time < s.time - WindowOf(trace)
    requires AllCutOff(trace, dropped + kept)
    ensures AllCutOff(Then(trace, Insert(s)), kept + [s])
  {
    var all, d := Inserted(trace), |Inserted(trace)| - |dropped + kept|;
    forall p | 0 <= p < |all| - |kept|
      ensures CutOff(Then(trace, Insert(s)), all[p].time)
    {
      if p >= d {
        assert all[p] == all[d..][p - d] == dropped[p - d];
      }
    }
  }

  // ------------------------------------------------------------------ concrete buckets

  ghost function Histogram(s: Segment): map<real, int> {
    map v | v in Domain(s) :: Freq(s, v)
  }

  ghost function Summary(s: Segment): EHMap
    requires s != []
  {
    EHMap(s[|s| - 1].time, s[0].time, |s|, Energy(s), Histogram(s))
  }

  ghost predicate DescribesAt(buckets: seq<EHMap>, segments: seq<Segment>, p: nat)
    requires p < |buckets| == |segments|
  {
    segments[p] != [] && buckets[p] == Summary(segments[p])
  }

  ghost predicate Describes(buckets: seq<EHMap>, segments: seq<Segment>) {
    |buckets| == |segments| && forall p :: 0 <= p < |buckets| ==> DescribesAt(buckets, segments, p)
  }

  ghost function Get(m: map<real, int>, v: real): int {
    if v in m then m[v] else 0
  }

  lemma HistogramGet(s: Segment, v: real)
    ensures Get(Histogram(s), v) == Freq(s, v)
  {
    FreqPositive(s, v);
  }

  lemma HistogramIs(m: map<real, int>, s: Segment)
    requires m.Keys == Domain(s)
    requires forall v :: v in m ==> m[v] == Freq(s, v)
    ensures m == Histogram(s)
  {
  }

  /** Adds the counts of the second map into the first. */
  method MergeMaps(m1: map<real, int>, m2: map<real, int>) returns (m: map<real, int>)
    ensures m.Keys == m1.Keys + m2.Keys
    ensures forall v :: v in m ==> m[v] == Get(m1, v) + Get(m2, v)
  {
    m := m1;
    var todo := m2.Keys;
    while todo != {}
      invariant todo <= m2.Keys
      invariant m.Keys == m1.Keys + (m2.Keys - todo)
      invariant forall v :: v in m1.Keys || v in m2.Keys ==>
        Get(m, v) == Get(m1, v) + if v in todo then 0 else Get(m2, v)
    {
      var v := AnyOf(todo);
      m := m[v := if v !in m then m2[v] else m[v] + m2[v]];
      todo := todo - {v};
    }
  }

  lemma MergedHistogram(m: map<real, int>, a: Segment, b: Segment)
    requires m.Keys == Histogram(a).Keys + Histogram(b).Keys
    requires forall v :: v in m ==> m[v] == Get(Histogram(a), v) + Get(Histogram(b), v)
    ensures m == Histogram(a + b)
  {
    DomainPlus(a, b);
    forall v | v in m
      ensures m[v] == Freq(a + b, v)
    {
      FreqPlus(a, b, v);
      HistogramGet(a, v);
      HistogramGet(b, v);
    }
    HistogramIs(m, a + b);
  }

  /** calc_l22: the sum of squared counts, recomputed from the map. */
  method CalcL22(m: map<real, int>, ghost s: Segment) returns (l2: int)
    requires m == Histogram(s)
    ensures l2 == Energy(s)
  {
    l2 := 0;
    var todo := m.Keys;
    assert todo == Domain(s);
    while todo != {}
      invariant todo <= m.Keys
      invariant l2 + Sum(todo, SquaredFreq(s)) == Energy(s)
    {
      var v := AnyOf(todo);
      SumRemove(todo, SquaredFreq(s), v);
      l2 := l2 + m[v] * m[v];
      todo := todo - {v};
    }
  }

  ghost function FreqOf(s: Segment): real -> int {
    v => Freq(s, v)
  }

  /** The counts of a histogram add up to the number of samples. */
  lemma {:induction false} CountsAddUp(s: Segment, keys: set<real>)
    requires Domain(s) <= keys
    ensures Sum(keys, FreqOf(s)) == |s|
  {
    if s == [] {
      var zero := (v: real) => 0;
      SumPlus(keys, zero, zero, zero);
      SumEq(keys, zero, FreqOf(s));
    } else {
      var one := [s[0]];
      assert one + s[1..] == s;
      DomainPlus(one, s[1..]);
      CountsAddUp(s[1..], keys);
      forall v | v in keys
        ensures FreqOf(s)(v) == FreqOf(one)(v) + FreqOf(s[1..])(v)
      {
        FreqPlus(one, s[1..], v);
      }
      SumPlus(keys, FreqOf(one), FreqOf(s[1..]), FreqOf(s));
      CountOfOne(s[0], keys);
    }
  }

  lemma CountOfOne(x: Sample, keys: set<real>)
    requires x.value in keys
    ensures Sum(keys, FreqOf([x])) == 1
  {
    forall v
      ensures Freq([x], v) == if v == x.value then 1 else 0
    {
      FreqOfOne(x, v);
    }
    SumSuperset({x.value}, keys, FreqOf([x]));
    SumRemove({x.value}, FreqOf([x]), x.value);
    assert {x.value} - {x.value} == {};
  }

  /** A map bucket turned into a sketch: sizes accumulate key by key. */
  method ToSketch(b: EHMap, norm: int, ghost s: Segment) returns (u: SketchBucket)
    requires s != [] && b == Summary(s)
    ensures u == SketchBucket(b.minTime, b.maxTime, |s|, norm)
  {
    var size := 0;
    var todo := b.m.Keys;
    CountsAddUp(s, Domain(s));
    assert todo == Domain(s);
    while todo != {}
      invariant todo <= b.m.Keys
      invariant size + Sum(todo, FreqOf(s)) == |s|
    {
      var v := AnyOf(todo);
      SumRemove(todo, FreqOf(s), v);
      size := size + b.m[v];
      todo := todo - {v};
    }
    u := SketchBucket(b.minTime, b.maxTime, size, norm);
  }

  /**
    Which answer a query gives: an exact map, a new sketch merged from sketches from..to, the live
    sketch of one bucket, a new sketch merged from the sketches on from `from` and every map, or
    none because an index leaves its list. New sketches come with their size.
   */
  datatype Answer =
    | Panic
    | Exact(m: map<real, int>, items: int)
    | FromSketches(from: int, to: int, size: int)
    | Live(bucket: int)
    | FromBoth(from: int, size: int)

  /** The first sketch from p on whose time range contains t, if any. */
  ghost function FirstSketch(univs: seq<SketchBucket>, p: nat, t: int): (r: int)
    requires p <= |univs|
    ensures r == -1 || (p <= r < |univs| && univs[r].minTime <= t <= univs[r].maxTime)
    decreases |univs| - p
  {
    if p == |univs| then -1
    else if univs[p].minTime <= t <= univs[p].maxTime then p
    else FirstSketch(univs, p + 1, t)
  }

  /** The first map bucket from p on whose time range contains t, if any. */
  ghost function FirstSpanning(segments: seq<Segment>, p: nat, t: int): (r: int)
    requires p <= |segments| && NonEmpty(segments)
    ensures r == -1 || (p <= r < |segments| && segments[r][0].time <= t <= segments[r][|segments[r]| - 1].time)
    decreases |segments| - p
  {
    if p == |segments| then -1
    else if segments[p][0].time <= t <= segments[p][|segments[p]| - 1].time then p
    else FirstSpanning(segments, p + 1, t)
  }

  /** Samples of buckets from..to, none when the range is empty. */
  ghost function Between(segments: seq<Segment>, from: int, to: int): Segment
    requires 0 <= from && to < |segments|
  {
    if from <= to then Concat(segments[from..to + 1]) else []
  }

  ghost function ExactFor(segments: seq<Segment>, from: int, to: int): Answer
    requires 0 <= from && to < |segments|
  {
    Exact(Histogram(Between(segments, from, to)), |Between(segments, from, to)|)
  }

  /** The answer from the two places, sketches and maps counted through. */
  ghost function AnswerAt(parts: seq<Segment>, segments: seq<Segment>, from: nat, to: nat): Answer
    requires to < |parts| + |segments|
  {
    var n := |parts|;
    if to < n then
      if from < to then FromSketches(from, to, |Concat(parts[from..to + 1])|)
      else if from < n then Live(from)
      else Panic
    else
      if from < n then FromBoth(from, |Concat(parts[from..])| + |Concat(segments)|)
      else ExactFor(segments, from - n, to - n)
  }

  class ExpoHistogramUnivOptimized {
    var sCount: int
    var mapCount: int
    var univs: seq<SketchBucket>
    var mapBuckets: seq<EHMap>
    var maxMapSize: int
    var minMapSize: int
    var k: int
    var timeWindowSize: int
    /** What cs_l22 of layer 0 returns for a sketch built from a map: decided by the hash functions. */
    const norm: map<real, int> -> int
    /** The samples of each map bucket, of each sketch, and everything that ever happened. */
    ghost var segments: seq<Segment>
    ghost var parts: seq<Segment>
    ghost var trace: Trace

    ghost predicate Valid()
      reads this
    {
      && k >= 1 && minMapSize == 1 && maxMapSize > 2
      && sCount == |univs| && mapCount == |mapBuckets|
      && Describes(mapBuckets, segments)
      && Balanced(segments, k, minMapSize)
      && SizesAre(univs, parts) && timeWindowSize == WindowOf(trace)
      && (Sorted(Inserted(trace)) ==> Tracks(univs, parts, segments, trace))
    }

    constructor (k: int, timeWindowSize: int, norm: map<real, int> -> int)
      requires k >= 1
      ensures Valid() && segments == [] && univs == [] && this.k == k && this.timeWindowSize == timeWindowSize
      ensures maxMapSize == 61440 && trace == Start(timeWindowSize)
    {
      this.k, this.timeWindowSize, this.norm := k, timeWindowSize, norm;
      sCount, mapCount := 0, 0;
      // 8 layers of 3 x 2048 counters and 8 layers of 3 x 512
      maxMapSize := 8 * (3 * 2048) + 8 * (3 * 512);
      minMapSize := 1;
      univs, mapBuckets := [], [];
      segments, parts, trace := [], [], Start(timeWindowSize);
    }

    method UpdateWindow(window: int)
      requires Valid()
      modifies this`timeWindowSize, this`trace
      ensures Valid() && timeWindowSize == window && trace == Then(old(trace), SetWindow(window))
    {
      timeWindowSize := window;
      trace := Then(trace, SetWindow(window));
    }

    ghost function Total(): int
      reads this
    {
      SketchTotal(univs) + |Concat(segments)|
    }

    method Update(time: int, value: real)
      requires Valid()
      modifies this`sCount, this`mapCount, this`univs, this`mapBuckets, this`segments, this`parts, this`trace
      ensures Valid() && mapCount >= 1 && trace == Then(old(trace), Insert(Sample(time, value)))
      ensures IsUpdate(old(univs), old(segments), Sample(time, value), time - old(timeWindowSize), old(minMapSize),
                       old(maxMapSize), old(k), norm, univs, segments)
      ensures AddsOne(old(univs), old(segments), time - old(timeWindowSize), univs, segments)
    {
      var us, ms;
      ghost var ss;
      var s, cutoff, unit, limit := Sample(time, value), time - timeWindowSize, minMapSize, maxMapSize;
      us, ms, ss := Process(univs, mapBuckets, s, cutoff, unit, limit, k, norm, segments);
      StoreUpdate(s, cutoff, us, ms, ss);
    }

    /** The sketches keep holding what they stand for. */
    method StoreUpdate(s: Sample, cutoff: int, us: seq<SketchBucket>, ms: seq<EHMap>, ghost ss: seq<Segment>)
      requires Valid() && cutoff == s.time - timeWindowSize
      requires IsUpdate(univs, segments, s, cutoff, minMapSize, maxMapSize, k, norm, us, ss)
      requires ss != [] && Balanced(ss, k, minMapSize) && Describes(ms, ss)
      modifies this`sCount, this`mapCount, this`univs, this`mapBuckets, this`segments, this`parts, this`trace
      ensures Valid() && mapCount >= 1 && univs == us && segments == ss && trace == Then(old(trace), Insert(s))
    {
      ghost var ps := PartsAfter(univs, parts, segments, s, cutoff, minMapSize, maxMapSize, k, norm);
      StillTracked(s, cutoff, us, ss);
      Store(us, ms, ss, ps, Then(trace, Insert(s)));
    }

    lemma StillTracked(s: Sample, cutoff: int, us: seq<SketchBucket>, ss: seq<Segment>)
      requires Valid() && cutoff == s.time - timeWindowSize
      requires IsUpdate(univs, segments, s, cutoff, minMapSize, maxMapSize, k, norm, us, ss)
      ensures var ps := PartsAfter(univs, parts, segments, s, cutoff, minMapSize, maxMapSize, k, norm);
        SizesAre(us, ps) && (Sorted(Inserted(trace) + [s]) ==> Tracks(us, ps, ss, Then(trace, Insert(s))))
    {
      var ps := PartsAfter(univs, parts, segments, s, cutoff, minMapSize, maxMapSize, k, norm);
      UpdateCarries(univs, parts, segments, s, cutoff, minMapSize, maxMapSize, k, norm, us, ss);
      if Sorted(Inserted(trace) + [s]) {
        PrefixSorted(Inserted(trace), s);
        TrackUpdate(univs, parts, segments, trace, s, cutoff, us, ps, ss);
      }
    }

    method Store(us: seq<SketchBucket>, ms: seq<EHMap>, ghost ss: seq<Segment>, ghost ps: seq<Segment>,
                 ghost run: Trace)
      requires Valid() && ss != [] && Balanced(ss, k, minMapSize) && Describes(ms, ss)
      requires SizesAre(us, ps) && timeWindowSize == WindowOf(run)
      requires Sorted(Inserted(run)) ==> Tracks(us, ps, ss, run)
      modifies this`sCount, this`mapCount, this`univs, this`mapBuckets, this`segments, this`parts, this`trace
      ensures Valid() && mapCount >= 1 && univs == us && segments == ss && parts == ps && trace == run
    {
      univs, mapBuckets, segments, parts, trace := us, ms, ss, ps, run;
      sCount, mapCount := |us|, |ms|;
    }

    /** All held samples: those of the sketches, then those of the maps. */
    ghost function HeldSamples(): seq<Sample>
      reads this
    {
      HeldIn(parts, segments)
    }

    /** With non-decreasing times a sample that is in no sketch and no map was before the cutoff of some update. */
    lemma LostWasCutOff(p: nat)
      requires Valid() && Sorted(Inserted(trace)) && p < |Inserted(trace)|
      ensures IsSuffix(HeldSamples(), Inserted(trace))
      ensures p < |Inserted(trace)| - |HeldSamples()| ==> CutOff(trace, Inserted(trace)[p].time)
    {
    }

    /** With a fixed window that is the window that ends at the newest sample: everything in it is still held. */
    lemma WindowIsHeld(p: nat)
      requires Valid() && Sorted(Inserted(trace)) && FixedWindow(trace) && p < |Inserted(trace)|
      requires Inserted(trace)[p].time >= Inserted(trace)[|Inserted(trace)| - 1].time - timeWindowSize
      ensures IsSuffix(HeldSamples(), Inserted(trace)) && p >= |Inserted(trace)| - |HeldSamples()|
    {
      WindowStays(trace);
      LostWasCutOff(p);
      if p < |Inserted(trace)| - |HeldSamples()| {
        CutOffFixed(trace, Inserted(trace)[p].time);
      }
    }

    static method Process(univs: seq<SketchBucket>, buckets: seq<EHMap>, s: Sample, cutoff: int, unit: int,
                          maxMapSize: int, k: int, norm: map<real, int> -> int, ghost segments: seq<Segment>)
      returns (us: seq<SketchBucket>, ms: seq<EHMap>, ghost ss: seq<Segment>)
      requires k >= 1 && unit >= 1 && maxMapSize > 2 * unit && Describes(buckets, segments) &&
        Balanced(segments, k, unit)
      ensures ss != [] && Balanced(ss, k, unit) && Describes(ms, ss)
      ensures IsUpdate(univs, segments, s, cutoff, unit, maxMapSize, k, norm, us, ss)
      ensures AddsOne(univs, segments, cutoff, us, ss)
    {
      ghost var maps := MapsAfter(segments, s, cutoff, unit, k);
      MapsAfterIsBalanced(segments, s, cutoff, unit, k);
      SplitTotals(univs, ExpiredSketches(univs, cutoff), segments, ExpiredMaps(segments, cutoff));
      us := DropExpiredSketches(univs, cutoff);
      var mass;
      ms, mass := FeedMaps(buckets, s.time, s.value, cutoff, unit, k, segments);
      ss := maps;
      assert DescribesAt(ms, maps, 0);
      assert ms[0].m.Keys == Domain(maps[0]);
      if 2 * |ms[0].m| >= maxMapSize {
        us, ms := ConvertOldest(us, ms, norm(ms[0].m), k, mass, maps);
        RestIsBalanced(maps, k, unit);
        ss := maps[1..];
      }
    }

    static lemma SplitTotals(univs: seq<SketchBucket>, i: nat, segments: seq<Segment>, j: nat)
      requires i <= |univs| && j <= |segments|
      ensures SketchTotal(univs) == SketchTotal(univs[..i]) + SketchTotal(univs[i..])
      ensures |Concat(segments)| == |Concat(segments[..j])| + |Concat(segments[j..])|
    {
      assert univs == univs[..i] + univs[i..];
      SketchTotalPlus(univs[..i], univs[i..]);
      ConcatSplit(segments, j);
    }

    /** The oldest map becomes the newest sketch, and the sketches are merged. */
    static method ConvertOldest(univs: seq<SketchBucket>, buckets: seq<EHMap>, norm: int, k: int, mass: int,
                                ghost maps: seq<Segment>)
      returns (us: seq<SketchBucket>, ms: seq<EHMap>)
      requires k >= 1 && Describes(buckets, maps) && maps != [] && maps[0] != []
      ensures var b := Summary(maps[0]);
        us == SketchPass(univs + [SketchBucket(b.minTime, b.maxTime, b.bucketSize, norm)], k, mass)
      ensures Describes(ms, maps[1..])
      ensures SketchTotal(us) + |Concat(maps[1..])| == SketchTotal(univs) + |Concat(maps)|
    {
      assert DescribesAt(buckets, maps, 0);
      var u := ToSketch(buckets[0], norm, maps[0]);
      us := MergeSketchBuckets(univs + [u], k, mass);
      ms := buckets[1..];
      forall p | 0 <= p < |ms|
        ensures DescribesAt(ms, maps[1..], p)
      {
        assert DescribesAt(buckets, maps, p + 1);
      }
      SketchPassConserves(univs + [u], k, mass);
      SketchTotalPlus(univs, [u]);
      assert SketchTotal([u]) == u.bucketSize + SketchTotal([]);
    }

    /** Expiry, insertion and the merge pass on the map buckets. */
    static method FeedMaps(buckets: seq<EHMap>, time: int, value: real, cutoff: int, unit: int, k: int,
                           ghost segments: seq<Segment>)
      returns (r: seq<EHMap>, mass: int)
      requires k >= 1 && unit >= 1 && Describes(buckets, segments) && Balanced(segments, k, unit)
      ensures var maps := MapsAfter(segments, Sample(time, value), cutoff, unit, k);
        Describes(r, maps) && maps != [] && mass == Mass(maps[1..])
    {
      ghost var kept := segments[ExpiredMaps(segments, cutoff)..];
      r := DropExpiredMaps(buckets, cutoff, segments);
      r := InsertSample(r, time, value, unit, kept);
      r, mass := MergeMapBuckets(r, k, WithSample(kept, Sample(time, value), unit));
    }

    static method DropExpiredSketches(univs: seq<SketchBucket>, cutoff: int) returns (live: seq<SketchBucket>)
      ensures live == univs[ExpiredSketches(univs, cutoff)..]
    {
      var removed := 0;
      while removed < |univs|
        invariant 0 <= removed <= |univs|
        invariant forall p :: 0 <= p < removed ==> univs[p].maxTime < cutoff
      {
        if univs[removed].maxTime < cutoff {
          removed := removed + 1;
        } else {
          break;
        }
      }
      ExpiredSketchesIs(univs, cutoff, removed);
      live := univs[removed..];
    }

    static method DropExpiredMaps(buckets: seq<EHMap>, cutoff: int,
                                  ghost segments: seq<Segment>) returns (live: seq<EHMap>)
      requires Describes(buckets, segments) && NonEmpty(segments)
      ensures Describes(live, segments[ExpiredMaps(segments, cutoff)..])
    {
      var removed := 0;
      while removed < |buckets|
        invariant 0 <= removed <= |buckets|
        invariant forall p :: 0 <= p < removed ==> segments[p][|segments[p]| - 1].time < cutoff
      {
        assert DescribesAt(buckets, segments, removed);
        if buckets[removed].maxTime < cutoff {
          removed := removed + 1;
        } else {
          break;
        }
      }
      assert removed < |buckets| ==> DescribesAt(buckets, segments, removed);
      ExpiredMapsIs(segments, cutoff, removed);
      live := buckets[removed..];
      forall p | 0 <= p < |live|
        ensures DescribesAt(live, segments[removed..], p)
      {
        assert DescribesAt(buckets, segments, removed + p);
      }
    }

    static method InsertSample(buckets: seq<EHMap>, time: int, value: real, unit: int, ghost segments: seq<Segment>)
      returns (r: seq<EHMap>)
      requires Describes(buckets, segments)
      ensures Describes(r, WithSample(segments, Sample(time, value), unit))
    {
      ghost var s := Sample(time, value);
      ghost var n := |buckets|;
      if |buckets| > 0 && buckets[|buckets| - 1].bucketSize < unit {
        assert DescribesAt(buckets, segments, n - 1);
        var b := buckets[|buckets| - 1];
        if value !in b.m {
          b := b.(m := b.m[value := 1], l22 := b.l22 + 1);
        } else {
          b := b.(m := b.m[value := b.m[value] + 1], l22 := b.l22 + 2 * b.m[value] + 1);
        }
        b := b.(maxTime := time, bucketSize := b.bucketSize + 1);
        r := buckets[..|buckets| - 1] + [b];
        ExtendedSummary(segments[n - 1], s);
        assert b == Summary(segments[n - 1] + [s]);
      } else {
        assert n > 0 ==> DescribesAt(buckets, segments, n - 1);
        r := buckets + [EHMap(time, time, 1, 1, map[value := 1])];
        EnergyOfOne(s);
        DomainOfOne(s);
        FreqOfOne(s, value);
        HistogramIs(map[value := 1], [s]);
      }
      ghost var fed := WithSample(segments, s, unit);
      forall p | 0 <= p < |r|
        ensures DescribesAt(r, fed, p)
      {
        assert p < n ==> DescribesAt(buckets, segments, p);
      }
    }

    static lemma ExtendedSummary(t: Segment, s: Sample)
      requires t != []
      ensures var b := Summary(t);
        var m := b.m[s.value := Get(b.m, s.value) + 1];
        Summary(t + [s]) == EHMap(s.time, b.minTime, b.bucketSize + 1, b.l22 + 2 * Get(b.m, s.value) + 1, m)
    {
      var m := Histogram(t)[s.value := Get(Histogram(t), s.value) + 1];
      EnergyOfExtension(t, s);
      HistogramGet(t, s.value);
      DomainOfOne(s);
      DomainPlus(t, [s]);
      forall v | v in m
        ensures m[v] == Freq(t + [s], v)
      {
        FreqOfExtension(t, s, v);
        HistogramGet(t, v);
      }
      HistogramIs(m, t + [s]);
    }

    /** The merge pass over the map buckets; also returns the energy of all but the oldest one. */
    static method MergeMapBuckets(buckets: seq<EHMap>, k: int, ghost segments: seq<Segment>)
      returns (r: seq<EHMap>, mass: int)
      requires k >= 1 && Describes(buckets, segments) && segments != [] && NonEmpty(segments)
      ensures Describes(r, Pass(segments, k))
      ensures Pass(segments, k) != [] && mass == Mass(Pass(segments, k)[1..])
    {
      r, mass := buckets, 0;
      ghost var last := |segments| - 1;
      ghost var done := [segments[last]];
      PassFrom(segments, last, k);
      assert segments[..last] + done == segments;
      var i := |buckets| - 2;
      while i >= 0
        invariant -1 <= i < last
        invariant done == Pass(segments[i + 1..], k) && done != []
        invariant Describes(r, segments[..i + 1] + done)
        invariant mass == Mass(done[1..])
      {
        PassFrom(segments, i, k);
        r, mass, done := MergeStep(r, i, k, mass, segments, done);
        i := i - 1;
      }
      assert segments[0..] == segments && segments[..0] + done == done;
    }

    /** Buckets i and i + 1 become one when their squares are small next to those of newer buckets. */
    static method MergeStep(buckets: seq<EHMap>, i: int, k: int, before: int, ghost segments: seq<Segment>,
                            ghost done: seq<Segment>)
      returns (r: seq<EHMap>, mass: int, ghost after: seq<Segment>)
      requires k >= 1 && 0 <= i < |segments| && done != []
      requires Describes(buckets, segments[..i + 1] + done) && before == Mass(done[1..])
      ensures after == Join(segments[i], done, k) && after != []
      ensures Describes(r, segments[..i] + after) && mass == Mass(after[1..])
    {
      r, mass := buckets, before;
      ghost var x, now := segments[i], segments[..i + 1] + done;
      AtIndex(segments, i, done, x + done[0]);
      assert DescribesAt(r, now, i) && DescribesAt(r, now, i + 1);
      RationalTest(r[i].l22 + r[i + 1].l22, mass, k);
      if (r[i].l22 + r[i + 1].l22) as real <= 1.0 / (k as real) * mass as real {
        r := MergeAdjacent(r, i, now);
        after := [x + done[0]] + done[1..];
      } else {
        mass := mass + r[i + 1].l22;
        after := [x] + done;
      }
    }

    /** The source compares with 1/k times the sum; k is positive, so multiplying out is exact. */
    static lemma RationalTest(pair: int, mass: int, k: int)
      requires k >= 1
      ensures pair as real <= 1.0 / (k as real) * mass as real <==> k * pair <= mass
    {
      var r, d, x, y := 1.0 / (k as real), k as real, pair as real, mass as real;
      assert r * d == 1.0 && d > 0.0;
      assert (k * pair) as real == d * x;
      Scale(x, r * y, d);
      assert d * (r * y) == (r * d) * y == y;
    }

    static lemma Scale(a: real, b: real, d: real)
      requires d > 0.0
      ensures a <= b <==> d * a <= d * b
    {
    }

    static method MergeAdjacent(buckets: seq<EHMap>, i: int, ghost segments: seq<Segment>) returns (r: seq<EHMap>)
      requires 0 <= i < |buckets| - 1 && Describes(buckets, segments)
      ensures Describes(r, segments[..i] + [segments[i] + segments[i + 1]] + segments[i + 2..])
    {
      assert DescribesAt(buckets, segments, i) && DescribesAt(buckets, segments, i + 1);
      ghost var a, b := segments[i], segments[i + 1];
      var older, newer := buckets[i], buckets[i + 1];
      var m := MergeMaps(older.m, newer.m);
      MergedHistogram(m, a, b);
      var l22 := CalcL22(m, a + b);
      var merged := EHMap(newer.maxTime, older.minTime, older.bucketSize + newer.bucketSize, l22, m);
      r := buckets[..i] + [merged] + buckets[i + 2..];
      ghost var after := segments[..i] + [a + b] + segments[i + 2..];
      forall p | 0 <= p < |after|
        ensures DescribesAt(r, after, p)
      {
        assert p < i ==> DescribesAt(buckets, segments, p);
        assert p > i ==> DescribesAt(buckets, segments, p + 1);
      }
    }

    static method MergeSketchBuckets(univs: seq<SketchBucket>, k: int, mass: int) returns (r: seq<SketchBucket>)
      requires k >= 1 && univs != []
      ensures r == SketchPass(univs, k, mass)
    {
      r := univs;
      var sum := mass;
      ghost var last := |univs| - 1;
      ghost var done := [univs[last]];
      SketchPassFrom(univs, last, k, mass);
      assert univs[..last] + done == univs;
      var i := |univs| - 2;
      while i >= 0
        invariant -1 <= i < last
        invariant done == SketchPass(univs[i + 1..], k, mass) && done != []
        invariant r == univs[..i + 1] + done
        invariant sum == mass + NormSum(done[1..])
      {
        ghost var x := univs[i];
        SketchPassFrom(univs, i, k, mass);
        AtIndex(univs, i, done, MergeSketches(x, done[0]));
        RationalTest(r[i].norm + r[i + 1].norm, sum, k);
        if (r[i].norm + r[i + 1].norm) as real <= 1.0 / (k as real) * sum as real {
          var minTime, maxTime := Min(r[i].minTime, r[i + 1].minTime), Max(r[i].maxTime, r[i + 1].maxTime);
          var merged := SketchBucket(minTime, maxTime, r[i].bucketSize + r[i + 1].bucketSize, r[i].norm);
          r := r[..i] + [merged] + r[i + 2..];
          done := [MergeSketches(x, done[0])] + done[1..];
        } else {
          sum := sum + r[i + 1].norm;
          done := [x] + done;
        }
        i := i - 1;
      }
      assert univs[0..] == univs;
    }

    method GetTotalBucketSizes() returns (total: int)
      requires Valid()
      ensures total == Total()
    {
      total := 0;
      var i := 0;
      while i < sCount
        invariant 0 <= i <= sCount && total == SketchTotal(univs[..i])
      {
        assert univs[..i + 1] == univs[..i] + [univs[i]];
        SketchTotalPlus(univs[..i], [univs[i]]);
        total := total + univs[i].bucketSize;
        i := i + 1;
      }
      assert univs[..sCount] == univs;
      i := 0;
      while i < mapCount
        invariant 0 <= i <= mapCount && total == SketchTotal(univs) + |Concat(segments[..i])|
      {
        assert DescribesAt(mapBuckets, segments, i);
        assert segments[..i + 1] == segments[..i] + [segments[i]];
        ConcatPlus(segments[..i], [segments[i]]);
        ConcatOne(segments[i]);
        total := total + mapBuckets[i].bucketSize;
        i := i + 1;
      }
      assert segments[..mapCount] == segments;
    }

    ghost predicate RoundsUp(p: nat, t: int)
      requires p < |segments| && NonEmpty(segments)
      reads this
    {
      var s := segments[p];
      Abs(t - s[0].time) > Abs(t - s[|s| - 1].time)
    }

    /** Time of the newest sample. */
    ghost function NewestTime(): int
      requires NonEmpty(segments) && segments != []
      reads this
    {
      var newest := segments[|segments| - 1];
      newest[|newest| - 1].time
    }

    /** The interval starts in a map bucket and ends in one, or after the newest one. */
    ghost predicate InMaps(t1: int, t2: int)
      requires NonEmpty(segments) && segments != [] && sCount == |univs|
      reads this
    {
      && FirstSpanning(segments, 0, t1) >= 0
      && (FirstSpanning(segments, 0, t2) >= 0 || t2 > NewestTime())
      && (sCount > 0 ==> t1 >= univs[0].minTime)
    }

    ghost function FromMap(t1: int): int
      requires NonEmpty(segments) && FirstSpanning(segments, 0, t1) >= 0
      reads this
    {
      var p := FirstSpanning(segments, 0, t1);
      p + if RoundsUp(p, t1) then 1 else 0
    }

    ghost function ToMap(t2: int): (to: int)
      requires NonEmpty(segments) && segments != []
      reads this
      ensures to < |segments|
    {
      if t2 > NewestTime() then |segments| - 1 else FirstSpanning(segments, 0, t2)
    }

    /** Sketches and maps, counted through: where a time is looked up, the first bucket when nowhere. */
    ghost function PlaceOf(t: int): nat
      requires NonEmpty(segments) && sCount == |univs|
      reads this
    {
      var p := FirstSpanning(segments, 0, t);
      if p >= 0 then sCount + p else Max(FirstSketch(univs, 0, t), 0)
    }

    /** The last map after the newest sample. */
    ghost function EndAt(t2: int): nat
      requires NonEmpty(segments) && segments != [] && sCount == |univs|
      reads this
    {
      if t2 > NewestTime() then sCount + |segments| - 1 else PlaceOf(t2)
    }

    ghost function StartPlace(t1: int): (p: nat)
      requires NonEmpty(segments) && segments != [] && sCount == |univs|
      reads this
      ensures p < sCount + |segments|
    {
      if sCount > 0 && t1 < univs[0].minTime then 0 else PlaceOf(t1)
    }

    /** The start is moved to the next bucket when it is nearer to the end of its own. */
    ghost function StartAt(t1: int): nat
      requires NonEmpty(segments) && segments != [] && sCount == |univs|
      reads this
    {
      var p := StartPlace(t1);
      p + if NearerToEnd(p, t1) then 1 else 0
    }

    ghost predicate NearerToEnd(p: nat, t: int)
      requires NonEmpty(segments) && sCount == |univs| && p < sCount + |segments|
      reads this
    {
      if p < sCount then Abs(t - univs[p].minTime) > Abs(t - univs[p].maxTime) else RoundsUp(p - sCount, t)
    }

    /** The end is looked up among the sketches, the start past them. */
    ghost predicate OutOfRange(t1: int, t2: int)
      requires NonEmpty(segments) && segments != [] && sCount == |univs|
      reads this
    {
      EndAt(t2) < sCount <= StartAt(t1)
    }

    /**
      It panics exactly when there is no map bucket to look at, or when the end lies among the
      sketches and the start past them: the live sketch is then read off beyond the list.
     */
    method QueryIntervalMergeUniv(t1: int, t2: int) returns (a: Answer)
      requires Valid()
      ensures a.Panic? <==> mapCount == 0 || OutOfRange(t1, t2)
      ensures mapCount >= 1 ==>
        && StartAt(t1) < sCount + mapCount
        && a == AnswerAt(parts, segments, StartAt(t1), EndAt(t2))
    {
      if mapCount == 0 {
        return Panic;
      }
      var from := ChooseFrom(t1);
      var to := ChooseTo(t2);
      a := AnswerBetween(from, to);
    }

    method AnswerBetween(from: int, to: int) returns (a: Answer)
      requires Valid() && 0 <= from < sCount + mapCount && 0 <= to < sCount + mapCount
      ensures a == AnswerAt(parts, segments, from, to)
    {
      if to < sCount {
        if from < to {
          var size := SumSizes(from, to);
          a := FromSketches(from, to, size);
        } else if from < |univs| {
          a := Live(from);
        } else {
          a := Panic;
        }
      } else if from >= sCount {
        a := CollectMaps(from - sCount, to - sCount);
      } else {
        var size := SumSizes(from, sCount - 1);
        var all := CollectMaps(0, mapCount - 1);
        AllTogether(parts, segments, from);
        a := FromBoth(from, size + all.items);
      }
    }

    static lemma AllTogether(parts: seq<Segment>, segments: seq<Segment>, from: nat)
      requires from < |parts| && segments != []
      ensures parts[from..|parts|] == parts[from..] && Between(segments, 0, |segments| - 1) == Concat(segments)
    {
      assert segments[0..|segments|] == segments;
    }

    /** The sizes of sketches from..to. */
    method SumSizes(from: int, to: int) returns (size: int)
      requires SizesAre(univs, parts) && 0 <= from <= to < |univs|
      ensures size == |Concat(parts[from..to + 1])|
    {
      size := 0;
      var i := from;
      assert univs[from..from] == [];
      while i <= to
        invariant from <= i <= to + 1 && size == SketchTotal(univs[from..i])
      {
        assert univs[from..i + 1] == univs[from..i] + [univs[i]];
        SketchTotalPlus(univs[from..i], [univs[i]]);
        size := size + univs[i].bucketSize;
        i := i + 1;
      }
      SizesAddUp(univs[from..to + 1], parts[from..to + 1]);
    }

    /** An interval within the maps is answered exactly for the chosen buckets. */
    lemma WithinMaps(t1: int, t2: int)
      requires NonEmpty(segments) && segments != [] && sCount == |univs| == |parts| && InMaps(t1, t2)
      ensures AnswerAt(parts, segments, StartAt(t1), EndAt(t2)) == ExactFor(segments, FromMap(t1), ToMap(t2))
    {
      assert StartPlace(t1) == sCount + FirstSpanning(segments, 0, t1);
      assert StartAt(t1) == sCount + FromMap(t1);
      assert EndAt(t2) == sCount + ToMap(t2);
    }

    /** A single newest sample starts and ends at the same time, so rounding up stops before it. */
    lemma NewestIsPoint()
      requires Valid() && mapCount >= 1
      ensures |segments[mapCount - 1]| == 1
    {
      assert DescribesAt(mapBuckets, segments, mapCount - 1);
    }

    method ChooseFrom(t1: int) returns (from: int)
      requires Valid() && mapCount >= 1
      ensures 0 <= from < sCount + mapCount && from == StartAt(t1)
    {
      from := FindStart(t1);
      var up := IsNearerToEnd(from, t1);
      if up {
        from := from + 1;
      }
    }

    method FindStart(t1: int) returns (from: int)
      requires Valid() && mapCount >= 1
      ensures from == StartPlace(t1) && |segments| == mapCount
    {
      from := FindSketch(t1);
      var p := FindMap(t1);
      if p >= 0 {
        from := p + sCount;
      }
      if sCount > 0 && t1 < univs[0].minTime {
        from := 0;
      }
    }

    method IsNearerToEnd(p: int, t: int) returns (up: bool)
      requires Valid() && mapCount >= 1 && 0 <= p < sCount + mapCount
      ensures up == NearerToEnd(p, t) && (up ==> p + 1 < sCount + mapCount)
    {
      NewestIsPoint();
      if p < sCount {
        up := Abs(t - univs[p].minTime) > Abs(t - univs[p].maxTime);
      } else {
        assert DescribesAt(mapBuckets, segments, p - sCount);
        up := Abs(t - mapBuckets[p - sCount].minTime) > Abs(t - mapBuckets[p - sCount].maxTime);
      }
    }

    method ChooseTo(t2: int) returns (to: int)
      requires Valid() && mapCount >= 1
      ensures 0 <= to < sCount + mapCount && to == EndAt(t2)
    {
      to := FindSketch(t2);
      var q := FindMap(t2);
      if q >= 0 {
        to := q + sCount;
      }
      assert DescribesAt(mapBuckets, segments, mapCount - 1);
      if t2 > mapBuckets[mapCount - 1].maxTime {
        to := mapCount - 1 + sCount;
      }
    }

    method FindSketch(t: int) returns (p: int)
      ensures p == Max(FirstSketch(univs, 0, t), 0)
    {
      p := 0;
      var i := 0;
      while i < |univs|
        invariant 0 <= i <= |univs| && p == 0
        invariant FirstSketch(univs, 0, t) == FirstSketch(univs, i, t)
      {
        if t >= univs[i].minTime && t <= univs[i].maxTime {
          p := i;
          break;
        }
        i := i + 1;
      }
    }

    method FindMap(t: int) returns (p: int)
      requires Valid()
      ensures p == FirstSpanning(segments, 0, t)
    {
      p := -1;
      var i := 0;
      while i < mapCount
        invariant 0 <= i <= mapCount && p == -1
        invariant FirstSpanning(segments, 0, t) == FirstSpanning(segments, i, t)
      {
        assert DescribesAt(mapBuckets, segments, i);
        if t >= mapBuckets[i].minTime && t <= mapBuckets[i].maxTime {
          p := i;
          break;
        }
        i := i + 1;
      }
    }

    /** One more bucket's counts and size. */
    static method AddMap(m: map<real, int>, items: int, b: EHMap, ghost s: Segment, ghost t: Segment)
      returns (grown: map<real, int>, total: int)
      requires m == Histogram(s) && items == |s| && t != [] && b == Summary(t)
      ensures grown == Histogram(s + t) && total == |s + t|
    {
      grown := MergeMaps(m, b.m);
      MergedHistogram(grown, s, t);
      total := items + b.bucketSize;
    }

    /** Adds up the maps of buckets from..to. */
    method CollectMaps(from: int, to: int) returns (a: Answer)
      requires Valid() && 0 <= from < mapCount && 0 <= to < mapCount
      ensures a == ExactFor(segments, from, to)
    {
      var m: map<real, int> := map[];
      var items := 0;
      var i := from;
      ghost var s: Segment := [];
      HistogramIs(m, s);
      while i <= to
        invariant from <= i && (from <= to ==> i <= to + 1) && (to < from ==> i == from)
        invariant s == Between(segments, from, i - 1) && m == Histogram(s) && items == |s|
      {
        assert DescribesAt(mapBuckets, segments, i);
        BetweenStep(segments, from, i);
        m, items := AddMap(m, items, mapBuckets[i], s, segments[i]);
        s := s + segments[i];
        i := i + 1;
      }
      a := Exact(m, items);
    }

    static lemma BetweenStep(segments: seq<Segment>, from: nat, i: nat)
      requires from <= i < |segments|
      ensures Between(segments, from, i) == Between(segments, from, i - 1) + segments[i]
    {
      ConcatOne(segments[i]);
      if from < i {
        assert segments[from..i + 1] == segments[from..i] + [segments[i]];
        ConcatPlus(segments[from..i], [segments[i]]);
      } else {
        assert segments[i..i + 1] == [segments[i]];
      }
    }

    /** The number of map buckets is logarithmic in the total energy. */
    lemma MapCountIsLogarithmic(m: nat)
      requires Valid() && 2 * m < mapCount
      ensures Pow(k + 1, m) * Mass(segments[2 * m..]) <= Pow(k, m) * Mass(segments)
      ensures Pow(k + 1, m) <= Pow(k, m) * Mass(segments)
    {
      EnergyDecays(segments, k, m);
      FewMaps(segments, k, m);
    }
  }
}
