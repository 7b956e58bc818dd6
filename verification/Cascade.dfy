/**
  The shape shared by every exponential histogram of the repository.

  The reference form keeps the buckets grouped by level: level j holds the buckets of
  2^j samples, oldest first. Adding a bucket is then the increment of a numeral whose
  digits are the level lengths. The source instead keeps one flat list, oldest first,
  and runs one backward pass over it, which is the subject of module CascadePass.
*/
module Cascade {
  import opened Numbers
  import opened Stream

  /** Lowest level first; inside a level, oldest bucket first. */
  datatype Levels = Empty | Level(low: seq<Segment>, above: Levels)

  ghost predicate IsPow2(n: nat) {
    exists e: nat :: Pow2(e) == n
  }

  /** The run length at which two buckets are merged: ceil(k / 2) + 2. */
  function Threshold(k: int): (t: int)
    requires k >= 1
    ensures t >= 3
    ensures k <= 2 * (t - 2) <= k + 1
  {
    (k + 1) / 2 + 2
  }

  ghost function Depth(levels: Levels): nat {
    match levels
    case Empty => 0
    case Level(_, above) => 1 + Depth(above)
  }

  /** The flat list, oldest bucket first. */
  ghost function Flatten(levels: Levels): seq<Segment> {
    match levels
    case Empty => []
    case Level(low, above) => Flatten(above) + low
  }

  /** The samples still held, in stream order. */
  ghost function Held(levels: Levels): seq<Sample> {
    Concat(Flatten(levels))
  }

  /** Add a bucket at the lowest level; a level that becomes full carries its two oldest buckets. */
  ghost function Add(levels: Levels, x: Segment, k: int): Levels
    requires k >= 1
  {
    match levels
    case Empty => Level([x], Empty)
    case Level(low, above) =>
      if |low| + 1 < Threshold(k) then Level(low + [x], above)
      else Level(low[2..] + [x], Add(above, low[0] + low[1], k))
  }

  /** The n oldest buckets removed. */
  ghost function DropOldest(levels: Levels, n: nat): Levels
    requires n <= |Flatten(levels)|
  {
    match levels
    case Empty => Empty
    case Level(low, above) =>
      var height := |Flatten(above)|;
      if n < height then Level(low, DropOldest(above, n))
      else if n < height + |low| then Level(low[n - height..], Empty)
      else Empty
  }

  ghost predicate AllOfSize(buckets: seq<Segment>, size: nat) {
    forall p :: 0 <= p < |buckets| ==> |buckets[p]| == size
  }

  /**
    Canonical shape: every bucket of level j has 2^j samples, every level below the top one
    has Threshold - 2 or Threshold - 1 buckets, the top one between 1 and Threshold - 1.
   */
  ghost predicate Canonical(levels: Levels, k: int, j: nat)
    requires k >= 1
  {
    match levels
    case Empty => true
    case Level(low, above) =>
      && (if above == Empty then 1 else Threshold(k) - 2) <= |low| <= Threshold(k) - 1
      && AllOfSize(low, Pow2(j))
      && Canonical(above, k, j + 1)
  }

  // ------------------------------------------------------------------ the increment

  lemma {:induction false} AddIsCanonical(levels: Levels, x: Segment, k: int, j: nat)
    requires k >= 1 && Canonical(levels, k, j) && |x| == Pow2(j)
    ensures Canonical(Add(levels, x, k), k, j)
    ensures Add(levels, x, k) != Empty
  {
    match levels
    case Empty =>
    case Level(low, above) =>
      if |low| + 1 >= Threshold(k) {
        AddIsCanonical(above, low[0] + low[1], k, j + 1);
      }
  }

  lemma ConcatSnoc(low: seq<Segment>, x: Segment)
    ensures Concat(low + [x]) == Concat(low) + x
  {
    ConcatPlus(low, [x]);
    ConcatOne(x);
  }

  lemma ConcatTwo(low: seq<Segment>)
    requires |low| >= 2
    ensures Concat(low) == low[0] + low[1] + Concat(low[2..])
  {
    assert low[1..][1..] == low[2..];
    assert low[0] + (low[1] + Concat(low[2..])) == low[0] + low[1] + Concat(low[2..]);
  }

  lemma PlusAssoc<T>(a: seq<T>, b: seq<T>, c: seq<T>)
    ensures a + (b + c) == a + b + c
  {
  }

  lemma {:induction false} AddKeepsSamples(levels: Levels, x: Segment, k: int)
    requires k >= 1
    ensures Held(Add(levels, x, k)) == Held(levels) + x
  {
    match levels
    case Empty =>
      ConcatSnoc([], x);
    case Level(low, above) =>
      ConcatPlus(Flatten(above), low);
      if |low| + 1 < Threshold(k) {
        ConcatPlus(Flatten(above), low + [x]);
        ConcatSnoc(low, x);
        PlusAssoc(Held(above), Concat(low), x);
      } else {
        var m, rest := low[0] + low[1], low[2..];
        AddKeepsSamples(above, m, k);
        ConcatPlus(Flatten(Add(above, m, k)), rest + [x]);
        ConcatSnoc(rest, x);
        ConcatTwo(low);
        assert Held(Add(levels, x, k)) == (Held(above) + m) + (Concat(rest) + x);
        PlusAssoc(Held(above) + m, Concat(rest), x);
        PlusAssoc(Held(above), m, Concat(rest));
      }
  }

  /** The oldest bucket never shrinks when a bucket is added. */
  lemma {:induction false} AddGrowsOldest(levels: Levels, x: Segment, k: int, j: nat)
    requires k >= 1 && Canonical(levels, k, j)
    ensures Flatten(Add(levels, x, k)) != []
    ensures levels != Empty ==> Flatten(levels) != [] && |Flatten(Add(levels, x, k))[0]| >= |Flatten(levels)[0]|
    ensures levels == Empty ==> Flatten(Add(levels, x, k)) == [x]
  {
    match levels
    case Empty =>
    case Level(low, above) =>
      if |low| + 1 >= Threshold(k) {
        AddGrowsOldest(above, low[0] + low[1], k, j + 1);
      }
  }

  lemma {:induction false} DropIsCanonical(levels: Levels, n: nat, k: int, j: nat)
    requires k >= 1 && Canonical(levels, k, j) && n <= |Flatten(levels)|
    ensures Canonical(DropOldest(levels, n), k, j)
    ensures Flatten(DropOldest(levels, n)) == Flatten(levels)[n..]
  {
    match levels
    case Empty =>
    case Level(low, above) =>
      if n < |Flatten(above)| {
        DropIsCanonical(above, n, k, j + 1);
      }
  }

  lemma {:induction false} DropNone(levels: Levels, k: int, j: nat)
    requires k >= 1 && Canonical(levels, k, j)
    ensures DropOldest(levels, 0) == levels
  {
    if levels.Level? {
      FlattenEmpty(levels.above, k, j + 1);
      DropNone(levels.above, k, j + 1);
      assert levels.low[0..] == levels.low;
    }
  }

  // ------------------------------------------------------------------ what the shape implies

  lemma FlattenEmpty(levels: Levels, k: int, j: nat)
    requires k >= 1 && Canonical(levels, k, j)
    ensures Flatten(levels) == [] <==> levels == Empty
  {
  }

  ghost function HowMany(buckets: seq<Segment>, size: nat): nat {
    if buckets == [] then 0 else (if |buckets[0]| == size then 1 else 0) + HowMany(buckets[1..], size)
  }

  lemma {:induction false} HowManyPlus(a: seq<Segment>, b: seq<Segment>, size: nat)
    ensures HowMany(a + b, size) == HowMany(a, size) + HowMany(b, size)
  {
    if a == [] {
      assert a + b == b;
    } else {
      HowManyPlus(a[1..], b, size);
      assert (a + b)[1..] == a[1..] + b;
    }
  }

  lemma {:induction false} HowManyUniform(buckets: seq<Segment>, unit: nat, size: nat)
    requires AllOfSize(buckets, unit)
    ensures HowMany(buckets, size) == if unit == size then |buckets| else 0
  {
    if buckets != [] {
      HowManyUniform(buckets[1..], unit, size);
    }
  }

  lemma {:induction false} Pow2Injective(a: nat, b: nat)
    ensures Pow2(a) == Pow2(b) <==> a == b
    ensures a < b ==> Pow2(a) < Pow2(b)
  {
    if a > 0 && b > 0 {
      Pow2Injective(a - 1, b - 1);
    }
  }

  /**
    The flat list by sizes: 2^e occurs Threshold - 2 or Threshold - 1 times below the largest
    size, the largest size between 1 and Threshold - 1 times, anything else not at all.
   */
  lemma {:induction false} SizeCounts(levels: Levels, k: int, j: nat, e: nat)
    requires k >= 1 && Canonical(levels, k, j)
    ensures var n, top := HowMany(Flatten(levels), Pow2(e)), j + Depth(levels) - 1;
      && (j <= e < top ==> Threshold(k) - 2 <= n <= Threshold(k) - 1)
      && (j <= e == top ==> 1 <= n <= Threshold(k) - 1)
      && (e < j || top < e ==> n == 0)
  {
    match levels
    case Empty =>
    case Level(low, above) =>
      SizeCounts(above, k, j + 1, e);
      HowManyPlus(Flatten(above), low, Pow2(e));
      HowManyUniform(low, Pow2(j), Pow2(e));
      Pow2Injective(j, e);
  }

  /** The newest bucket is always one of level j. */
  lemma NewestIsUnit(levels: Levels, k: int, j: nat)
    requires k >= 1 && levels != Empty && Canonical(levels, k, j)
    ensures Flatten(levels) != []
    ensures |Flatten(levels)[|Flatten(levels)| - 1]| == Pow2(j)
  {
  }

  /** Sizes are powers of two, at least 1, that do not increase from oldest to newest. */
  lemma {:induction false} SizesDescend(levels: Levels, k: int, j: nat)
    requires k >= 1 && Canonical(levels, k, j)
    ensures forall p :: 0 <= p < |Flatten(levels)| ==> |Flatten(levels)[p]| >= Pow2(j) && IsPow2(|Flatten(levels)[p]|)
    ensures forall p, q :: 0 <= p < q < |Flatten(levels)| ==> |Flatten(levels)[p]| >= |Flatten(levels)[q]|
  {
    match levels
    case Empty =>
    case Level(low, above) =>
      SizesDescend(above, k, j + 1);
  }

  lemma AllNonEmpty(levels: Levels, k: int)
    requires k >= 1 && Canonical(levels, k, 0)
    ensures forall p :: 0 <= p < |Flatten(levels)| ==> |Flatten(levels)[p]| >= 1
  {
    SizesDescend(levels, k, 0);
  }
}
