/** What the canonical shape says in numbers: the oldest bucket is small, the buckets are few. */
module CascadeBounds {
  import opened Numbers
  import opened Stream
  import opened Cascade

  lemma MulMono(a: int, b: int, c: nat)
    requires a <= b
    ensures a * c <= b * c
  {
  }

  /** n times u, by repeated addition. */
  ghost function Times(n: nat, u: nat): nat {
    if n == 0 then 0 else Times(n - 1, u) + u
  }

  lemma {:induction false} TimesIsProduct(n: nat, u: nat)
    ensures Times(n, u) == n * u
  {
    if n > 0 {
      TimesIsProduct(n - 1, u);
      assert n * u == (n - 1) * u + u;
    }
  }

  lemma {:induction false} EqualSizes(parts: seq<Segment>, size: nat)
    requires AllOfSize(parts, size)
    ensures |Concat(parts)| == Times(|parts|, size)
  {
    if parts != [] {
      EqualSizes(parts[1..], size);
    }
  }

  lemma LevelOutweighs(top: int, held: int, count: int, unit: nat, k: int)
    requires k <= 2 * count
    requires k * (top - 2 * unit) <= 2 * (held - top)
    ensures k * (top - unit) <= 2 * (held + count * unit - top)
  {
    MulMono(k, 2 * count, unit);
    assert k * (top - unit) == k * (top - 2 * unit) + k * unit;
    assert (2 * count) * unit == 2 * (count * unit);
  }

  lemma TopOutweighs(top: int, count: int, unit: nat, k: int)
    requires top == unit && 1 <= count
    ensures k * (top - unit) <= 2 * (count * unit - top)
  {
    MulMono(1, count, unit);
    assert k * 0 == 0;
  }

  /** The oldest bucket is at most a 2/k fraction of everything newer, up to one unit bucket. */
  lemma {:induction false} OldestIsSmall(levels: Levels, k: int, j: nat)
    requires k >= 1 && levels != Empty && Canonical(levels, k, j)
    ensures Flatten(levels) != []
    ensures |Flatten(levels)[0]| == Pow2(j + Depth(levels) - 1)
    ensures k * (|Flatten(levels)[0]| - Pow2(j)) <= 2 * (|Held(levels)| - |Flatten(levels)[0]|)
  {
    var Level(low, above) := levels;
    ConcatPlus(Flatten(above), low);
    EqualSizes(low, Pow2(j));
    TimesIsProduct(|low|, Pow2(j));
    if above == Empty {
      TopOutweighs(|low[0]|, |low|, Pow2(j), k);
    } else {
      OldestIsSmall(above, k, j + 1);
      LevelOutweighs(|Flatten(above)[0]|, |Held(above)|, |low|, Pow2(j), k);
    }
  }

  /** Logarithmic number of buckets: at most Threshold - 1 per level, and 2^(levels - 1) samples. */
  lemma {:induction false} FewBuckets(levels: Levels, k: int, j: nat)
    requires k >= 1 && Canonical(levels, k, j)
    ensures |Flatten(levels)| <= (Threshold(k) - 1) * Depth(levels)
    ensures levels != Empty ==> Pow2(j + Depth(levels) - 1) <= |Held(levels)|
  {
    match levels
    case Empty =>
    case Level(low, above) =>
      FewBuckets(above, k, j + 1);
      OneMoreLevel(Threshold(k) - 1, Depth(above), |Flatten(above)|, |low|);
      OldestIsHeld(levels, k, j);
  }

  lemma OneMoreLevel(most: nat, depth: nat, above: nat, low: nat)
    requires above <= most * depth && low <= most
    ensures above + low <= most * (depth + 1)
  {
  }

  lemma OldestIsHeld(levels: Levels, k: int, j: nat)
    requires k >= 1 && Canonical(levels, k, j) && levels != Empty
    ensures Pow2(j + Depth(levels) - 1) <= |Held(levels)|
  {
    OldestIsSmall(levels, k, j);
    ConcatAround(Flatten(levels), 0);
  }
}
