/**
  The backward pass over the flat bucket list: what it knows at each index, and that it
  computes the increment of the level-by-level form.
*/
module CascadePass {
  import opened Numbers
  import opened Stream
  import opened Cascade

  /** Bucket p absorbs bucket p + 1, which is deleted. */
  ghost function MergeAt(buckets: seq<Segment>, p: nat): seq<Segment>
    requires p + 1 < |buckets|
  {
    buckets[..p] + [buckets[p] + buckets[p + 1]] + buckets[p + 2..]
  }

  /** What the current run and the levels above it will become. */
  ghost function Settle(above: Levels, run: seq<Segment>, k: int): Levels
    requires k >= 1
  {
    if |run| < Threshold(k) then Level(run, above)
    else Level(run[2..], Add(above, run[0] + run[1], k))
  }

  /**
    The pass is at index i of the flat list: the run of level j (its two-bucket carry included)
    has been entered `same` buckets deep, `above` is untouched and `done` is final.
   */
  datatype Scan = Scan(above: Levels, run: seq<Segment>, done: seq<Segment>, j: nat)

  ghost predicate Scanning(sc: Scan, buckets: seq<Segment>, i: int, same: int, k: int, goal: seq<Segment>)
    requires k >= 1
  {
    && buckets == Flatten(sc.above) + sc.run + sc.done
    && Canonical(sc.above, k, sc.j + 1)
    && 1 <= same <= |sc.run| <= Threshold(k)
    && AllOfSize(sc.run, Pow2(sc.j))
    && i + 1 == |Flatten(sc.above)| + |sc.run| - same
    && Flatten(Settle(sc.above, sc.run, k)) + sc.done == goal
  }

  lemma ScanStart(levels: Levels, x: Segment, k: int) returns (sc: Scan)
    requires k >= 1 && Canonical(levels, k, 0) && |x| == 1
    ensures Scanning(sc, Flatten(levels) + [x], |Flatten(levels)| - 1, 1, k, Flatten(Add(levels, x, k)))
  {
    match levels
    case Empty =>
      sc := Scan(Empty, [x], [], 0);
    case Level(low, above) =>
      sc := Scan(above, low + [x], [], 0);
      if |low| + 1 >= Threshold(k) {
        assert (low + [x])[2..] == low[2..] + [x];
      }
  }

  /** Equal neighbours exactly when the pass is still inside the run. */
  lemma ScanInside(sc: Scan, buckets: seq<Segment>, i: nat, same: int, k: int, goal: seq<Segment>)
    requires k >= 1 && Scanning(sc, buckets, i, same, k, goal)
    ensures i + 1 < |buckets|
    ensures |buckets[i]| == |buckets[i + 1]| <==> same < |sc.run|
    ensures same < |sc.run| ==> Scanning(sc, buckets, i - 1, same + 1, k, goal)
    ensures same == |sc.run| ==> sc.above != Empty && i == |Flatten(sc.above)| - 1
  {
    assert buckets[i + 1] == sc.run[|sc.run| - same];
    if same < |sc.run| {
      assert buckets[i] == sc.run[|sc.run| - same - 1];
    } else {
      assert buckets[i] == Flatten(sc.above)[i];
      NewestIsUnit(sc.above, k, sc.j + 1);
    }
  }

  /** Unequal neighbours, run too short to carry: the pass enters the next level. */
  lemma ScanQuiet(sc: Scan, buckets: seq<Segment>, i: nat, same: int, k: int, goal: seq<Segment>)
    returns (next: Scan)
    requires k >= 1 && Scanning(sc, buckets, i, same, k, goal) && same == |sc.run| < Threshold(k)
    requires sc.above != Empty
    ensures Scanning(next, buckets, i - 1, 1, k, goal)
    ensures |buckets[i]| != |buckets[i + 1]|
  {
    ScanInside(sc, buckets, i, same, k, goal);
    var Level(low, up) := sc.above;
    next := Scan(up, low, sc.run + sc.done, sc.j + 1);
    PlusAssoc(Flatten(sc.above), sc.run, sc.done);
  }

  lemma CarryBuckets(up: seq<Segment>, low: seq<Segment>, run: seq<Segment>, done: seq<Segment>, i: nat)
    requires |low| >= 1 && |run| >= 2 && i == |up| + |low| - 1
    ensures var buckets := up + low + run + done;
      && i + 2 < |buckets| && buckets[i] == low[|low| - 1]
      && buckets[i + 1] == run[0] && buckets[i + 2] == run[1]
      && MergeAt(buckets, i + 1) == up + (low + [run[0] + run[1]]) + (run[2..] + done)
  {
    var buckets := up + low + run + done;
    assert buckets[..i + 1] == up + low;
    assert buckets[i + 3..] == run[2..] + done;
  }

  /** Unequal neighbours, full run: its two oldest buckets merge and join the next level. */
  lemma ScanCarry(sc: Scan, buckets: seq<Segment>, i: nat, same: int, k: int, goal: seq<Segment>)
    returns (next: Scan)
    requires k >= 1 && Scanning(sc, buckets, i, same, k, goal) && same == |sc.run| >= Threshold(k)
    requires sc.above != Empty
    ensures i + 2 < |buckets| && |buckets[i + 1] + buckets[i + 2]| == |buckets[i]|
    ensures Scanning(next, MergeAt(buckets, i + 1), i - 1, 2, k, goal)
  {
    var Level(low, up) := sc.above;
    var run := sc.run;
    var m := run[0] + run[1];
    next := Scan(up, low + [m], run[2..] + sc.done, sc.j + 1);
    CarryBuckets(Flatten(up), low, run, sc.done, i);
    if |low| + 1 >= Threshold(k) {
      assert (low + [m])[2..] == low[2..] + [m];
    }
    PlusAssoc(Flatten(Add(sc.above, m, k)), run[2..], sc.done);
  }

  /** At the oldest end, one last merge may open a new top level. */
  lemma ScanEnd(sc: Scan, buckets: seq<Segment>, same: int, k: int, goal: seq<Segment>)
    requires k >= 1 && Scanning(sc, buckets, -1, same, k, goal)
    ensures same < Threshold(k) ==> buckets == goal
    ensures same >= Threshold(k) ==> |buckets| >= 2 && MergeAt(buckets, 0) == goal
  {
    FlattenEmpty(sc.above, k, sc.j + 1);
    assert same == |sc.run| && sc.above == Empty;
    if same >= Threshold(k) {
      var run := sc.run;
      var m := run[0] + run[1];
      assert buckets == run + sc.done;
      assert MergeAt(buckets, 0) == [m] + run[2..] + sc.done;
      assert Flatten(Add(Empty, m, k)) == [m];
    }
  }

  /** The source's floating-point test of a run length. */
  predicate RunIsFull(same: int, k: int) {
    same as real >= k as real / 2.0 + 2.0
  }

  lemma RunIsFullIff(same: int, k: int)
    requires k >= 1
    ensures RunIsFull(same, k) <==> same >= Threshold(k)
  {
    assert RunIsFull(same, k) <==> (2 * same) as real >= (k + 4) as real;
  }
}
