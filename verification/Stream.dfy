/** Samples, runs of consecutive samples and the sequence facts shared by the histograms. */
module Stream {

  datatype Sample = Sample(time: int, value: real)

  /** A run of consecutive samples of the stream: what one bucket has absorbed. */
  type Segment = seq<Sample>

  ghost function Concat<T>(parts: seq<seq<T>>): seq<T> {
    if parts == [] then [] else parts[0] + Concat(parts[1..])
  }

  lemma {:induction false} ConcatPlus<T>(a: seq<seq<T>>, b: seq<seq<T>>)
    ensures Concat(a + b) == Concat(a) + Concat(b)
  {
    if a == [] {
      assert a + b == b;
    } else {
      ConcatPlus(a[1..], b);
      assert (a + b)[1..] == a[1..] + b;
      assert a[0] + (Concat(a[1..]) + Concat(b)) == a[0] + Concat(a[1..]) + Concat(b);
    }
  }

  lemma ConcatOne<T>(x: seq<T>)
    ensures Concat([x]) == x
  {
    assert Concat([x]) == x + Concat([]);
  }

  lemma ConcatSplit<T>(a: seq<seq<T>>, n: nat)
    requires n <= |a|
    ensures Concat(a) == Concat(a[..n]) + Concat(a[n..])
  {
    assert a == a[..n] + a[n..];
    ConcatPlus(a[..n], a[n..]);
  }

  /** Position n of the part list splits the concatenation around part n. */
  lemma ConcatAround<T>(a: seq<seq<T>>, n: nat)
    requires n < |a|
    ensures Concat(a) == Concat(a[..n]) + a[n] + Concat(a[n + 1..])
  {
    ConcatSplit(a, n);
    assert a[n..][1..] == a[n + 1..];
  }

  ghost predicate InOrder(s: seq<Sample>, p: nat, q: nat)
    requires p < |s| && q < |s|
  {
    s[p].time <= s[q].time
  }

  ghost predicate StrictlyInOrder(s: seq<Sample>, p: nat, q: nat)
    requires p < |s| && q < |s|
  {
    s[p].time < s[q].time
  }

  ghost predicate Sorted(s: seq<Sample>) {
    forall p, q :: 0 <= p < q < |s| ==> InOrder(s, p, q)
  }

  ghost predicate StrictlySorted(s: seq<Sample>) {
    forall p, q :: 0 <= p < q < |s| ==> StrictlyInOrder(s, p, q)
  }

  lemma StrictIsSorted(s: seq<Sample>)
    requires StrictlySorted(s)
    ensures Sorted(s)
  {
    forall p, q | 0 <= p < q < |s|
      ensures InOrder(s, p, q)
    {
      assert StrictlyInOrder(s, p, q);
    }
  }

  lemma InTime(all: seq<Sample>, p: nat, q: nat)
    requires Sorted(all) && p <= q < |all|
    ensures all[p].time <= all[q].time
  {
    assert p < q ==> InOrder(all, p, q);
  }

  /** Positions of a strictly increasing stream are ordered like their times. */
  lemma StrictOrder(s: seq<Sample>, p: nat, q: nat)
    requires p < |s| && q < |s| && StrictlySorted(s)
    ensures s[p].time < s[q].time <==> p < q
    ensures s[p].time == s[q].time <==> p == q
  {
    assert p < q ==> StrictlyInOrder(s, p, q);
    assert q < p ==> StrictlyInOrder(s, q, p);
  }

  lemma SliceSorted(s: seq<Sample>, a: nat, b: nat)
    requires a <= b <= |s| && Sorted(s)
    ensures Sorted(s[a..b])
  {
    forall p, q | 0 <= p < q < b - a
      ensures InOrder(s[a..b], p, q)
    {
      assert InOrder(s, a + p, a + q);
    }
  }

  lemma SliceStrictlySorted(s: seq<Sample>, a: nat, b: nat)
    requires a <= b <= |s| && StrictlySorted(s)
    ensures StrictlySorted(s[a..b])
  {
    forall p, q | 0 <= p < q < b - a
      ensures StrictlyInOrder(s[a..b], p, q)
    {
      assert StrictlyInOrder(s, a + p, a + q);
    }
  }

  lemma TailSorted(s: seq<Sample>, a: nat)
    requires a <= |s| && Sorted(s)
    ensures Sorted(s[a..])
  {
    assert s[a..] == s[a..|s|];
    SliceSorted(s, a, |s|);
  }

  lemma TailStrictlySorted(s: seq<Sample>, a: nat)
    requires a <= |s| && StrictlySorted(s)
    ensures StrictlySorted(s[a..])
  {
    assert s[a..] == s[a..|s|];
    SliceStrictlySorted(s, a, |s|);
  }

  /** How many samples of s have a time in [from, to]. */
  ghost function CountIn(s: seq<Sample>, from: int, to: int): nat {
    if s == [] then 0
    else (if from <= s[0].time <= to then 1 else 0) + CountIn(s[1..], from, to)
  }

  /** How many samples of s have a time at or after the cutoff. */
  ghost function CountSince(s: seq<Sample>, cutoff: int): nat {
    if s == [] then 0
    else (if s[0].time >= cutoff then 1 else 0) + CountSince(s[1..], cutoff)
  }

  lemma {:induction false} CountSincePlus(a: seq<Sample>, b: seq<Sample>, cutoff: int)
    ensures CountSince(a + b, cutoff) == CountSince(a, cutoff) + CountSince(b, cutoff)
  {
    if a == [] {
      assert a + b == b;
    } else {
      CountSincePlus(a[1..], b, cutoff);
      assert (a + b)[1..] == a[1..] + b;
    }
  }

  lemma {:induction false} CountSinceNone(s: seq<Sample>, cutoff: int)
    requires forall p :: 0 <= p < |s| ==> s[p].time < cutoff
    ensures CountSince(s, cutoff) == 0
  {
    if s != [] {
      CountSinceNone(s[1..], cutoff);
    }
  }

  lemma {:induction false} CountSinceAll(s: seq<Sample>, cutoff: int)
    requires forall p :: 0 <= p < |s| ==> s[p].time >= cutoff
    ensures CountSince(s, cutoff) == |s|
  {
    if s != [] {
      CountSinceAll(s[1..], cutoff);
    }
  }

  lemma {:induction false} CountSinceBound(s: seq<Sample>, cutoff: int)
    ensures CountSince(s, cutoff) <= |s|
  {
    if s != [] {
      CountSinceBound(s[1..], cutoff);
    }
  }
}
