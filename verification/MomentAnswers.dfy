/**
  Which samples a query of the second-moment histogram answers with:
  internal/promsketch/exponential_univmon_optimized.go.
*/
module MomentAnswers {
  import opened ExpoRuns
  import opened MomentHistogram
  import opened MomentSketches
  import opened Numbers
  import opened Stream

  // ------------------------------------------------------------------ looking a time up

  /** The time lies between the first and the last sample of the bucket. */
  ghost predicate Around(s: Segment, t: int) {
    s != [] && s[0].time <= t <= s[|s| - 1].time
  }

  ghost predicate OnlyAround(buckets: seq<Segment>, p: nat, t: int) {
    p < |buckets| && Around(buckets[p], t) && forall r :: 0 <= r < |buckets| && r != p ==> !Around(buckets[r], t)
  }

  ghost predicate NoneAround(buckets: seq<Segment>, t: int) {
    forall r :: 0 <= r < |buckets| ==> !Around(buckets[r], t)
  }

  lemma {:induction false} SketchFound(univs: seq<SketchBucket>, parts: seq<Segment>, i: nat, t: int, p: nat)
    requires SizesAre(univs, parts) && TimesAre(univs, parts) && i <= p < |parts| && Around(parts[p], t)
    requires forall r :: i <= r < p ==> !Around(parts[r], t)
    ensures FirstSketch(univs, i, t) == p
    decreases p - i
  {
    assert Bounded(univs[i], parts[i]);
    if i < p {
      SketchFound(univs, parts, i + 1, t, p);
    }
  }

  lemma {:induction false} SketchNotFound(univs: seq<SketchBucket>, parts: seq<Segment>, i: nat, t: int)
    requires SizesAre(univs, parts) && TimesAre(univs, parts) && i <= |parts|
    requires forall r :: i <= r < |parts| ==> !Around(parts[r], t)
    ensures FirstSketch(univs, i, t) == -1
    decreases |parts| - i
  {
    if i < |parts| {
      assert Bounded(univs[i], parts[i]);
      SketchNotFound(univs, parts, i + 1, t);
    }
  }

  lemma {:induction false} MapFound(segments: seq<Segment>, i: nat, t: int, p: nat)
    requires NonEmpty(segments) && i <= p < |segments| && Around(segments[p], t)
    requires forall r :: i <= r < p ==> !Around(segments[r], t)
    ensures FirstSpanning(segments, i, t) == p
    decreases p - i
  {
    if i < p {
      MapFound(segments, i + 1, t, p);
    }
  }

  lemma {:induction false} MapNotFound(segments: seq<Segment>, i: nat, t: int)
    requires NonEmpty(segments) && i <= |segments|
    requires forall r :: i <= r < |segments| ==> !Around(segments[r], t)
    ensures FirstSpanning(segments, i, t) == -1
    decreases |segments| - i
  {
    if i < |segments| {
      MapNotFound(segments, i + 1, t);
    }
  }

  /** Sketches and maps, oldest first. */
  ghost function Buckets(h: ExpoHistogramUnivOptimized): seq<Segment>
    reads h
  {
    h.parts + h.segments
  }

  ghost predicate Ordered(h: ExpoHistogramUnivOptimized)
    reads h
  {
    h.Valid() && h.mapCount >= 1 && Sorted(Inserted(h.trace))
  }

  /** A time inside one bucket only is looked up there. */
  lemma PlaceIs(h: ExpoHistogramUnivOptimized, p: nat, t: int)
    requires Ordered(h) && OnlyAround(Buckets(h), p, t)
    ensures h.PlaceOf(t) == p
  {
    if p < |h.parts| {
      InSketch(h.parts, h.segments, p, t);
      MapNotFound(h.segments, 0, t);
      SketchFound(h.univs, h.parts, 0, t, p);
    } else {
      InMap(h.parts, h.segments, p, t);
      MapFound(h.segments, 0, t, p - |h.parts|);
    }
  }

  lemma InSketch(parts: seq<Segment>, segments: seq<Segment>, p: nat, t: int)
    requires OnlyAround(parts + segments, p, t) && p < |parts|
    ensures Around(parts[p], t) && (forall r :: 0 <= r < p ==> !Around(parts[r], t))
    ensures forall r :: 0 <= r < |segments| ==> !Around(segments[r], t)
  {
    var buckets, n := parts + segments, |parts|;
    assert forall r :: 0 <= r < n ==> buckets[r] == parts[r];
    assert forall r :: 0 <= r < |segments| ==> buckets[n + r] == segments[r];
  }

  lemma InMap(parts: seq<Segment>, segments: seq<Segment>, p: nat, t: int)
    requires OnlyAround(parts + segments, p, t) && p >= |parts|
    ensures Around(segments[p - |parts|], t) && forall r :: 0 <= r < p - |parts| ==> !Around(segments[r], t)
  {
    var buckets, n := parts + segments, |parts|;
    assert forall r :: 0 <= r < |segments| ==> buckets[n + r] == segments[r];
  }

  /** A time inside no bucket is looked up in the oldest one. */
  lemma PlaceOfGap(h: ExpoHistogramUnivOptimized, t: int)
    requires Ordered(h) && NoneAround(Buckets(h), t)
    ensures h.PlaceOf(t) == 0
  {
    var n := |h.parts|;
    assert forall r :: 0 <= r < n ==> Buckets(h)[r] == h.parts[r];
    assert forall r :: 0 <= r < |h.segments| ==> Buckets(h)[n + r] == h.segments[r];
    MapNotFound(h.segments, 0, t);
    SketchNotFound(h.univs, h.parts, 0, t);
  }

  // ------------------------------------------------------------------ samples and buckets

  lemma HeldIsConcat(parts: seq<Segment>, segments: seq<Segment>)
    ensures Concat(parts + segments) == HeldIn(parts, segments)
    ensures StartOf(parts + segments, |parts|) == |Concat(parts)|
  {
    ConcatPlus(parts, segments);
    assert (parts + segments)[..|parts|] == parts;
  }

  /** First and last sample of bucket p among the held ones. */
  lemma EndsOf(buckets: seq<Segment>, p: nat)
    requires p < |buckets| && buckets[p] != []
    ensures StartOf(buckets, p) < StartOf(buckets, p + 1) <= |Concat(buckets)|
    ensures buckets[p][0] == Concat(buckets)[StartOf(buckets, p)]
    ensures buckets[p][|buckets[p]| - 1] == Concat(buckets)[StartOf(buckets, p + 1) - 1]
  {
    BucketInPlace(buckets, p);
    var all, lo, hi := Concat(buckets), StartOf(buckets, p), StartOf(buckets, p + 1);
    assert all[lo..hi][0] == all[lo] && all[lo..hi][hi - lo - 1] == all[hi - 1];
  }

  ghost predicate Holds(buckets: seq<Segment>, p: nat, a: nat) {
    p < |buckets| && StartOf(buckets, p) <= a < StartOf(buckets, p + 1)
  }

  lemma {:induction false} HolderOf(buckets: seq<Segment>, n: nat, a: nat) returns (p: nat)
    requires n <= |buckets| && a < StartOf(buckets, n)
    ensures p < n && Holds(buckets, p, a)
  {
    assert buckets[..0] == [];
    if n > 0 {
      BucketInPlace(buckets, n - 1);
      if a < StartOf(buckets, n - 1) {
        p := HolderOf(buckets, n - 1, a);
      } else {
        p := n - 1;
      }
    }
  }

  /** With strictly increasing times only the bucket that holds a sample is around its time. */
  lemma OnlyHolder(buckets: seq<Segment>, p: nat, a: nat)
    requires NonEmpty(buckets) && StrictlySorted(Concat(buckets)) && Holds(buckets, p, a)
    requires a < |Concat(buckets)|
    ensures OnlyAround(buckets, p, Concat(buckets)[a].time)
  {
    forall r | 0 <= r < |buckets|
      ensures Around(buckets[r], Concat(buckets)[a].time) <==> r == p
    {
      EndsOf(buckets, r);
      EndsOf(buckets, p);
      StrictOrder(Concat(buckets), a, StartOf(buckets, r));
      StrictOrder(Concat(buckets), a, StartOf(buckets, r + 1) - 1);
      if r < p {
        StartsAscend(buckets, r + 1, p);
      } else if r > p {
        StartsAscend(buckets, p + 1, r);
      }
    }
  }

  // ------------------------------------------------------------------ start and end of an answer

  /** The oldest bucket when the start is before everything, the only bucket around it otherwise. */
  lemma StartIs(h: ExpoHistogramUnivOptimized, p: nat, t: int)
    requires Ordered(h) && OnlyAround(Buckets(h), p, t)
    ensures var s := Buckets(h)[p];
      h.StartAt(t) == if t - s[0].time <= s[|s| - 1].time - t then p else p + 1
  {
    PlaceIs(h, p, t);
    var n := |h.parts|;
    assert p < n ==> Buckets(h)[p] == h.parts[p] && Bounded(h.univs[p], h.parts[p]);
    assert p >= n ==> Buckets(h)[p] == h.segments[p - n];
    if n > 0 {
      assert Bounded(h.univs[0], h.parts[0]);
      OldestIsFirst(h, p, t);
    }
  }

  lemma OldestIsFirst(h: ExpoHistogramUnivOptimized, p: nat, t: int)
    requires Ordered(h) && |h.parts| > 0 && p < |Buckets(h)| && Around(Buckets(h)[p], t)
    ensures h.parts[0] != [] && h.parts[0][0].time <= t
  {
    var buckets := Buckets(h);
    HeldIsConcat(h.parts, h.segments);
    SuffixSorted(Concat(buckets), Inserted(h.trace));
    assert buckets[0] == h.parts[0] && buckets[..0] == [];
    EndsOf(buckets, 0);
    EndsOf(buckets, p);
    InTime(Concat(buckets), 0, StartOf(buckets, p));
  }

  /** The last bucket for an end after everything, the only bucket around it otherwise. */
  lemma EndIs(h: ExpoHistogramUnivOptimized, p: nat, t: int)
    requires Ordered(h) && OnlyAround(Buckets(h), p, t)
    ensures h.EndAt(t) == p
  {
    PlaceIs(h, p, t);
    NewestIsLast(h, p, t);
  }

  lemma NewestIsLast(h: ExpoHistogramUnivOptimized, p: nat, t: int)
    requires Ordered(h) && p < |Buckets(h)| && Around(Buckets(h)[p], t)
    ensures t <= h.NewestTime()
  {
    var buckets := Buckets(h);
    HeldIsConcat(h.parts, h.segments);
    SuffixSorted(Concat(buckets), Inserted(h.trace));
    assert buckets[|buckets| - 1] == h.segments[|h.segments| - 1] != [];
    LastIsNewest(buckets, p, t);
  }

  lemma LastIsNewest(buckets: seq<Segment>, p: nat, t: int)
    requires p < |buckets| && Around(buckets[p], t) && Sorted(Concat(buckets)) && buckets[|buckets| - 1] != []
    ensures var s := buckets[|buckets| - 1]; t <= s[|s| - 1].time
  {
    var last := |buckets| - 1;
    assert buckets[..last + 1] == buckets;
    EndsOf(buckets, last);
    EndsOf(buckets, p);
    StartsAscend(buckets, p + 1, last + 1);
    InTime(Concat(buckets), StartOf(buckets, p + 1) - 1, |Concat(buckets)| - 1);
  }

  // ------------------------------------------------------------------ the samples of an answer

  /** The answer is made of exactly these samples. */
  ghost predicate MadeOf(a: Answer, parts: seq<Segment>, segments: seq<Segment>, s: Segment) {
    match a
    case Panic => false
    case Exact(m, items) => m == Histogram(s) && items == |s|
    case FromSketches(from, to, size) => 0 <= from < to < |parts| && s == Concat(parts[from..to + 1]) && size == |s|
    case Live(p) => 0 <= p < |parts| && s == parts[p]
    case FromBoth(from, size) => 0 <= from < |parts| && s == Concat(parts[from..]) + Concat(segments) && size == |s|
  }

  lemma Stretch(buckets: seq<Segment>, i: nat, j: nat)
    requires i <= j <= |buckets|
    ensures StartOf(buckets, i) <= StartOf(buckets, j) <= |Concat(buckets)|
    ensures Concat(buckets[i..j]) == Concat(buckets)[StartOf(buckets, i)..StartOf(buckets, j)]
  {
    ConcatSplit(buckets, j);
    ConcatSplit(buckets[..j], i);
    assert buckets[..j][..i] == buckets[..i] && buckets[..j][i..] == buckets[i..j];
  }

  /** Where the answer from these places ends. */
  ghost function LastOf(parts: seq<Segment>, segments: seq<Segment>, from: nat, to: nat): int
    requires from < |parts| + |segments| && to < |parts| + |segments|
  {
    var buckets := parts + segments;
    if to < |parts| then StartOf(buckets, Max(from, to) + 1)
    else if from < |parts| then |Concat(buckets)|
    else if from <= to then StartOf(buckets, to + 1)
    else StartOf(buckets, from)
  }

  lemma SketchesMade(parts: seq<Segment>, segments: seq<Segment>, from: nat, to: nat)
    requires from < |parts| && to < |parts|
    ensures var buckets := parts + segments; var lo, hi := StartOf(buckets, from), StartOf(buckets, Max(from, to) + 1);
      && lo <= hi <= |Concat(buckets)|
      && MadeOf(AnswerAt(parts, segments, from, to), parts, segments, Concat(buckets)[lo..hi])
  {
    var buckets, end := parts + segments, Max(from, to) + 1;
    Stretch(buckets, from, end);
    assert buckets[from..end] == parts[from..end];
    if from >= to {
      assert parts[from..from + 1] == [parts[from]];
      ConcatOne(parts[from]);
    }
  }

  lemma BothMade(parts: seq<Segment>, segments: seq<Segment>, from: nat, to: nat)
    requires from < |parts| <= to < |parts| + |segments|
    ensures var buckets := parts + segments; var lo := StartOf(buckets, from);
      lo <= |Concat(buckets)| && MadeOf(AnswerAt(parts, segments, from, to), parts, segments, Concat(buckets)[lo..])
  {
    var buckets := parts + segments;
    Stretch(buckets, from, |buckets|);
    assert buckets[..|buckets|] == buckets && buckets[from..|buckets|] == parts[from..] + segments;
    ConcatPlus(parts[from..], segments);
    assert Concat(buckets)[StartOf(buckets, from)..|Concat(buckets)|] == Concat(buckets)[StartOf(buckets, from)..];
  }

  lemma MapsMade(parts: seq<Segment>, segments: seq<Segment>, from: nat, to: nat)
    requires |parts| <= from <= to < |parts| + |segments|
    ensures var buckets := parts + segments; var lo, hi := StartOf(buckets, from), StartOf(buckets, to + 1);
      && lo <= hi <= |Concat(buckets)|
      && MadeOf(AnswerAt(parts, segments, from, to), parts, segments, Concat(buckets)[lo..hi])
  {
    var buckets, n := parts + segments, |parts|;
    Stretch(buckets, from, to + 1);
    assert buckets[from..to + 1] == segments[from - n..to + 1 - n];
  }

  lemma NoneMade(parts: seq<Segment>, segments: seq<Segment>, from: nat, to: nat)
    requires |parts| <= to < from < |parts| + |segments|
    ensures var buckets := parts + segments; var lo := StartOf(buckets, from);
      && lo <= |Concat(buckets)|
      && MadeOf(AnswerAt(parts, segments, from, to), parts, segments, Concat(buckets)[lo..lo])
  {
    Stretch(parts + segments, from, from);
  }

  lemma AnswerMade(parts: seq<Segment>, segments: seq<Segment>, from: nat, to: nat)
    requires from < |parts| + |segments| && to < |parts| + |segments| && !(to < |parts| <= from)
    ensures var buckets := parts + segments; var lo, hi := StartOf(buckets, from), LastOf(parts, segments, from, to);
      && lo <= hi <= |Concat(buckets)|
      && MadeOf(AnswerAt(parts, segments, from, to), parts, segments, Concat(buckets)[lo..hi])
  {
    var buckets := parts + segments;
    if to < |parts| {
      SketchesMade(parts, segments, from, to);
    } else if from < |parts| {
      BothMade(parts, segments, from, to);
      assert Concat(buckets)[StartOf(buckets, from)..|Concat(buckets)|] == Concat(buckets)[StartOf(buckets, from)..];
    } else if from <= to {
      MapsMade(parts, segments, from, to);
    } else {
      NoneMade(parts, segments, from, to);
    }
  }

  // ------------------------------------------------------------------ accuracy

  /** An answer from sample a on starts with its bucket when a is at most as far from its start as from its end. */
  ghost function FirstOf(buckets: seq<Segment>, p: nat, a: nat): nat
    requires p < |buckets| && Holds(buckets, p, a) && StartOf(buckets, p + 1) <= |Concat(buckets)|
  {
    var held, s, e := Concat(buckets), StartOf(buckets, p), StartOf(buckets, p + 1);
    if held[a].time - held[s].time <= held[e - 1].time - held[a].time then s else e
  }

  /**
    The answer for the times of held samples a <= b, the first `front` of them being in sketches. It
    starts with the bucket of a or right after it; it ends with the bucket of b, or with the next
    sketch when it starts after b, or with everything when it goes from sketches into maps. It
    panics when it would start after the sketches and b is in one.
   */
  ghost predicate AnswerSpans(parts: seq<Segment>, segments: seq<Segment>, a: nat, b: nat, p: nat, q: nat,
                              answer: Answer) {
    var buckets, front := parts + segments, |Concat(parts)|;
    var held := Concat(buckets);
    && p < |buckets| && Holds(buckets, p, a) && StartOf(buckets, p + 1) <= |held|
    && q < |buckets| && Holds(buckets, q, b) && StartOf(buckets, q + 1) <= |held|
    && var lo, end := FirstOf(buckets, p, a), StartOf(buckets, q + 1);
    && (answer.Panic? <==> b < front && lo == front)
    && (!answer.Panic? && b < front && lo <= b ==> MadeOf(answer, parts, segments, held[lo..end]))
    && (!answer.Panic? && b < front && lo > b ==>
          q + 2 <= |parts| && lo == end <= StartOf(buckets, q + 2) <= |held|
          && MadeOf(answer, parts, segments, held[lo..StartOf(buckets, q + 2)]))
    && (b >= front && lo < front ==> MadeOf(answer, parts, segments, held[lo..]))
    && (b >= front && front <= lo <= b ==> MadeOf(answer, parts, segments, held[lo..end]))
    && (b >= front && lo > b ==> MadeOf(answer, parts, segments, []))
  }

  lemma SpansFollows(parts: seq<Segment>, segments: seq<Segment>, a: nat, b: nat, p: nat, q: nat, from: nat)
    requires p < |parts + segments| && q < |parts + segments| && a <= b < |Concat(parts + segments)|
    requires NonEmpty(parts + segments) && Holds(parts + segments, p, a) && Holds(parts + segments, q, b)
    requires from < |parts + segments| && (from == p || from == p + 1)
    requires StartOf(parts + segments, p + 1) <= |Concat(parts + segments)|
    requires StartOf(parts + segments, from) == FirstOf(parts + segments, p, a)
    ensures AnswerSpans(parts, segments, a, b, p, q, AnswerAt(parts, segments, from, q))
  {
    var buckets, n := parts + segments, |parts|;
    HeldIsConcat(parts, segments);
    EndsOf(buckets, q);
    NotAfter(buckets, p, q, a, b);
    SideOfFront(buckets, q, b, n);
    StartSide(buckets, from, n);
    StartsBefore(buckets, from, q, b);
    SpansOf(parts, segments, a, b, p, q, from, StartOf(buckets, from));
  }

  /** The answer is made of the held samples lo to hi. */
  ghost predicate Covers(answer: Answer, parts: seq<Segment>, segments: seq<Segment>, lo: nat, hi: int) {
    lo <= hi <= |Concat(parts + segments)| && MadeOf(answer, parts, segments, Concat(parts + segments)[lo..hi])
  }

  /** Samples a and b are held by buckets p and q, and the answer starts with bucket from, at sample lo. */
  ghost predicate Placed(parts: seq<Segment>, segments: seq<Segment>, a: nat, b: nat, p: nat, q: nat, from: nat,
                         lo: nat) {
    var buckets, front := parts + segments, |Concat(parts)|;
    && p <= q < |buckets| && p <= from < |buckets| && from <= p + 1
    && Holds(buckets, p, a) && Holds(buckets, q, b)
    && StartOf(buckets, p + 1) <= |Concat(buckets)| && StartOf(buckets, q + 1) <= |Concat(buckets)|
    && StartOf(buckets, from) == lo == FirstOf(buckets, p, a)
    && (q < |parts| <==> b < front)
    && (from < |parts| <==> lo < front)
    && (from == |parts| ==> lo == front)
    && (from <= q <==> lo <= b)
  }

  lemma SpansNothing(parts: seq<Segment>, segments: seq<Segment>, a: nat, b: nat, p: nat, q: nat, from: nat, lo: nat)
    requires Placed(parts, segments, a, b, p, q, from, lo) && q < |parts| <= from
    ensures AnswerSpans(parts, segments, a, b, p, q, Panic)
  {
    assert from == |parts|;
  }

  lemma SpansSketches(parts: seq<Segment>, segments: seq<Segment>, a: nat, b: nat, p: nat, q: nat, from: nat, lo: nat,
                      answer: Answer)
    requires Placed(parts, segments, a, b, p, q, from, lo) && q < |parts| && from < |parts| && !answer.Panic?
    requires Covers(answer, parts, segments, lo, StartOf(parts + segments, Max(from, q) + 1))
    ensures AnswerSpans(parts, segments, a, b, p, q, answer)
  {
    if from > q {
      assert from == q + 1 && Max(from, q) + 1 == q + 2;
    } else {
      assert Max(from, q) + 1 == q + 1;
    }
  }

  lemma SpansBoth(parts: seq<Segment>, segments: seq<Segment>, a: nat, b: nat, p: nat, q: nat, from: nat, lo: nat,
                  answer: Answer)
    requires Placed(parts, segments, a, b, p, q, from, lo) && from < |parts| <= q && !answer.Panic?
    requires Covers(answer, parts, segments, lo, |Concat(parts + segments)|)
    ensures AnswerSpans(parts, segments, a, b, p, q, answer)
  {
    var held := Concat(parts + segments);
    assert held[lo..|held|] == held[lo..];
  }

  lemma SpansMaps(parts: seq<Segment>, segments: seq<Segment>, a: nat, b: nat, p: nat, q: nat, from: nat, lo: nat,
                  answer: Answer)
    requires Placed(parts, segments, a, b, p, q, from, lo) && |parts| <= from && |parts| <= q && !answer.Panic?
    requires Covers(answer, parts, segments, lo, if from <= q then StartOf(parts + segments, q + 1) else lo)
    ensures AnswerSpans(parts, segments, a, b, p, q, answer)
  {
    var held := Concat(parts + segments);
    assert from > q ==> held[lo..lo] == [];
  }

  lemma SpansOf(parts: seq<Segment>, segments: seq<Segment>, a: nat, b: nat, p: nat, q: nat, from: nat, lo: nat)
    requires Placed(parts, segments, a, b, p, q, from, lo)
    ensures AnswerSpans(parts, segments, a, b, p, q, AnswerAt(parts, segments, from, q))
  {
    if q < |parts| <= from {
      SpansNothing(parts, segments, a, b, p, q, from, lo);
    } else {
      AnswerMade(parts, segments, from, q);
      var answer := AnswerAt(parts, segments, from, q);
      if q < |parts| {
        SpansSketches(parts, segments, a, b, p, q, from, lo, answer);
      } else if from < |parts| {
        SpansBoth(parts, segments, a, b, p, q, from, lo, answer);
      } else {
        SpansMaps(parts, segments, a, b, p, q, from, lo, answer);
      }
    }
  }

  lemma NotAfter(buckets: seq<Segment>, p: nat, q: nat, a: nat, b: nat)
    requires p < |buckets| && q < |buckets| && Holds(buckets, p, a) && Holds(buckets, q, b) && a <= b
    ensures p <= q
  {
    if q < p {
      StartsAscend(buckets, q + 1, p);
    }
  }

  /** A sample is in one of the first n buckets exactly when it comes before the start of bucket n. */
  lemma SideOfFront(buckets: seq<Segment>, q: nat, b: nat, n: nat)
    requires q < |buckets| && Holds(buckets, q, b) && n <= |buckets|
    ensures q < n <==> b < StartOf(buckets, n)
  {
    if q < n {
      StartsAscend(buckets, q + 1, n);
    } else {
      StartsAscend(buckets, n, q);
    }
  }

  lemma StartSide(buckets: seq<Segment>, from: nat, n: nat)
    requires NonEmpty(buckets) && from < |buckets| && n <= |buckets|
    ensures from < n <==> StartOf(buckets, from) < StartOf(buckets, n)
    ensures from == n ==> StartOf(buckets, from) == StartOf(buckets, n)
  {
    if from < n {
      EndsOf(buckets, from);
      StartsAscend(buckets, from + 1, n);
    } else {
      StartsAscend(buckets, n, from);
    }
  }

  /** A bucket starts after a sample exactly when it comes after the bucket that holds it. */
  lemma StartsBefore(buckets: seq<Segment>, from: nat, q: nat, b: nat)
    requires NonEmpty(buckets) && from < |buckets| && q < |buckets| && Holds(buckets, q, b)
    ensures from <= q <==> StartOf(buckets, from) <= b
  {
    if from <= q {
      StartsAscend(buckets, from, q);
    } else {
      StartsAscend(buckets, q + 1, from);
    }
  }

  /** Accuracy of every query between the times of two held samples, times strictly increasing. */
  lemma AnswerExtent(h: ExpoHistogramUnivOptimized, a: nat, b: nat)
    requires Ordered(h) && StrictlySorted(Inserted(h.trace)) && a <= b < |h.HeldSamples()|
    ensures var t1, t2 := h.HeldSamples()[a].time, h.HeldSamples()[b].time;
      var p, q := h.StartPlace(t1), h.EndAt(t2);
      && q < |h.parts| + |h.segments|
      && AnswerSpans(h.parts, h.segments, a, b, p, q, AnswerAt(h.parts, h.segments, h.StartAt(t1), q))
  {
    var buckets, held := Buckets(h), h.HeldSamples();
    HeldIsConcat(h.parts, h.segments);
    StrictTail(held, Inserted(h.trace));
    var p := Holder(buckets, a);
    var q := Holder(buckets, b);
    var t1, t2 := held[a].time, held[b].time;
    StartIs(h, p, t1);
    EndIs(h, q, t2);
    StartPlaceIs(h, p, t1);
    NextInRange(h, t1);
    ExtentFollows(h.parts, h.segments, a, b, p, q, h.StartAt(t1));
  }

  lemma Holder(buckets: seq<Segment>, a: nat) returns (p: nat)
    requires NonEmpty(buckets) && StrictlySorted(Concat(buckets)) && a < |Concat(buckets)|
    ensures Holds(buckets, p, a) && OnlyAround(buckets, p, Concat(buckets)[a].time)
  {
    assert buckets[..|buckets|] == buckets;
    p := HolderOf(buckets, |buckets|, a);
    OnlyHolder(buckets, p, a);
  }

  lemma ExtentFollows(parts: seq<Segment>, segments: seq<Segment>, a: nat, b: nat, p: nat, q: nat, from: nat)
    requires NonEmpty(parts + segments) && a <= b < |Concat(parts + segments)|
    requires Holds(parts + segments, p, a) && Holds(parts + segments, q, b) && from < |parts + segments|
    requires var s, t := (parts + segments)[p], Concat(parts + segments)[a].time;
      from == if t - s[0].time <= s[|s| - 1].time - t then p else p + 1
    ensures AnswerSpans(parts, segments, a, b, p, q, AnswerAt(parts, segments, from, q))
  {
    EndsOf(parts + segments, p);
    SpansFollows(parts, segments, a, b, p, q, from);
  }

  lemma StrictTail(tail: seq<Sample>, whole: seq<Sample>)
    requires IsSuffix(tail, whole) && StrictlySorted(whole)
    ensures StrictlySorted(tail)
  {
    TailStrictlySorted(whole, |whole| - |tail|);
  }

  lemma StartPlaceIs(h: ExpoHistogramUnivOptimized, p: nat, t: int)
    requires Ordered(h) && OnlyAround(Buckets(h), p, t)
    ensures h.StartPlace(t) == p
  {
    PlaceIs(h, p, t);
    if |h.parts| > 0 {
      assert Bounded(h.univs[0], h.parts[0]);
      OldestIsFirst(h, p, t);
    }
  }

  /** A single newest sample is as far from its bucket's start as from its end, so rounding stays in the list. */
  lemma NextInRange(h: ExpoHistogramUnivOptimized, t: int)
    requires Ordered(h)
    ensures h.StartAt(t) < |Buckets(h)|
  {
    h.NewestIsPoint();
  }
}
