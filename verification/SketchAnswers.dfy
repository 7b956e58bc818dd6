/**
  The values that the smooth histogram keeps are those of real sketches, and what its answers
  estimate: internal/promsketch/SmoothHistogram.go over internal/promsketch/UnivMon.go.
*/
module SketchAnswers {
  import opened CountSketch
  import opened FiniteSums
  import opened Numbers
  import opened SketchContent
  import opened TopK
  import opened UnivMon

  // ------------------------------------------------------------------ values of real sketches

  /** What one sample of a key adds to the counters of sketches with the hash functions of u. */
  ghost function SharesOf(u: UnivSketch): Weights
    requires u.Shape()
  {
    (key, l, r, c) => if 0 <= l < u.layer && 0 <= r < 3 && 0 <= c then u.Share(key, l, r, c) else 0
  }

  /** A sketch as the value the histogram keeps. */
  ghost function ContentOf(v: seq<Layer>, size: int): Content {
    Content(
      Fill((l, r, c) => if 0 <= l < |v| && 0 <= r && 0 <= c then Counter(v[l].log, r, c) else 0),
      size,
      seq(LAYERS, l => if 0 <= l < |v| then v[l].heap else []))
  }

  /** How often each key occurs. */
  ghost function Tally(events: seq<Event>): map<string, int> {
    if events == [] then map[]
    else Added(Tally(events[..|events| - 1]), events[|events| - 1].key, 1)
  }

  lemma {:induction false} TallyIsPositive(events: seq<Event>, key: string)
    ensures key in Tally(events) ==> Tally(events)[key] >= 1
  {
    if events == [] {
    } else {
      TallyIsPositive(events[..|events| - 1], key);
    }
  }

  /** A fresh sketch fed these keys is what the histogram takes it to be, and its counts are exact. */
  method Build(u: UnivSketch, events: seq<Event>)
    requires IsEmpty(u)
    modifies u, u.Parts()
    ensures u.Valid() && IsFed(u, events)
    ensures forall s :: Absorbed(SharesOf(u), s, events) ==> s.counts == ContentOf(u.View(), u.bucketSize).counts
  {
    FeedKeys(u, events);
    OneContent(u, events);
  }

  method FeedKeys(u: UnivSketch, events: seq<Event>)
    requires IsEmpty(u)
    modifies u, u.Parts()
    ensures u.Valid() && IsFed(u, events)
  {
    EmptySketch(u);
    for i := 0 to |events|
      invariant u.Valid() && IsFed(u, events[..i])
    {
      FeedOne(u, events, i);
    }
    assert events[..|events|] == events;
  }

  /** A clean sketch of the histogram's shape. */
  ghost predicate IsEmpty(u: UnivSketch)
    reads u, if u.Shape() then u.Parts() else {}
  {
    && u.Valid() && u.optimized && u.layer == LAYERS && u.bucketSize == 0 && u.counts == map[]
    && forall l :: 0 <= l < LAYERS ==> u.ViewAt(l) == Layer(Clean, [])
  }

  lemma OneContent(u: UnivSketch, events: seq<Event>)
    requires u.Shape() && IsFed(u, events)
    ensures forall s :: Absorbed(SharesOf(u), s, events) ==> s.counts == ContentOf(u.View(), u.bucketSize).counts
  {
    forall s | Absorbed(SharesOf(u), s, events)
      ensures s.counts == ContentOf(u.View(), u.bucketSize).counts
    {
      SameCounters(SharesOf(u), s, ContentOf(u.View(), u.bucketSize), events);
    }
  }

  /** The sketch holds exactly what these samples add. */
  ghost predicate IsFed(u: UnivSketch, events: seq<Event>)
    requires u.Shape()
    reads u, u.Parts()
  {
    && u.counts == Tally(events) && Absorbed(SharesOf(u), ContentOf(u.View(), u.bucketSize), events)
    && u.LogsHashed(u.View(), u.counts.Keys)
  }

  method FeedOne(u: UnivSketch, events: seq<Event>, i: nat)
    requires i < |events| && u.Valid() && u.optimized && u.layer == LAYERS && IsFed(u, events[..i])
    modifies u, u.Parts()
    ensures u.Valid() && IsFed(u, events[..i + 1])
  {
    ghost var before, size := u.View(), u.bucketSize;
    u.Insert(events[i].key, 1, true);
    ghost var after := u.View();
    NextSample(u, before, after, size, events[..i], events[i]);
    NextPrefix(events, i);
  }

  lemma NextPrefix(events: seq<Event>, i: nat)
    requires i < |events|
    ensures events[..i + 1] == events[..i] + [events[i]]
    ensures Tally(events[..i + 1]) == Added(Tally(events[..i]), events[i].key, 1)
  {
    assert events[..i + 1][..i] == events[..i];
  }

  lemma EmptySketch(u: UnivSketch)
    requires u.Shape() && u.layer == LAYERS && u.bucketSize == 0 && u.counts == map[]
    requires forall l :: 0 <= l < LAYERS ==> u.ViewAt(l) == Layer(Clean, [])
    ensures IsFed(u, [])
  {
    forall l, r, c | Cell(l, r, c)
      ensures ContentOf(u.View(), 0).counts[l][r][c] == 0
    {
      assert u.View()[l] == u.ViewAt(l);
    }
  }

  lemma NextSample(u: UnivSketch, before: seq<Layer>, after: seq<Layer>, size: int, events: seq<Event>, e: Event)
    requires u.Shape() && |before| == |after| == u.layer == LAYERS
    requires Absorbed(SharesOf(u), ContentOf(before, size), events)
    requires u.SharesAdded(before, after, e.key, 1)
    ensures Absorbed(SharesOf(u), ContentOf(after, size + 1), events + [e])
  {
    var a, b, add := ContentOf(before, size), ContentOf(after, size + 1), SharesOf(u);
    ContentIs(before, size);
    ContentIs(after, size + 1);
    forall l, r, c | Cell(l, r, c)
      ensures b.counts[l][r][c] == CellSum(add, events + [e], l, r, c)
    {
      assert HoldsAt(before, a, l, r, c) && HoldsAt(after, b, l, r, c);
      NextCell(u, before, after, events, e, l, r, c);
    }
  }

  ghost predicate HoldsAt(view: seq<Layer>, s: Content, l: int, r: int, c: int)
    requires |view| == LAYERS && Shaped(s.counts)
  {
    Cell(l, r, c) ==> s.counts[l][r][c] == Counter(view[l].log, r, c)
  }

  lemma ContentIs(view: seq<Layer>, size: int)
    requires |view| == LAYERS
    ensures var s := ContentOf(view, size);
      Shaped(s.counts) && s.bucketSize == size && |s.heaps| == LAYERS && forall l, r, c :: HoldsAt(view, s, l, r, c)
  {
  }

  lemma NextCell(u: UnivSketch, before: seq<Layer>, after: seq<Layer>, events: seq<Event>, e: Event, l: nat, r: nat,
                 c: nat)
    requires u.Shape() && |before| == |after| == u.layer && l < u.layer && r < 3
    requires Counter(before[l].log, r, c) == CellSum(SharesOf(u), events, l, r, c)
    requires u.SharesAdded(before, after, e.key, 1)
    ensures Counter(after[l].log, r, c) == CellSum(SharesOf(u), events + [e], l, r, c)
  {
    assert (events + [e])[..|events|] == events;
    assert u.ShareAdded(before, after, e.key, 1, l, r, c);
  }

  // ------------------------------------------------------------------ estimates from subtracted counters

  /** The histogram estimates with the hash functions of u. */
  ghost predicate SameHashing(u: UnivSketch, h: Hashing)
    requires u.Shape()
  {
    forall l: nat, key, r: nat :: l < u.layer && r < 3 ==>
      h.pos(l, key, r) == u.PosAt(l, key)[r] < Columns(l) && h.sign(key, r) == u.SignAt(key)[r]
  }

  /** In row r of layer l no other key of these samples is counted where this key is. */
  ghost predicate Undisturbed(u: UnivSketch, events: seq<Event>, l: nat, key: string, r: nat)
    requires u.Shape() && l < u.layer && r < 3
  {
    forall i :: 0 <= i < |events| && events[i].key != key ==> u.Share(events[i].key, l, r, u.PosAt(l, key)[r]) == 0
  }

  /** Undisturbed in at least two of the three rows. */
  ghost predicate Readable(u: UnivSketch, events: seq<Event>, l: nat, key: string)
    requires u.Shape() && l < u.layer
  {
    || (Undisturbed(u, events, l, key, 0) && Undisturbed(u, events, l, key, 1))
    || (Undisturbed(u, events, l, key, 0) && Undisturbed(u, events, l, key, 2))
    || (Undisturbed(u, events, l, key, 1) && Undisturbed(u, events, l, key, 2))
  }

  /** What layer l can know of a key: its count where its counters are kept, nothing elsewhere. */
  ghost function Known(u: UnivSketch, events: seq<Event>, l: nat, key: string): int
    requires l < u.layer
  {
    if u.Counts(key, l) then Get(Tally(events), key) else 0
  }

  lemma {:induction false} RowIsExact(u: UnivSketch, events: seq<Event>, l: nat, key: string, r: nat)
    requires u.Shape() && l < u.layer && r < 3 && Undisturbed(u, events, l, key, r)
    ensures u.SignAt(key)[r] * CellSum(SharesOf(u), events, l, r, u.PosAt(l, key)[r]) == Known(u, events, l, key)
  {
    if events == [] {
    } else {
      var n, s, c := |events| - 1, u.SignAt(key)[r], u.PosAt(l, key)[r];
      RowIsExact(u, events[..n], l, key, r);
      SignedStep(s, CellSum(SharesOf(u), events[..n], l, r, c));
      assert u.Share(events[n].key, l, r, c) == if events[n].key == key && u.Counts(key, l) then s else 0;
    }
  }

  lemma SignedStep(s: int, a: int)
    requires s == 1 || s == -1
    ensures s * (a + s) == s * a + 1 && s * (a + 0) == s * a
  {
  }

  /**
    The re-estimated count of a readable key is exact if and only if the layer keeps its counters
    or it did not occur.
   */
  lemma EstimateIsKnown(u: UnivSketch, d: Content, events: seq<Event>, h: Hashing, l: nat, key: string)
    requires u.Shape() && u.layer == LAYERS && l < LAYERS && SameHashing(u, h)
    requires Absorbed(SharesOf(u), d, events) && Readable(u, events, l, key)
    ensures EstimateIn(d.counts, h, l, key) == Known(u, events, l, key)
    ensures EstimateIn(d.counts, h, l, key) == Get(Tally(events), key) <==>
      u.Counts(key, l) || Get(Tally(events), key) == 0
  {
    forall r: nat | r < 3 && Undisturbed(u, events, l, key, r)
      ensures h.sign(key, r) * At(d.counts, l, r, h.pos(l, key, r)) == Known(u, events, l, key)
    {
      RowIsExact(u, events, l, key, r);
      assert Cell(l, r, u.PosAt(l, key)[r]);
    }
  }

  // ------------------------------------------------------------------ the G-sum of an answer

  /** How often a key counts in the recursion from layer i on, when only its first and bottom layer know it. */
  ghost function Multiplicity(hash: string -> nat, layers: nat, key: string, i: nat): real
    requires i < layers
    decreases layers - i
  {
    if i == layers - 1 || !Reaches(hash(key), i + 1) then 1.0
    else 2.0 * Multiplicity(hash, layers, key, i + 1) - if i == 0 then 1.0 else 0.0
  }

  lemma {:induction false} MultiplicityBelow(hash: string -> nat, layers: nat, key: string, i: nat, bottom: nat)
    requires 1 <= i <= bottom < layers
    requires forall l :: 0 <= l < layers ==> (Reaches(hash(key), l) <==> l <= bottom)
    ensures Multiplicity(hash, layers, key, i) == Pow2(bottom - i) as real
    decreases bottom - i
  {
    if i < bottom {
      assert Reaches(hash(key), i + 1);
      MultiplicityBelow(hash, layers, key, i + 1, bottom);
    }
  }

  /** A key with bottom layer b counts 2^b - 1 times, and once when b is 0. */
  lemma MultiplicityIs(hash: string -> nat, layers: nat, key: string, bottom: nat)
    requires bottom < layers && forall l :: 0 <= l < layers ==> (Reaches(hash(key), l) <==> l <= bottom)
    ensures Multiplicity(hash, layers, key, 0) == if bottom == 0 then 1.0 else (Pow2(bottom) - 1) as real
    ensures Multiplicity(hash, layers, key, 0) >= 1.0
    ensures Multiplicity(hash, layers, key, 0) == 1.0 <==> bottom <= 1
  {
    if bottom > 0 {
      assert Reaches(hash(key), 1);
      MultiplicityBelow(hash, layers, key, 1, bottom);
      assert Pow2(bottom) == 2 * Pow2(bottom - 1);
      assert bottom > 1 ==> Pow2(bottom - 1) == 2 * Pow2(bottom - 2);
    }
  }

  ghost function AnswerTerm(u: UnivSketch, events: seq<Event>, g: real -> real, i: nat): string -> real
    requires i < u.layer
  {
    key =>
      if key in Tally(events) then Multiplicity(u.hash, u.layer, key, i) * g(Tally(events)[key] as real) else 0.0
  }

  /** The counts layer l of an answer holds for the keys of the older bucket. */
  ghost function KnownCounts(u: UnivSketch, keys: set<string>, events: seq<Event>, l: nat): map<string, int>
    requires l < u.layer
  {
    map key | key in keys :: Known(u, events, l, key)
  }

  /** Heap l of the answer: the keys of the older bucket's heap with what the layer knows of them. */
  ghost predicate AnswerHeap(u: UnivSketch, heap: seq<Item>, all: map<string, int>, events: seq<Event>, l: nat)
    requires l < u.layer
  {
    Holds(heap, KeysAt(all, u.hash, l), KnownCounts(u, all.Keys, events, l))
  }

  /** Re-estimating an exact heap of the older bucket gives such a heap. */
  lemma ReestimatedHeap(u: UnivSketch, before: seq<Item>, after: seq<Item>, all: map<string, int>, d: Content,
                        events: seq<Event>, h: Hashing, l: nat)
    requires u.Shape() && u.layer == LAYERS && l < LAYERS && SameHashing(u, h)
    requires Absorbed(SharesOf(u), d, events) && HeapExact(before, all, u.hash, l)
    requires forall key :: key in KeysAt(all, u.hash, l) ==> Readable(u, events, l, key)
    requires Reestimated(before, after, d.counts, h, l)
    ensures AnswerHeap(u, after, all, events, l)
  {
    var keys, known := KeysAt(all, u.hash, l), KnownCounts(u, all.Keys, events, l);
    forall j | 0 <= j < |after|
      ensures after[j].key == before[j].key && after[j].key in keys && after[j].count == known[after[j].key]
    {
      assert before[j] in before;
      EstimateIsKnown(u, d, events, h, l, before[j].key);
    }
    forall key | key in keys
      ensures Item(key, known[key]) in after
    {
      assert Item(key, all[key]) in before;
      var j :| 0 <= j < |before| && before[j] == Item(key, all[key]);
      assert after[j] == Item(key, known[key]);
    }
  }

  /** One key in one layer: what it adds there, and twice what it adds below. */
  lemma TermStep(u: UnivSketch, all: map<string, int>, events: seq<Event>, g: real -> real, i: nat, key: string)
    requires u.optimized && i < u.layer && key in all && Reaches(u.hash(key), i)
    ensures var known := KnownCounts(u, all.Keys, events, i);
      var term := CountTerm(known, u.hash, i, i == u.layer - 1, 0, g)(key);
      AnswerTerm(u, events, g, i)(key) == term
        + if i < u.layer - 1 && Reaches(u.hash(key), i + 1) then 2.0 * AnswerTerm(u, events, g, i + 1)(key) else 0.0
  {
    TallyIsPositive(events, key);
    if i == u.layer - 1 {
    } else if Reaches(u.hash(key), i + 1) {
      TermAbove(u, all, events, g, i, key);
    } else {
      NextBitIsZero(u.hash(key), i);
    }
  }

  lemma TermAbove(u: UnivSketch, all: map<string, int>, events: seq<Event>, g: real -> real, i: nat, key: string)
    requires u.optimized && i + 1 < u.layer && key in all && Reaches(u.hash(key), i + 1)
    requires key in Tally(events) ==> Tally(events)[key] >= 1
    ensures var known := KnownCounts(u, all.Keys, events, i);
      AnswerTerm(u, events, g, i)(key)
        == CountTerm(known, u.hash, i, false, 0, g)(key) + 2.0 * AnswerTerm(u, events, g, i + 1)(key)
  {
    CountAbove(u, all.Keys, events, g, i, key);
    TwiceBelow(u, events, g, i, key);
  }

  lemma TwiceBelow(u: UnivSketch, events: seq<Event>, g: real -> real, i: nat, key: string)
    requires i + 1 < u.layer && Reaches(u.hash(key), i + 1)
    ensures AnswerTerm(u, events, g, i)(key) == 2.0 * AnswerTerm(u, events, g, i + 1)(key)
      + if i == 0 && key in Tally(events) then -g(Tally(events)[key] as real) else 0.0
  {
    if key in Tally(events) {
      Spread(Multiplicity(u.hash, u.layer, key, i + 1), g(Tally(events)[key] as real));
    }
  }

  /** A layer above the bottom one knows a key only if it is the first, and the next bit makes it negative. */
  lemma CountAbove(u: UnivSketch, keys: set<string>, events: seq<Event>, g: real -> real, i: nat, key: string)
    requires u.optimized && i + 1 < u.layer && key in keys && Reaches(u.hash(key), i + 1)
    requires key in Tally(events) ==> Tally(events)[key] >= 1
    ensures CountTerm(KnownCounts(u, keys, events, i), u.hash, i, false, 0, g)(key)
      == if i == 0 && key in Tally(events) then -g(Tally(events)[key] as real) else 0.0
  {
    assert Bit(u.hash(key), i + 1) == 1;
    var known := KnownCounts(u, keys, events, i)[key];
    assert known == if i == 0 then Get(Tally(events), key) else 0;
    if known > 0 {
      SignedTerm(Item(key, known), u.hash, i, 0, g);
    }
  }

  lemma Spread(m: real, x: real)
    ensures (2.0 * m - 1.0) * x == -1.0 * x + 2.0 * (m * x)
    ensures (2.0 * m - 0.0) * x == 2.0 * (m * x)
  {
  }

  lemma NextBitIsZero(hash: nat, i: nat)
    requires Reaches(hash, i) && !Reaches(hash, i + 1)
    ensures Bit(hash, i + 1) == 0
  {
    var b :| 1 <= b <= i + 1 && Bit(hash, b) != 1;
    assert b == i + 1;
  }

  /** The backward recursion over the heaps of an answer, from any layer on. */
  lemma {:induction false} AnswerSumFrom(u: UnivSketch, heaps: seq<seq<Item>>, all: map<string, int>,
                                         events: seq<Event>,
                                         zeros: seq<int>, g: real -> real, i: nat)
    requires u.optimized && i < u.layer == |heaps| == |zeros| && forall l :: 0 <= l < |zeros| ==> zeros[l] == 0
    requires forall l :: 0 <= l < u.layer ==> AnswerHeap(u, heaps[l], all, events, l)
    ensures Y(heaps, u.hash, zeros, g, i) == RealSum(KeysAt(all, u.hash, i), AnswerTerm(u, events, g, i))
    decreases u.layer - i
  {
    var keys, last := KeysAt(all, u.hash, i), i == u.layer - 1;
    var known := KnownCounts(u, all.Keys, events, i);
    var terms := CountTerm(known, u.hash, i, last, 0, g);
    assert AnswerHeap(u, heaps[i], all, events, i);
    LayerSumOverKeys(heaps[i], keys, known, u.hash, i, last, 0, g);
    forall key | key in keys
      ensures AnswerTerm(u, events, g, i)(key) == terms(key)
        + if i < u.layer - 1 && Reaches(u.hash(key), i + 1) then 2.0 * AnswerTerm(u, events, g, i + 1)(key) else 0.0
    {
      TermStep(u, all, events, g, i, key);
    }
    if last {
      RealSumEq(keys, AnswerTerm(u, events, g, i), terms);
    } else {
      AnswerSumFrom(u, heaps, all, events, zeros, g, i + 1);
      RealSumTwice(keys, KeysAt(all, u.hash, i + 1), AnswerTerm(u, events, g, i + 1), terms,
        AnswerTerm(u, events, g, i));
    }
  }

  ghost predicate HeapsOfAnswer(u: UnivSketch, heaps: seq<seq<Item>>, all: map<string, int>, events: seq<Event>) {
    && u.optimized && |heaps| == u.layer >= 1 && Tally(events).Keys <= all.Keys
    && forall l :: 0 <= l < u.layer ==> AnswerHeap(u, heaps[l], all, events, l)
  }

  ghost function Zeros(n: nat): seq<int> {
    seq(n, _ => 0)
  }

  /**
    What the statistic g sums to over an answer whose keys are all readable: every key counts
    2^b - 1 times, b being its bottom layer, and once when b is 0.
   */
  lemma AnswerSum(u: UnivSketch, heaps: seq<seq<Item>>, all: map<string, int>, events: seq<Event>, g: real -> real)
    requires HeapsOfAnswer(u, heaps, all, events)
    ensures Y(heaps, u.hash, Zeros(u.layer), g, 0) == RealSum(Tally(events).Keys, AnswerTerm(u, events, g, 0))
  {
    AnswerSumFrom(u, heaps, all, events, Zeros(u.layer), g, 0);
    assert KeysAt(all, u.hash, 0) == all.Keys;
    RealSumSuperset(Tally(events).Keys, all.Keys, AnswerTerm(u, events, g, 0));
  }

  ghost predicate PositiveAt(g: real -> real, n: int) {
    n >= 1 ==> g(n as real) > 0.0
  }

  /** How one key's weight compares with what it adds to an answer. */
  lemma TermExceeds(u: UnivSketch, events: seq<Event>, g: real -> real, key: string)
    requires u.layer >= 1 && key in Tally(events) && forall n :: PositiveAt(g, n)
    ensures Weight(Tally(events), g)(key) <= AnswerTerm(u, events, g, 0)(key)
    ensures Weight(Tally(events), g)(key) == AnswerTerm(u, events, g, 0)(key) <==>
      u.layer <= 2 || !Reaches(u.hash(key), 2)
  {
    TallyIsPositive(events, key);
    var bottom := BottomOf(u.hash(key), u.layer);
    MultiplicityIs(u.hash, u.layer, key, bottom);
    assert PositiveAt(g, Tally(events)[key]);
    AtLeastOnce(Multiplicity(u.hash, u.layer, key, 0), g(Tally(events)[key] as real));
  }

  /** For a positive statistic the answer is exact if and only if no key between the two starts reaches layer 2. */
  lemma AnswerIsExact(u: UnivSketch, heaps: seq<seq<Item>>, all: map<string, int>, events: seq<Event>, g: real -> real)
    requires HeapsOfAnswer(u, heaps, all, events) && forall n :: PositiveAt(g, n)
    ensures Y(heaps, u.hash, Zeros(u.layer), g, 0) == RealSum(Tally(events).Keys, Weight(Tally(events), g)) <==>
      forall key :: key in Tally(events) ==> u.layer <= 2 || !Reaches(u.hash(key), 2)
  {
    AnswerSum(u, heaps, all, events, g);
    var tally := Tally(events);
    var weight, term := Weight(tally, g), AnswerTerm(u, events, g, 0);
    forall key | key in tally
      ensures weight(key) <= term(key)
      ensures weight(key) == term(key) <==> u.layer <= 2 || !Reaches(u.hash(key), 2)
    {
      TermExceeds(u, events, g, key);
    }
    RealSumStrict(tally.Keys, weight, term);
  }

  lemma AtLeastOnce(m: real, x: real)
    requires m >= 1.0 && x > 0.0
    ensures m * x >= x && (m * x == x <==> m == 1.0)
  {
    assert m * x - x == (m - 1.0) * x;
    assert m > 1.0 ==> (m - 1.0) * x > 0.0;
  }

  lemma ReachesNext(hash: nat, l: nat)
    ensures Reaches(hash, l + 1) <==> Reaches(hash, l) && Bit(hash, l + 1) == 1
  {
  }

  lemma {:induction false} BottomOf(hash: nat, layers: nat) returns (bottom: nat)
    requires layers >= 1
    ensures bottom < layers && forall l :: 0 <= l < layers ==> (Reaches(hash, l) <==> l <= bottom)
  {
    if layers == 1 {
      bottom := 0;
    } else {
      var b := BottomOf(hash, layers - 1);
      bottom := if b == layers - 2 && Bit(hash, layers - 1) == 1 then layers - 1 else b;
      ReachesNext(hash, layers - 2);
    }
  }

  /** A lone key of bottom layer b >= 2 and weight n makes the sum (2^b - 1) * g(n). */
  lemma LoneKey(u: UnivSketch, heaps: seq<seq<Item>>, all: map<string, int>, events: seq<Event>, g: real -> real,
                key: string, bottom: nat, n: int)
    requires HeapsOfAnswer(u, heaps, all, events) && Tally(events) == map[key := n]
    requires 2 <= bottom && u.IsBottom(key, bottom)
    ensures Y(heaps, u.hash, Zeros(u.layer), g, 0) == (Pow2(bottom) - 1) as real * g(n as real)
  {
    AnswerSum(u, heaps, all, events, g);
    assert Tally(events).Keys == {key};
    OneTerm(AnswerTerm(u, events, g, 0), key);
    LoneTerm(u, events, g, key, bottom, n);
  }

  lemma LoneTerm(u: UnivSketch, events: seq<Event>, g: real -> real, key: string, bottom: nat, n: int)
    requires key in Tally(events) && Tally(events)[key] == n && 2 <= bottom < u.layer && u.IsBottom(key, bottom)
    ensures AnswerTerm(u, events, g, 0)(key) == (Pow2(bottom) - 1) as real * g(n as real)
  {
    MultiplicityIs(u.hash, u.layer, key, bottom);
    var m := Multiplicity(u.hash, u.layer, key, 0);
    assert m == (Pow2(bottom) - 1) as real;
  }

  lemma OneTerm(f: string -> real, key: string)
    ensures RealSum({key}, f) == f(key)
  {
    RealSumRemove({key}, f, key);
    assert {key} - {key} == {};
  }

  // ------------------------------------------------------------------ answers over real sketches

  lemma {:induction false} TallyOfPrefix(early: seq<Event>, late: seq<Event>)
    ensures Tally(early).Keys <= Tally(early + late).Keys
  {
    if late == [] {
      assert early + late == early;
    } else {
      var n := |late| - 1;
      assert (early + late)[..|early + late| - 1] == early + late[..n];
      TallyOfPrefix(early, late[..n]);
    }
  }

  lemma {:induction false} TallyHasKeys(events: seq<Event>, i: nat)
    requires i < |events|
    ensures events[i].key in Tally(events)
  {
    if i < |events| - 1 {
      TallyHasKeys(events[..|events| - 1], i);
    }
  }

  /** A key that the hash functions keep apart from the others is readable. */
  lemma SeparateIsReadable(u: UnivSketch, keys: set<string>, events: seq<Event>, l: nat, key: string)
    requires u.Shape() && l < u.layer && u.Separate(keys) && Tally(events).Keys <= keys
    requires key in keys && Reaches(u.hash(key), l)
    ensures Readable(u, events, l, key)
  {
    assert u.TwoRowsFree(keys, l, key);
    forall r: nat | r < 3 && u.RowFree(keys, l, key, r)
      ensures Undisturbed(u, events, l, key, r)
    {
      forall i | 0 <= i < |events| && events[i].key != key
        ensures u.Share(events[i].key, l, r, u.PosAt(l, key)[r]) == 0
      {
        TallyHasKeys(events, i);
      }
    }
  }

  /** What the layers of a real sketch fed these samples say: counters, logs, and heaps unless something spoils them. */
  ghost predicate IsFedValue(u: UnivSketch, view: seq<Layer>, size: int, events: seq<Event>)
    requires u.Shape() && |view| == u.layer
  {
    && Absorbed(SharesOf(u), ContentOf(view, size), events) && u.LogsHashed(view, Tally(events).Keys)
    && (u.Clear(view, Tally(events)) ==> u.HeapsExact(view, Tally(events)))
  }

  /** d is what the histogram answers when the older bucket is u: early samples left, heaps of u re-estimated. */
  ghost predicate IsAnswer(u: UnivSketch, view: seq<Layer>, d: Content, h: Hashing, early: seq<Event>)
    requires u.Shape() && |view| == u.layer == LAYERS
  {
    && SameHashing(u, h) && Absorbed(SharesOf(u), d, early)
    && forall l :: 0 <= l < LAYERS ==> Reestimated(view[l].heap, d.heaps[l], d.counts, h, l)
  }

  /** A sketch of a run whose keys the hash functions keep apart, with room in its heaps. */
  ghost predicate Roomy(u: UnivSketch, view: seq<Layer>, size: int, events: seq<Event>) {
    && u.Shape() && u.optimized && |view| == u.layer == LAYERS
    && IsFedValue(u, view, size, events) && u.Separate(Tally(events).Keys)
    && forall l :: 0 <= l < LAYERS ==> |KeysAt(Tally(events), u.hash, l)| <= u.hhLayers[l].k
  }

  /** Answers over such a sketch have the heaps that the sums above speak of. */
  lemma HeapsOfRun(u: UnivSketch, view: seq<Layer>, size: int, d: Content, h: Hashing, early: seq<Event>,
                   late: seq<Event>)
    requires Roomy(u, view, size, early + late) && IsAnswer(u, view, d, h, early)
    ensures HeapsOfAnswer(u, d.heaps, Tally(early + late), early)
  {
    var all := Tally(early + late);
    TallyOfPrefix(early, late);
    u.SeparateIsClear(view, all);
    forall l | 0 <= l < LAYERS
      ensures AnswerHeap(u, d.heaps[l], all, early, l)
    {
      forall key | key in KeysAt(all, u.hash, l)
        ensures Readable(u, early, l, key)
      {
        SeparateIsReadable(u, all.Keys, early, l, key);
      }
      assert HeapExact(view[l].heap, all, u.hash, l);
      ReestimatedHeap(u, view[l].heap, d.heaps[l], all, d, early, h, l);
    }
  }

  /**
    The answer of the histogram for the samples between two starts, for any statistic g: each key counts
    2^b - 1 times, and for a positive g the sum is exact if and only if no key of these samples reaches layer 2.
   */
  lemma AnswerOfRun(u: UnivSketch, view: seq<Layer>, size: int, d: Content, h: Hashing, early: seq<Event>,
                    late: seq<Event>, g: real -> real)
    requires Roomy(u, view, size, early + late) && IsAnswer(u, view, d, h, early) && forall n :: PositiveAt(g, n)
    ensures Y(d.heaps, u.hash, Zeros(LAYERS), g, 0) == RealSum(Tally(early).Keys, AnswerTerm(u, early, g, 0))
    ensures Y(d.heaps, u.hash, Zeros(LAYERS), g, 0) == RealSum(Tally(early).Keys, Weight(Tally(early), g)) <==>
      forall key :: key in Tally(early) ==> !Reaches(u.hash(key), 2)
  {
    HeapsOfRun(u, view, size, d, h, early, late);
    AnswerSum(u, d.heaps, Tally(early + late), early, g);
    AnswerIsExact(u, d.heaps, Tally(early + late), early, g);
  }

  // ------------------------------------------------------------------ two real sketches of one run

  ghost predicate SameFunctions(u: UnivSketch, v: UnivSketch)
    requires u.Shape() && v.Shape()
  {
    && u.layer == v.layer && u.hash == v.hash && u.optimized == v.optimized
    && forall l :: 0 <= l < u.layer ==>
         && u.csLayers[l].hash1 == v.csLayers[l].hash1 && u.csLayers[l].hash2 == v.csLayers[l].hash2
         && u.csLayers[l].col == v.csLayers[l].col
  }

  lemma SameShares(u: UnivSketch, v: UnivSketch)
    requires u.Shape() && v.Shape() && SameFunctions(u, v)
    ensures forall key, l, r, c :: SharesOf(u)(key, l, r, c) == SharesOf(v)(key, l, r, c)
  {
  }

  lemma {:induction false} SameCellSum(a: Weights, b: Weights, events: seq<Event>, l: int, r: int, c: int)
    requires forall key, l, r, c :: a(key, l, r, c) == b(key, l, r, c)
    ensures CellSum(a, events, l, r, c) == CellSum(b, events, l, r, c)
  {
    if events != [] {
      SameCellSum(a, b, events[..|events| - 1], l, r, c);
    }
  }

  /** What the histogram computes from the values of an older sketch u and a newer one v. */
  ghost predicate IsSubtracted(u: UnivSketch, a: seq<Layer>, b: seq<Layer>, sizeA: int, sizeB: int, d: Content,
                               h: Hashing)
    requires u.Shape() && |a| == |b| == u.layer == LAYERS
  {
    && IsDifference(ContentOf(a, sizeA), ContentOf(b, sizeB), d) && SameHashing(u, h)
    && forall l :: 0 <= l < LAYERS ==> Reestimated(a[l].heap, d.heaps[l], d.counts, h, l)
  }

  lemma SubtractedIsAnswer(u: UnivSketch, v: UnivSketch, a: seq<Layer>, b: seq<Layer>, sizeA: int, sizeB: int,
                           d: Content, h: Hashing, early: seq<Event>, late: seq<Event>)
    requires u.Shape() && v.Shape() && |a| == |b| == u.layer == v.layer == LAYERS && SameFunctions(u, v)
    requires IsFedValue(u, a, sizeA, early + late) && IsFedValue(v, b, sizeB, late)
    requires IsSubtracted(u, a, b, sizeA, sizeB, d, h)
    ensures IsAnswer(u, a, d, h, early)
  {
    SameShares(u, v);
    forall l, r, c | Cell(l, r, c)
      ensures ContentOf(b, sizeB).counts[l][r][c] == CellSum(SharesOf(u), late, l, r, c)
    {
      SameCellSum(SharesOf(u), SharesOf(v), late, l, r, c);
    }
    SubtractAbsorbs(SharesOf(u), ContentOf(a, sizeA), ContentOf(b, sizeB), d, early, late);
  }

  /** The hash functions and dimensions of the histogram's sketches. */
  ghost predicate HashedBy(u: UnivSketch, hash: string -> nat, hash1: (string, nat) -> nat, hash2: (string, nat) -> nat)
    requires u.Shape()
  {
    && u.layer == LAYERS && u.optimized && u.hash == hash
    && forall l :: 0 <= l < LAYERS ==>
         u.csLayers[l].col == Columns(l) && u.csLayers[l].hash1 == hash1 && u.csLayers[l].hash2 == hash2
  }

  lemma HashedAlike(u: UnivSketch, v: UnivSketch, hash: string -> nat, hash1: (string, nat) -> nat,
                    hash2: (string, nat) -> nat)
    requires u.Shape() && v.Shape() && HashedBy(u, hash, hash1, hash2) && HashedBy(v, hash, hash1, hash2)
    ensures SameFunctions(u, v)
  {
  }

  method NewSketch(k: nat, hash: string -> nat, hash1: (string, nat) -> nat, hash2: (string, nat) -> nat)
    returns (u: UnivSketch)
    requires k >= 1
    ensures IsEmpty(u) && HashedBy(u, hash, hash1, hash2) && fresh(u) && fresh(u.Parts())
  {
    u := new UnivSketch(k, LAYERS, true, hash, hash1, hash2);
  }

  method FedSketch(k: nat, hash: string -> nat, hash1: (string, nat) -> nat, hash2: (string, nat) -> nat,
                   events: seq<Event>) returns (u: UnivSketch)
    requires k >= 1
    ensures fresh(u) && u.Shape() && fresh(u.Parts()) && HashedBy(u, hash, hash1, hash2)
    ensures IsFedValue(u, u.View(), u.bucketSize, events)
  {
    u := NewSketch(k, hash, hash1, hash2);
    FeedKeys(u, events);
  }

  /** The sketches of an older and a newer bucket, built by the updates themselves. */
  method TwoSketches(k: nat, hash: string -> nat, hash1: (string, nat) -> nat, hash2: (string, nat) -> nat,
                     all: seq<Event>, late: seq<Event>) returns (u: UnivSketch, v: UnivSketch)
    requires k >= 1
    ensures u.Shape() && v.Shape() && HashedBy(u, hash, hash1, hash2) && HashedBy(v, hash, hash1, hash2)
    ensures IsFedValue(u, u.View(), u.bucketSize, all) && IsFedValue(v, v.View(), v.bucketSize, late)
  {
    u := FedSketch(k, hash, hash1, hash2, all);
    ghost var view := u.View();
    v := FedBeside(u, k, hash, hash1, hash2, late);
    SameView(u, view);
  }

  lemma SameView(u: UnivSketch, view: seq<Layer>)
    requires u.Shape() && |view| == u.layer && forall l :: 0 <= l < u.layer ==> u.ViewAt(l) == view[l]
    ensures u.View() == view
  {
  }

  method FedBeside(u: UnivSketch, k: nat, hash: string -> nat, hash1: (string, nat) -> nat, hash2: (string, nat) -> nat,
                   events: seq<Event>) returns (v: UnivSketch)
    requires k >= 1 && u.Shape()
    ensures v.Shape() && HashedBy(v, hash, hash1, hash2) && IsFedValue(v, v.View(), v.bucketSize, events)
    ensures u.bucketSize == old(u.bucketSize) && forall l :: 0 <= l < u.layer ==> u.ViewAt(l) == old(u.ViewAt(l))
  {
    v := FedSketch(k, hash, hash1, hash2, events);
  }

  // ------------------------------------------------------------------ one key, fed twice

  lemma LoneTally(key: string, t1: int, t2: int)
    ensures Tally([Event(t1, key), Event(t2, key)]) == map[key := 2]
    ensures Tally([Event(t1, key)]) == map[key := 1]
  {
    assert [Event(t1, key)][..0] == [];
    assert Tally([Event(t1, key)]) == Added(map[], key, 1) == map[key := 1];
    assert [Event(t1, key), Event(t2, key)][..1] == [Event(t1, key)];
    assert Added(map[key := 1], key, 1) == map[key := 2];
  }

  lemma LoneIsRoomy(u: UnivSketch, view: seq<Layer>, size: int, key: string, t1: int, t2: int)
    requires u.Shape() && u.optimized && |view| == u.layer == LAYERS
    requires IsFedValue(u, view, size, [Event(t1, key), Event(t2, key)])
    ensures Roomy(u, view, size, [Event(t1, key), Event(t2, key)])
  {
    LoneTally(key, t1, t2);
    forall l | 0 <= l < LAYERS
      ensures |KeysAt(map[key := 2], u.hash, l)| <= u.hhLayers[l].k
    {
      u.SubsetSize(KeysAt(map[key := 2], u.hash, l), {key});
    }
  }

  lemma LoneHeaps(u: UnivSketch, v: UnivSketch, a: seq<Layer>, b: seq<Layer>, sizeA: int, sizeB: int, d: Content,
                  h: Hashing, key: string, t1: int, t2: int)
    requires u.Shape() && v.Shape() && u.optimized && |a| == |b| == u.layer == v.layer == LAYERS && SameFunctions(u, v)
    requires IsFedValue(u, a, sizeA, [Event(t1, key), Event(t2, key)]) && IsFedValue(v, b, sizeB, [Event(t2, key)])
    requires IsSubtracted(u, a, b, sizeA, sizeB, d, h)
    ensures Absorbed(SharesOf(u), d, [Event(t1, key)])
    ensures HeapsOfAnswer(u, d.heaps, map[key := 2], [Event(t1, key)])
  {
    var early, late := [Event(t1, key)], [Event(t2, key)];
    assert early + late == [Event(t1, key), Event(t2, key)];
    LoneTally(key, t1, t2);
    LoneIsRoomy(u, a, sizeA, key, t1, t2);
    SubtractedIsAnswer(u, v, a, b, sizeA, sizeB, d, h, early, late);
    HeapsOfRun(u, a, sizeA, d, h, early, late);
  }

  lemma LoneSum(u: UnivSketch, heaps: seq<seq<Item>>, key: string, t1: int, t2: int, bottom: nat, g: real -> real)
    requires u.layer == LAYERS && HeapsOfAnswer(u, heaps, map[key := 2], [Event(t1, key)])
    requires u.IsBottom(key, bottom) && bottom >= 2
    ensures Y(heaps, u.hash, Zeros(LAYERS), g, 0) == (Pow2(bottom) - 1) as real * g(1 as real)
  {
    LoneTally(key, t1, t2);
    LoneKey(u, heaps, map[key := 2], [Event(t1, key)], g, key, bottom, 1);
  }

  /** The answer from these two sketches counts the sample between them 2^b - 1 times. */
  ghost predicate CountsAgain(u: UnivSketch, a: seq<Layer>, b: seq<Layer>, sizeA: int, sizeB: int, key: string,
                              bottom: nat, g: real -> real, d: Content, h: Hashing)
    requires u.Shape() && |a| == |b| == u.layer == LAYERS
  {
    IsSubtracted(u, a, b, sizeA, sizeB, d, h) ==>
      Y(d.heaps, u.hash, Zeros(LAYERS), g, 0) == (Pow2(bottom) - 1) as real * g(1 as real)
  }

  lemma LoneCounts(u: UnivSketch, v: UnivSketch, a: seq<Layer>, b: seq<Layer>, sizeA: int, sizeB: int, key: string,
                   t1: int, t2: int, bottom: nat, g: real -> real)
    requires u.Shape() && v.Shape() && u.optimized && |a| == |b| == u.layer == v.layer == LAYERS && SameFunctions(u, v)
    requires IsFedValue(u, a, sizeA, [Event(t1, key), Event(t2, key)]) && IsFedValue(v, b, sizeB, [Event(t2, key)])
    requires u.IsBottom(key, bottom) && bottom >= 2
    ensures forall d, h :: CountsAgain(u, a, b, sizeA, sizeB, key, bottom, g, d, h)
  {
    forall d, h
      ensures CountsAgain(u, a, b, sizeA, sizeB, key, bottom, g, d, h)
    {
      if IsSubtracted(u, a, b, sizeA, sizeB, d, h) {
        LoneHeaps(u, v, a, b, sizeA, sizeB, d, h, key, t1, t2);
        LoneSum(u, d.heaps, key, t1, t2, bottom, g);
      }
    }
  }

  /**
    Two samples of one key whose hash reaches layer 2: the histogram's answer for the first one counts it
    more than once, whatever the statistic.
   */
  method LoneRun(k: nat, hash: string -> nat, hash1: (string, nat) -> nat, hash2: (string, nat) -> nat,
                 key: string, t1: int, t2: int, ghost g: real -> real)
    returns (u: UnivSketch, v: UnivSketch, ghost bottom: nat)
    requires k >= 1 && Reaches(hash(key), 2)
    ensures u.Shape() && v.Shape() && HashedBy(u, hash, hash1, hash2) && HashedBy(v, hash, hash1, hash2)
    ensures IsFedValue(u, u.View(), u.bucketSize, [Event(t1, key), Event(t2, key)])
    ensures IsFedValue(v, v.View(), v.bucketSize, [Event(t2, key)])
    ensures u.IsBottom(key, bottom) && bottom >= 2
    ensures forall d, h :: CountsAgain(u, u.View(), v.View(), u.bucketSize, v.bucketSize, key, bottom, g, d, h)
  {
    u, v := TwoSketches(k, hash, hash1, hash2, [Event(t1, key), Event(t2, key)], [Event(t2, key)]);
    bottom := BottomOf(hash(key), LAYERS);
    HashedAlike(u, v, hash, hash1, hash2);
    LoneCounts(u, v, u.View(), v.View(), u.bucketSize, v.bucketSize, key, t1, t2, bottom, g);
  }
}
