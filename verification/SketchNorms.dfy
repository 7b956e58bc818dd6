/**
  When the norm that thinning compares, the first layer's cs_l2, shrinks with the suffix:
  signed counters can cancel, internal/promsketch/CountSketchUniv.go.
*/
module SketchNorms {
  import opened CountSketch
  import opened NormThinning
  import opened SketchAnswers
  import opened SketchContent
  import opened UnivMon

  ghost function RowSum(counts: Counters, r: nat): int {
    if Shaped(counts) && r < ROWS then SquareSum(counts[0][r]) else 0
  }

  /** cs_l2 of the first layer, for any square root. */
  ghost function FirstLayerNorm(root: int -> real): Norm {
    (content: Content) =>
      root(MedianOfThree(RowSum(content.counts, 0), RowSum(content.counts, 1), RowSum(content.counts, 2)))
  }

  predicate Rises(root: int -> real, x: int, y: int) {
    0 <= x < y ==> root(x) < root(y)
  }

  /** Everything these samples add to the counter has the sign s. */
  ghost predicate Signed(add: Weights, h: seq<Event>, r: int, c: int, s: int) {
    forall i :: 0 <= i < |h| ==> s * add(h[i].key, 0, r, c) >= 0
  }

  ghost predicate OneSign(add: Weights, h: seq<Event>, r: int, c: int) {
    Signed(add, h, r, c, 1) || Signed(add, h, r, c, -1)
  }

  /** No two keys of the run meet in a first-layer counter with opposite signs. */
  ghost predicate OneSigned(add: Weights, h: seq<Event>) {
    forall r, c :: Cell(0, r, c) ==> OneSign(add, h, r, c)
  }

  lemma {:induction false} SignOfSum(add: Weights, h: seq<Event>, r: int, c: int, s: int)
    requires s == 1 || s == -1
    requires Signed(add, h, r, c, s)
    ensures s * CellSum(add, h, 0, r, c) >= 0
  {
    if h == [] {
    } else {
      SignOfSum(add, h[..|h| - 1], r, c, s);
    }
  }

  lemma SquareOfMore(x: int, y: int, s: int)
    requires (s == 1 || s == -1) && s * x >= 0 && s * y >= 0
    ensures y * y <= (x + y) * (x + y)
  {
    assert (x + y) * (x + y) == x * x + 2 * (x * y) + y * y;
    assert x * y >= 0 by {
      if x < 0 {
        assert (-x) * (-y) >= 0;
      }
    }
  }

  lemma CounterShrinks(add: Weights, h: seq<Event>, p: int, q: int, r: int, c: int)
    requires 0 <= p <= q <= |h| && OneSign(add, h, r, c)
    ensures var x, y := CellSum(add, h[q..], 0, r, c), CellSum(add, h[p..], 0, r, c); x * x <= y * y
  {
    var s := if Signed(add, h, r, c, 1) then 1 else -1;
    assert h[p..] == h[p..q] + h[q..];
    CellSumPlus(add, h[p..q], h[q..], 0, r, c);
    SignOfSum(add, h[p..q], r, c, s);
    SignOfSum(add, h[q..], r, c, s);
    SquareOfMore(CellSum(add, h[p..q], 0, r, c), CellSum(add, h[q..], 0, r, c), s);
  }

  predicate SquareLe(a: seq<int>, b: seq<int>, i: int) {
    0 <= i < |a| && i < |b| ==> a[i] * a[i] <= b[i] * b[i]
  }

  lemma {:induction false} SquareSumLe(a: seq<int>, b: seq<int>)
    requires |a| == |b| && forall i :: SquareLe(a, b, i)
    ensures SquareSum(a) <= SquareSum(b)
  {
    if a == [] {
    } else {
      var n := |a| - 1;
      forall i
        ensures SquareLe(a[..n], b[..n], i)
      {
        assert SquareLe(a, b, i);
      }
      SquareSumLe(a[..n], b[..n]);
      assert SquareLe(a, b, n);
    }
  }

  lemma RowShrinks(add: Weights, a: Content, b: Content, h: seq<Event>, p: int, q: int, r: nat)
    requires 0 <= p <= q <= |h| && r < ROWS && OneSigned(add, h)
    requires Absorbed(add, a, h[p..]) && Absorbed(add, b, h[q..])
    ensures 0 <= RowSum(b.counts, r) <= RowSum(a.counts, r)
  {
    var x, y := b.counts[0][r], a.counts[0][r];
    forall c
      ensures SquareLe(x, y, c)
    {
      if 0 <= c < Columns(0) {
        assert Cell(0, r, c) && OneSign(add, h, r, c);
        CounterShrinks(add, h, p, q, r, c);
      }
    }
    SquareSumLe(x, y);
    SquareSumSign(x);
  }

  /** Without opposite signs in a counter the norm of a later suffix is never larger. */
  lemma OneSignedIsMonotone(add: Weights, root: int -> real, h: seq<Event>)
    requires OneSigned(add, h) && forall x, y :: Rises(root, x, y)
    ensures MonotoneNorm(add, FirstLayerNorm(root), h)
  {
    var l2 := FirstLayerNorm(root);
    forall p, q
      ensures SuffixesShrink(add, l2, h, p, q)
    {
      if 0 <= p <= q <= |h| {
        forall a, b | Absorbed(add, a, h[p..]) && Absorbed(add, b, h[q..])
          ensures l2(b) <= l2(a)
        {
          RowShrinks(add, a, b, h, p, q, 0);
          RowShrinks(add, a, b, h, p, q, 1);
          RowShrinks(add, a, b, h, p, q, 2);
          MedianRises(root, a, b);
        }
      }
    }
  }

  lemma MedianRises(root: int -> real, a: Content, b: Content)
    requires forall x, y :: Rises(root, x, y)
    requires forall r :: 0 <= r < ROWS ==> 0 <= RowSum(b.counts, r) <= RowSum(a.counts, r)
    ensures FirstLayerNorm(root)(b) <= FirstLayerNorm(root)(a)
  {
    var x := MedianOfThree(RowSum(b.counts, 0), RowSum(b.counts, 1), RowSum(b.counts, 2));
    var y := MedianOfThree(RowSum(a.counts, 0), RowSum(a.counts, 1), RowSum(a.counts, 2));
    assert 0 <= x <= y;
    assert Rises(root, x, y);
  }

  /** The hash functions of u give no two keys of the run one first-layer column with opposite signs in a row. */
  ghost predicate NoClash(u: UnivSketch, h: seq<Event>)
    requires u.Shape()
  {
    forall i, j, r :: 0 <= i < |h| && 0 <= j < |h| && 0 <= r < 3 ==>
      u.PosAt(0, h[i].key)[r] == u.PosAt(0, h[j].key)[r] ==> u.SignAt(h[i].key)[r] == u.SignAt(h[j].key)[r]
  }

  lemma NoClashIsOneSigned(u: UnivSketch, h: seq<Event>)
    requires u.Shape() && u.layer == LAYERS && NoClash(u, h)
    ensures OneSigned(SharesOf(u), h)
  {
    forall r, c | Cell(0, r, c)
      ensures OneSign(SharesOf(u), h, r, c)
    {
      if !Signed(SharesOf(u), h, r, c, 1) {
        var i :| 0 <= i < |h| && 1 * SharesOf(u)(h[i].key, 0, r, c) < 0;
        assert u.PosAt(0, h[i].key)[r] == c && u.SignAt(h[i].key)[r] == -1;
        forall j | 0 <= j < |h|
          ensures -1 * SharesOf(u)(h[j].key, 0, r, c) >= 0
        {
          assert u.PosAt(0, h[j].key)[r] == c ==> u.SignAt(h[j].key)[r] == -1;
        }
      }
    }
  }

  // ------------------------------------------------------------------ when counters cancel

  /** Two keys with one column and opposite signs in row r of the first layer. */
  ghost predicate Cancel(add: Weights, k1: string, k2: string, r: nat) {
    && (forall c :: Cell(0, r, c) ==> add(k1, 0, r, c) + add(k2, 0, r, c) == 0)
    && (exists c :: Cell(0, r, c) && add(k2, 0, r, c) != 0)
  }

  ghost function SketchOf(add: Weights, h: seq<Event>): (s: Content)
    ensures Absorbed(add, s, h)
  {
    Content(Fill((l, r, c) => CellSum(add, h, l, r, c)), |h|, seq(LAYERS, _ => []))
  }

  lemma SumOfPair(add: Weights, e1: Event, e2: Event, r: int, c: int)
    ensures CellSum(add, [e2], 0, r, c) == add(e2.key, 0, r, c)
    ensures CellSum(add, [e1, e2], 0, r, c) == add(e1.key, 0, r, c) + add(e2.key, 0, r, c)
  {
    assert [e1, e2][..1] == [e1] && CellSum(add, [e1], 0, r, c) == add(e1.key, 0, r, c);
  }

  lemma CancelledRow(add: Weights, a: Content, b: Content, e1: Event, e2: Event, r: nat)
    requires r < ROWS && Cancel(add, e1.key, e2.key, r)
    requires Absorbed(add, a, [e1, e2]) && Absorbed(add, b, [e2])
    ensures RowSum(a.counts, r) == 0 < RowSum(b.counts, r)
  {
    var both, late := a.counts[0][r], b.counts[0][r];
    SquareSumSign(both);
    SquareSumSign(late);
    forall c | 0 <= c < Columns(0)
      ensures both[c] == 0 && late[c] == add(e2.key, 0, r, c)
    {
      assert Cell(0, r, c);
      SumOfPair(add, e1, e2, r, c);
    }
    var c :| Cell(0, r, c) && add(e2.key, 0, r, c) != 0;
    assert late[c] != 0;
  }

  /** Two keys that cancel in two rows make a sketch of both lighter than one of the second alone. */
  lemma CancellingKeysBreakIt(add: Weights, root: int -> real, e1: Event, e2: Event, r1: nat, r2: nat)
    requires r1 < r2 < ROWS && Cancel(add, e1.key, e2.key, r1) && Cancel(add, e1.key, e2.key, r2)
    requires forall x, y :: Rises(root, x, y)
    ensures !MonotoneNorm(add, FirstLayerNorm(root), [e1, e2])
  {
    var both, late := SketchOf(add, [e1, e2]), SketchOf(add, [e2]);
    CancelledRow(add, both, late, e1, e2, r1);
    CancelledRow(add, both, late, e1, e2, r2);
    NormRises(root, both, late, r1, r2);
    assert [e1, e2][0..] == [e1, e2] && [e1, e2][1..] == [e2];
    assert !SuffixesShrink(add, FirstLayerNorm(root), [e1, e2], 0, 1);
  }

  lemma NormRises(root: int -> real, a: Content, b: Content, r1: nat, r2: nat)
    requires r1 < r2 < ROWS && forall x, y :: Rises(root, x, y)
    requires RowSum(a.counts, r1) == 0 == RowSum(a.counts, r2)
    requires RowSum(b.counts, r1) > 0 && RowSum(b.counts, r2) > 0
    ensures FirstLayerNorm(root)(a) < FirstLayerNorm(root)(b)
  {
    var x := MedianOfThree(RowSum(a.counts, 0), RowSum(a.counts, 1), RowSum(a.counts, 2));
    var y := MedianOfThree(RowSum(b.counts, 0), RowSum(b.counts, 1), RowSum(b.counts, 2));
    assert x == 0 && y > 0;
    assert Rises(root, x, y);
  }
}
