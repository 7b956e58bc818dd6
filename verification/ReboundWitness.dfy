/**
  A run of the smooth histogram over the signed first-layer norm whose thinned list does not drop:
  internal/promsketch/SmoothHistogram.go over internal/promsketch/CountSketchUniv.go.
*/
module ReboundWitness {
  import opened CountSketch
  import opened NormThinning
  import opened SketchAnswers
  import opened SketchContent
  import opened SketchNorms
  import opened SmoothBuckets
  import opened SmoothHistogram
  import opened UnivMon

  // ------------------------------------------------------------------ norms of a run over two cancelling keys

  /** In row r the key has one column, with the sign 1 or -1. */
  ghost predicate OnePlace(add: Weights, key: string, r: nat, c: nat) {
    && Cell(0, r, c) && (add(key, 0, r, c) == 1 || add(key, 0, r, c) == -1)
    && forall d :: Cell(0, r, d) && d != c ==> add(key, 0, r, d) == 0
  }

  /** Both keys share their column in row r, with opposite signs. */
  ghost predicate Opposed(add: Weights, p: string, q: string, r: nat, c: nat) {
    p != q && r < ROWS && OnePlace(add, p, r, c) && forall d :: Cell(0, r, d) ==> add(q, 0, r, d) == -add(p, 0, r, d)
  }

  ghost predicate TwoKeys(h: seq<Event>, p: string, q: string) {
    forall i :: 0 <= i < |h| ==> h[i].key == p || h[i].key == q
  }

  /** Occurrences of p less those of the other key. */
  ghost function Net(h: seq<Event>, p: string): int {
    if h == [] then 0 else Net(h[..|h| - 1], p) + if h[|h| - 1].key == p then 1 else -1
  }

  lemma {:induction false} NetPlus(a: seq<Event>, b: seq<Event>, p: string)
    ensures Net(a + b, p) == Net(a, p) + Net(b, p)
  {
    if b == [] {
      assert a + b == a;
    } else {
      assert (a + b)[..|a + b| - 1] == a + b[..|b| - 1];
      NetPlus(a, b[..|b| - 1], p);
    }
  }

  lemma NetStep(n: int, s: int)
    ensures (n + 1) * s == n * s + s && (n - 1) * s == n * s - s
  {
  }

  lemma {:induction false} CellIsNet(add: Weights, h: seq<Event>, p: string, q: string, r: nat, c: nat, d: int)
    requires Opposed(add, p, q, r, c) && TwoKeys(h, p, q) && Cell(0, r, d)
    ensures CellSum(add, h, 0, r, d) == Net(h, p) * add(p, 0, r, d)
  {
    if h == [] {
    } else {
      CellIsNet(add, h[..|h| - 1], p, q, r, c, d);
      NetStep(Net(h[..|h| - 1], p), add(p, 0, r, d));
    }
  }

  lemma {:induction false} OneEntry(s: seq<int>, c: nat, v: int)
    requires c < |s| && s[c] == v && forall d :: 0 <= d < |s| && d != c ==> s[d] == 0
    ensures SquareSum(s) == v * v
  {
    var n := |s| - 1;
    if c == n {
      SquareSumZero(s[..n]);
    } else {
      OneEntry(s[..n], c, v);
    }
  }

  lemma RowIsNet(add: Weights, s: Content, h: seq<Event>, p: string, q: string, r: nat, c: nat)
    requires Opposed(add, p, q, r, c) && TwoKeys(h, p, q) && Absorbed(add, s, h)
    ensures RowSum(s.counts, r) == Net(h, p) * Net(h, p)
  {
    var row := s.counts[0][r];
    forall d | 0 <= d < Columns(0)
      ensures row[d] == Net(h, p) * add(p, 0, r, d)
    {
      assert Cell(0, r, d);
      CellIsNet(add, h, p, q, r, c, d);
    }
    forall d | 0 <= d < Columns(0) && d != c
      ensures row[d] == 0
    {
      assert Cell(0, r, d);
    }
    OneEntry(row, c, row[c]);
    SameSquare(Net(h, p), add(p, 0, r, c));
  }

  lemma SameSquare(n: int, s: int)
    requires s == 1 || s == -1
    ensures (n * s) * (n * s) == n * n
  {
  }

  /** The keys are opposed in two rows. */
  ghost predicate Setting(add: Weights, p: string, q: string, r1: nat, r2: nat) {
    r1 < r2 && (exists c :: Opposed(add, p, q, r1, c)) && exists c :: Opposed(add, p, q, r2, c)
  }

  /** Two keys clash in row r when their first-layer columns agree and their signs do not. */
  ghost predicate ClashAt(u: UnivSketch, p: string, q: string, r: nat)
    requires u.Shape()
  {
    r < 3 && u.PosAt(0, p)[r] == u.PosAt(0, q)[r] < Columns(0) && u.SignAt(p)[r] != u.SignAt(q)[r]
  }

  /** Real hash functions under which two keys clash in two rows give this setting. */
  lemma ClashIsSetting(u: UnivSketch, p: string, q: string, r1: nat, r2: nat)
    requires u.Shape() && u.layer == LAYERS && p != q && r1 < r2 && ClashAt(u, p, q, r1) && ClashAt(u, p, q, r2)
    ensures Setting(SharesOf(u), p, q, r1, r2)
  {
    forall r: nat | r < 3 && ClashAt(u, p, q, r)
      ensures Opposed(SharesOf(u), p, q, r, u.PosAt(0, p)[r])
    {
    }
  }

  lemma NormIsNet(add: Weights, root: int -> real, s: Content, h: seq<Event>, p: string, q: string, r1: nat, r2: nat)
    requires Setting(add, p, q, r1, r2) && TwoKeys(h, p, q) && Absorbed(add, s, h)
    ensures FirstLayerNorm(root)(s) == root(Net(h, p) * Net(h, p))
  {
    var c1 :| Opposed(add, p, q, r1, c1);
    var c2 :| Opposed(add, p, q, r2, c2);
    RowIsNet(add, s, h, p, q, r1, c1);
    RowIsNet(add, s, h, p, q, r2, c2);
    assert MedianOfThree(RowSum(s.counts, 0), RowSum(s.counts, 1), RowSum(s.counts, 2)) == Net(h, p) * Net(h, p);
  }

  // ------------------------------------------------------------------ the run p, p, q, p, p, p

  ghost function Fed(p: string, q: string): seq<Event> {
    [Event(0, p), Event(0, p), Event(0, q), Event(0, p), Event(0, p), Event(0, p)]
  }

  ghost function NetAt(n: nat): int {
    if n <= 2 then n else n - 2
  }

  lemma {:induction false} PrefixNet(p: string, q: string, n: nat)
    requires p != q && n <= 6
    ensures Net(Fed(p, q)[..n], p) == NetAt(n)
  {
    if n > 0 {
      PrefixNet(p, q, n - 1);
      assert Fed(p, q)[..n][..n - 1] == Fed(p, q)[..n - 1];
    }
  }

  lemma SuffixNet(p: string, q: string, n: nat, i: nat)
    requires p != q && i <= n <= 6
    ensures Net(Fed(p, q)[..n][i..], p) == NetAt(n) - NetAt(i)
  {
    var h := Fed(p, q)[..n];
    assert h == h[..i] + h[i..] && h[..i] == Fed(p, q)[..i];
    NetPlus(h[..i], h[i..], p);
    PrefixNet(p, q, n);
    PrefixNet(p, q, i);
  }

  /** A square root that is right on the first squares. */
  ghost predicate IsRoot(root: int -> real) {
    root(0) == 0.0 && root(1) == 1.0 && root(4) == 2.0 && root(9) == 3.0 && root(16) == 4.0
  }

  ghost function Expected(n: nat): seq<real> {
    if n == 0 then []
    else if n == 1 then [1.0]
    else if n == 2 then [2.0, 1.0]
    else if n == 3 then [1.0, 0.0, 1.0]
    else if n == 4 then [2.0, 1.0, 0.0, 1.0]
    else if n == 5 then [3.0, 2.0, 1.0, 2.0, 1.0]
    else [4.0, 3.0, 2.0, 3.0, 2.0, 1.0]
  }

  lemma RootOfNet(root: int -> real, n: nat, i: nat)
    requires IsRoot(root) && i < n <= 6
    ensures |Expected(n)| == n
    ensures root((NetAt(n) - NetAt(i)) * (NetAt(n) - NetAt(i))) == Expected(n)[i]
  {
  }

  /** The start of every sample. */
  ghost function AllStarts(n: nat): seq<nat> {
    seq(n, i => i)
  }

  lemma SuffixKeys(p: string, q: string, n: nat, i: nat)
    requires i <= n <= 6
    ensures TwoKeys(Fed(p, q)[..n][i..], p, q)
  {
    forall j | 0 <= j < n - i
      ensures Fed(p, q)[..n][i..][j].key == p || Fed(p, q)[..n][i..][j].key == q
    {
      assert Fed(p, q)[..n][i..][j] == Fed(p, q)[i + j];
    }
  }

  lemma FedNorms(add: Weights, root: int -> real, p: string, q: string, r1: nat, r2: nat, n: nat, fed: seq<real>)
    requires p != q && Setting(add, p, q, r1, r2) && IsRoot(root) && n <= 6
    requires NormsOf(add, FirstLayerNorm(root), Fed(p, q)[..n], AllStarts(n), fed)
    ensures fed == Expected(n)
  {
    forall i | 0 <= i < n
      ensures i < |Expected(n)| == n && fed[i] == Expected(n)[i]
    {
      assert NormAt(add, FirstLayerNorm(root), Fed(p, q)[..n], i, fed[i]);
      var s :| Absorbed(add, s, Fed(p, q)[..n][i..]) && fed[i] == FirstLayerNorm(root)(s);
      SuffixKeys(p, q, n, i);
      NormIsNet(add, root, s, Fed(p, q)[..n][i..], p, q, r1, r2);
      SuffixNet(p, q, n, i);
      RootOfNet(root, n, i);
    }
  }

  /** Up to the fifth sample thinning drops nothing. */
  lemma NothingDropped<T>(beta: real, n: nat, list: seq<T>, i: nat)
    requires beta == 0.5 && n <= 5 && |Expected(n)| == |list|
    ensures Survivors(beta, Expected(n), list, i) == list
    decreases n - i
  {
    if i <= n - 3 {
      assert Furthest(beta, Expected(n), i, i + 2) == i + 1;
      assert Without(Expected(n), i + 1, i + 1) == Expected(n) && Without(list, i + 1, i + 1) == list;
      NothingDropped(beta, n, list, i + 1);
    }
  }

  /** Nothing is older than two windows when all samples have time 0. */
  lemma NoneExpired(beta: real, fed: seq<real>, was: seq<nat>, starts: seq<nat>, norms: seq<real>, h: seq<Event>,
                    limit: int, n: nat)
    requires Shrunk(beta, fed, was, starts, norms, h, limit, n) && limit <= 0
    requires forall i :: 0 <= i < |h| ==> h[i].time == 0
    ensures starts == Survivors<nat>(beta, fed, was, 0) && norms == Survivors(beta, fed, fed, 0)
  {
    var kept: seq<nat> := Survivors(beta, fed, was, 0);
    var oldest := if kept == [] then 0 else kept[0];
  }

  /** After n samples: every bucket still there. */
  ghost predicate AllKept(h: SmoothHistogramUnivMon, p: string, q: string, n: nat)
    reads h, h.pool
  {
    h.Valid() && n <= 6 && h.history == Fed(p, q)[..n] && h.starts == AllStarts(n)
  }

  ghost predicate Fits(h: SmoothHistogramUnivMon, root: int -> real, p: string, q: string, r1: nat, r2: nat) {
    && p != q && Setting(h.add, p, q, r1, r2) && IsRoot(root)
    && h.l2 == FirstLayerNorm(root) && h.beta == 0.5 && h.timeWindowSize >= 0
  }

  lemma NextSample(p: string, q: string, n: nat)
    requires n < 6
    ensures Fed(p, q)[..n] + [Event(0, if n == 2 then q else p)] == Fed(p, q)[..n + 1]
    ensures AllStarts(n) + [n] == AllStarts(n + 1)
  {
  }

  lemma AfterUpdate(add: Weights, l2: Norm, root: int -> real, p: string, q: string, r1: nat, r2: nat, n: nat,
                    was: seq<nat>, history: seq<Event>, fed: seq<real>, starts: seq<nat>, norms: seq<real>, limit: int,
                    expired: nat)
    requires p != q && Setting(add, p, q, r1, r2) && IsRoot(root) && l2 == FirstLayerNorm(root) && 1 <= n <= 6
    requires was == AllStarts(n) && history == Fed(p, q)[..n] && limit <= 0
    requires NormsOf(add, l2, history, was, fed) && Shrunk(0.5, fed, was, starts, norms, history, limit, expired)
    ensures fed == Expected(n) && norms == Survivors(0.5, fed, fed, 0)
    ensures n <= 5 ==> starts == AllStarts(n)
  {
    FedNorms(add, root, p, q, r1, r2, n, fed);
    NoneExpired(0.5, fed, AllStarts(n), starts, norms, Fed(p, q)[..n], limit, expired);
    if n <= 5 {
      NothingDropped<nat>(0.5, n, AllStarts(n), 0);
    }
  }

  method FeedNext(h: SmoothHistogramUnivMon, ghost root: int -> real, p: string, q: string, ghost r1: nat,
                  ghost r2: nat, n: nat) returns (ghost fed: seq<real>)
    requires Fits(h, root, p, q, r1, r2) && n < 6 && AllKept(h, p, q, n)
    modifies h, h.pool
    ensures h.Valid() && h.history == Fed(p, q)[..n + 1] && fed == Expected(n + 1)
    ensures n + 1 <= 5 ==> AllKept(h, p, q, n + 1)
    ensures h.NormSeq() == Survivors(0.5, fed, fed, 0)
  {
    NextSample(p, q, n);
    ghost var was, before := h.starts + [n], h.history;
    var key := if n == 2 then q else p;
    ghost var expired;
    fed, expired := h.Update(0, key);
    ghost var starts, norms, history, limit := h.starts, h.NormSeq(), h.history, 0 - h.timeWindowSize * 2;
    assert history == before + [Event(0, key)] && |before| == n;
    AfterUpdate(h.add, h.l2, root, p, q, r1, r2, n + 1, was, history, fed, starts, norms, limit, expired);
  }

  /** The five updates that drop nothing. */
  method FeedFive(h: SmoothHistogramUnivMon, ghost root: int -> real, p: string, q: string, ghost r1: nat,
                  ghost r2: nat)
    requires Fits(h, root, p, q, r1, r2) && AllKept(h, p, q, 0)
    modifies h, h.pool
    ensures AllKept(h, p, q, 5)
  {
    var n := 0;
    while n < 5
      invariant 0 <= n <= 5 && AllKept(h, p, q, n)
    {
      ghost var fed := FeedNext(h, root, p, q, r1, r2, n);
      n := n + 1;
    }
  }

  /**
    The sixth update of this run drops the third bucket and leaves the norms 4, 3, 3, 2, 1: the
    third of them is close to the first.
   */
  method ReboundRun(add: Weights, rank: Ranking, hashing: Hashing, l2: Norm, ghost root: int -> real, window: int,
                    p: string, q: string, ghost r1: nat, ghost r2: nat) returns (h: SmoothHistogramUnivMon)
    requires p != q && Setting(add, p, q, r1, r2) && IsRoot(root) && l2 == FirstLayerNorm(root) && window >= 0
    ensures h.Valid() && h.history == Fed(p, q) && h.NormSeq() == [4.0, 3.0, 3.0, 2.0, 1.0]
    ensures !Thin(h.beta, h.NormSeq(), h.sCount)
  {
    h := new SmoothHistogramUnivMon(0.5, window, add, rank, hashing, l2);
    FeedFive(h, root, p, q, r1, r2);
    FeedSixth(h, root, p, q, r1, r2);
  }

  method FeedSixth(h: SmoothHistogramUnivMon, ghost root: int -> real, p: string, q: string, ghost r1: nat,
                   ghost r2: nat)
    requires Fits(h, root, p, q, r1, r2) && AllKept(h, p, q, 5)
    modifies h, h.pool
    ensures h.Valid() && h.history == Fed(p, q) && h.NormSeq() == [4.0, 3.0, 3.0, 2.0, 1.0]
    ensures !Thin(h.beta, h.NormSeq(), h.sCount)
  {
    ghost var fed := FeedNext(h, root, p, q, r1, r2, 5);
    ghost var norms, beta, history := h.NormSeq(), h.beta, h.history;
    SixthIsNotThin(beta, fed, norms, history, p, q, 6);
  }

  lemma SixthIsNotThin(beta: real, fed: seq<real>, norms: seq<real>, history: seq<Event>, p: string, q: string, n: nat)
    requires n == 6 && beta == 0.5 && fed == Expected(n) && norms == Survivors(0.5, fed, fed, 0)
    requires history == Fed(p, q)[..n]
    ensures norms == [4.0, 3.0, 3.0, 2.0, 1.0] && !Thin(beta, norms, |norms|) && history == Fed(p, q)
  {
    ReboundIsKept(beta, fed);
    assert !Drops(beta, norms, 0);
  }
}
