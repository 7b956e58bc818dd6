/** The count sketch of one UnivMon layer: internal/promsketch/CountSketchUniv.go. */
module CountSketch {

  /** One update: the key, its position and sign per row, and the weight added. */
  datatype Entry = Entry(key: string, pos: seq<nat>, sign: seq<int>, count: int)

  /** Every update since the sketch was last clean, newest outermost. */
  datatype Log = Clean | Then(past: Log, entry: Entry)

  ghost function Contribution(e: Entry, r: nat, c: nat): int {
    if r < |e.pos| && r < |e.sign| && e.pos[r] == c then e.sign[r] * e.count else 0
  }

  /** What the log puts into one counter. */
  ghost function Counter(log: Log, r: nat, c: nat): int {
    match log
    case Clean => 0
    case Then(past, e) => Counter(past, r, c) + Contribution(e, r, c)
  }

  /** The exact weight of a key. */
  ghost function Total(log: Log, key: string): int {
    match log
    case Clean => 0
    case Then(past, e) => Total(past, key) + if e.key == key then e.count else 0
  }

  /** In row r every update of the key used (c, s), and no other key touched position c. */
  ghost predicate Alone(log: Log, key: string, r: nat, c: nat, s: int) {
    match log
    case Clean => true
    case Then(past, e) =>
      && Alone(past, key, r, c, s)
      && r < |e.pos| && r < |e.sign|
      && (if e.key == key then e.pos[r] == c && e.sign[r] == s else e.pos[r] != c)
  }

  lemma SignTwice(s: int, a: int, b: int)
    requires s == 1 || s == -1
    ensures s * (a + s * b) == s * a + b
  {
  }

  /** In a collision-free row the signed counter is the exact total. */
  lemma {:induction false} AloneIsExact(log: Log, key: string, r: nat, c: nat, s: int)
    requires Alone(log, key, r, c, s) && (s == 1 || s == -1)
    ensures s * Counter(log, r, c) == Total(log, key)
  {
    match log
    case Clean =>
    case Then(past, e) =>
      AloneIsExact(past, key, r, c, s);
      SignTwice(s, Counter(past, r, c), e.count);
  }

  function MedianOfThree(a: int, b: int, c: int): (m: int)
    ensures m == a || m == b || m == c
    ensures (a <= m || b <= m) && (b <= m || c <= m) && (a <= m || c <= m)
    ensures (m <= a || m <= b) && (m <= b || m <= c) && (m <= a || m <= c)
  {
    if a <= b <= c || c <= b <= a then b
    else if a <= c <= b || b <= c <= a then c
    else a
  }

  /** The estimate read through given positions and signs, from what the log puts into the counters. */
  ghost function Estimate(log: Log, pos: seq<nat>, sign: seq<int>): int
    requires |pos| >= 3 && |sign| >= 3
  {
    MedianOfThree(sign[0] * Counter(log, 0, pos[0]), sign[1] * Counter(log, 1, pos[1]),
      sign[2] * Counter(log, 2, pos[2]))
  }

  ghost predicate AloneAt(log: Log, key: string, pos: seq<nat>, sign: seq<int>, r: nat)
    requires r < |pos| && r < |sign|
  {
    Alone(log, key, r, pos[r], sign[r])
  }

  /** A key without collisions in at least two of the three rows is estimated exactly. */
  lemma EstimateIsExact(log: Log, key: string, pos: seq<nat>, sign: seq<int>, r1: nat, r2: nat)
    requires |pos| == 3 && |sign| == 3 && forall r :: 0 <= r < 3 ==> sign[r] == 1 || sign[r] == -1
    requires r1 < r2 < 3 && AloneAt(log, key, pos, sign, r1) && AloneAt(log, key, pos, sign, r2)
    ensures Estimate(log, pos, sign) == Total(log, key)
  {
    AloneIsExact(log, key, r1, pos[r1], sign[r1]);
    AloneIsExact(log, key, r2, pos[r2], sign[r2]);
  }

  ghost function SquareSum(s: seq<int>): int {
    if s == [] then 0 else SquareSum(s[..|s| - 1]) + s[|s| - 1] * s[|s| - 1]
  }

  lemma {:induction false} SquareSumUpdate(s: seq<int>, c: nat, v: int)
    requires c < |s|
    ensures SquareSum(s[c := v]) == SquareSum(s) + v * v - s[c] * s[c]
  {
    var t, n := s[c := v], |s| - 1;
    if c == n {
      assert t[..n] == s[..n];
    } else {
      assert t[..n] == s[..n][c := v];
      SquareSumUpdate(s[..n], c, v);
    }
  }

  lemma {:induction false} SquareSumSign(s: seq<int>)
    ensures SquareSum(s) >= 0
    ensures SquareSum(s) == 0 <==> forall i :: 0 <= i < |s| ==> s[i] == 0
  {
    if s == [] {
    } else {
      var n := |s| - 1;
      SquareSumSign(s[..n]);
      OneSquare(s[n]);
      assert forall i :: 0 <= i < n ==> s[..n][i] == s[i];
    }
  }

  lemma OneSquare(x: int)
    ensures x * x >= 0 && (x * x == 0 <==> x == 0)
  {
  }

  lemma {:induction false} SquareSumZero(s: seq<int>)
    requires forall c :: 0 <= c < |s| ==> s[c] == 0
    ensures SquareSum(s) == 0
  {
    if s != [] {
      SquareSumZero(s[..|s| - 1]);
    }
  }

  class CountSketchUniv {
    const row: nat
    const col: nat
    const count: array2<int>
    const l2: array<int>
    /** The seeded hash functions of the rows: position hash and sign hash. */
    const hash1: (string, nat) -> nat
    const hash2: (string, nat) -> nat
    ghost var log: Log

    ghost function Row(r: nat): seq<int>
      requires r < count.Length0
      reads count
    {
      seq(count.Length1, c requires 0 <= c < count.Length1 reads count => count[r, c])
    }

    ghost predicate Shape() {
      && 1 <= row && 1 <= col
      && count.Length0 == row && count.Length1 == col && l2.Length == row
    }

    ghost predicate CountersAre(lg: Log)
      requires Shape()
      reads count
    {
      forall r, c :: 0 <= r < row && 0 <= c < col ==> count[r, c] == Counter(lg, r, c)
    }

    /** The counters are what the log of updates put into them. */
    ghost predicate Valid()
      reads this, count
    {
      Shape() && CountersAre(log)
    }

    /** l2[r] is the sum of the squared counters of row r. */
    ghost predicate NormIsExact()
      requires Shape()
      reads count, l2
    {
      forall r :: 0 <= r < row ==> l2[r] == SquareSum(Row(r))
    }

    constructor (row: nat, col: nat, hash1: (string, nat) -> nat, hash2: (string, nat) -> nat)
      requires row > 0 && col > 0
      ensures this.row == (if row > 3 then 3 else row) && this.col == (if col > 2048 then 2048 else col)
      ensures this.hash1 == hash1 && this.hash2 == hash2
      ensures Valid() && NormIsExact() && log == Clean && forall r :: 0 <= r < this.row ==> l2[r] == 0
      ensures fresh(count) && fresh(l2)
    {
      var rows, cols := if row > 3 then 3 else row, if col > 2048 then 2048 else col;
      this.row, this.col, this.hash1, this.hash2 := rows, cols, hash1, hash2;
      count := new int[rows, cols]((r, c) => 0);
      l2 := new int[rows](r => 0);
      log := Clean;
      new;
      forall r | 0 <= r < this.row
        ensures SquareSum(Row(r)) == 0
      {
        SquareSumZero(Row(r));
      }
    }

    ghost predicate Fits(pos: seq<nat>, sign: seq<int>) {
      |pos| <= row && |sign| == |pos| && forall r :: 0 <= r < |pos| ==> pos[r] < col
    }

    ghost function Positions(key: string): (pos: seq<nat>)
      requires col > 0
      ensures |pos| == row && forall r :: 0 <= r < row ==> pos[r] < col
    {
      seq(row, r requires 0 <= r < row => hash1(key, r) % col)
    }

    ghost function Signs(key: string): (sign: seq<int>)
      ensures |sign| == row && forall r :: 0 <= r < row ==> sign[r] == 1 || sign[r] == -1
    {
      seq(row, r requires 0 <= r < row => 1 - 2 * (hash2(key, r) % 2))
    }

    method PositionAndSign(key: string) returns (pos: seq<nat>, sign: seq<int>)
      requires Shape()
      ensures pos == Positions(key) && sign == Signs(key) && Fits(pos, sign)
    {
      pos, sign := [], [];
      for i := 0 to row
        invariant |pos| == |sign| == i
        invariant forall r :: 0 <= r < i ==> pos[r] == hash1(key, r) % col && sign[r] == 1 - 2 * (hash2(key, r) % 2)
      {
        var s := hash2(key, i) % 2;
        pos := pos + [hash1(key, i) % col];
        sign := sign + [1 - s * 2];
      }
    }

    method UpdateString(key: string, weight: int, pos: seq<nat>, sign: seq<int>)
      requires Valid() && Fits(pos, sign)
      modifies this, count, l2
      ensures Valid() && log == Then(old(log), Entry(key, pos, sign, weight))
      ensures old(NormIsExact()) ==> NormIsExact()
    {
      ghost var next := Then(log, Entry(key, pos, sign, weight));
      var r := 0;
      while r < |pos|
        invariant 0 <= r <= |pos| && log == old(log)
        invariant forall q, c :: 0 <= q < row && 0 <= c < col ==>
          count[q, c] == if q < r then Counter(next, q, c) else Counter(log, q, c)
        invariant old(NormIsExact()) ==> NormIsExact()
      {
        var c := pos[r];
        label L:
        ghost var before := Row(r);
        var cur := count[r, c];
        count[r, c] := count[r, c] + sign[r] * weight;
        l2[r] := l2[r] + count[r, c] * count[r, c] - cur * cur;
        SquareSumUpdate(before, c, count[r, c]);
        assert Row(r) == before[c := count[r, c]];
        assert forall q :: 0 <= q < row && q != r ==> Row(q) == old@L(Row(q));
        r := r + 1;
      }
      log := next;
    }

    /** The same without the norms, as the layers below the first use it. */
    method UpdateStringNoL2(key: string, weight: int, pos: seq<nat>, sign: seq<int>)
      requires Valid() && Fits(pos, sign)
      modifies this, count
      ensures Valid() && log == Then(old(log), Entry(key, pos, sign, weight))
    {
      ghost var next := Then(log, Entry(key, pos, sign, weight));
      var r := 0;
      while r < |pos|
        invariant 0 <= r <= |pos| && log == old(log)
        invariant forall q, c :: 0 <= q < row && 0 <= c < col ==>
          count[q, c] == if q < r then Counter(next, q, c) else Counter(log, q, c)
      {
        count[r, pos[r]] := count[r, pos[r]] + sign[r] * weight;
        r := r + 1;
      }
      log := next;
    }

    /** Median of the three signed counters at the given positions. */
    method ReadEstimate(pos: seq<nat>, sign: seq<int>) returns (estimate: int)
      requires Valid() && row == 3 && |pos| == 3 && Fits(pos, sign)
      ensures estimate == Estimate(log, pos, sign)
    {
      var counters: seq<int> := [];
      for r := 0 to 3
        invariant |counters| == r
        invariant forall q :: 0 <= q < r ==> counters[q] == sign[q] * Counter(log, q, pos[q])
      {
        counters := counters + [sign[r] * count[r, pos[r]]];
      }
      estimate := MedianOfThree(counters[0], counters[1], counters[2]);
    }

    method UpdateAndEstimateString(key: string, weight: int, pos: seq<nat>, sign: seq<int>) returns (estimate: int)
      requires Valid() && row == 3 && |pos| == 3 && Fits(pos, sign)
      modifies this, count, l2
      ensures Valid() && log == Then(old(log), Entry(key, pos, sign, weight))
      ensures old(NormIsExact()) ==> NormIsExact()
      ensures estimate == Estimate(log, pos, sign)
    {
      UpdateString(key, weight, pos, sign);
      estimate := ReadEstimate(pos, sign);
    }

    method UpdateAndEstimateStringNoL2(key: string, weight: int, pos: seq<nat>, sign: seq<int>) returns (estimate: int)
      requires Valid() && row == 3 && |pos| == 3 && Fits(pos, sign)
      modifies this, count
      ensures Valid() && log == Then(old(log), Entry(key, pos, sign, weight))
      ensures estimate == Estimate(log, pos, sign)
    {
      UpdateStringNoL2(key, weight, pos, sign);
      estimate := ReadEstimate(pos, sign);
    }

    method EstimateStringCount(key: string) returns (estimate: int)
      requires Valid() && row == 3
      ensures estimate == Estimate(log, Positions(key), Signs(key))
    {
      var pos, sign := PositionAndSign(key);
      estimate := ReadEstimate(pos, sign);
    }

    /** cs_l22: the median of the three row norms, each the energy of its row while they are exact. */
    method CsL22() returns (f2: int)
      requires Shape() && row == 3
      ensures f2 == MedianOfThree(l2[0], l2[1], l2[2])
      ensures NormIsExact() ==> f2 == MedianOfThree(SquareSum(Row(0)), SquareSum(Row(1)), SquareSum(Row(2)))
    {
      f2 := MedianOfThree(l2[0], l2[1], l2[2]);
    }

    /** Zeroes every row by doubling copies, whatever the number of columns. */
    method CleanCountSketchUniv()
      requires Shape()
      modifies this, count, l2
      ensures Valid() && NormIsExact() && log == Clean && forall r :: 0 <= r < row ==> l2[r] == 0
    {
      var r := 0;
      while r < row
        invariant 0 <= r <= row
        invariant forall q, c :: 0 <= q < r && 0 <= c < col ==> count[q, c] == 0
        invariant forall q :: 0 <= q < r ==> l2[q] == 0
      {
        count[r, 0] := 0;
        var c := 1;
        while c < col
          invariant 1 <= c
          invariant forall q, d :: 0 <= q < r && 0 <= d < col ==> count[q, d] == 0
          invariant forall d :: 0 <= d < col && d < c ==> count[r, d] == 0
          invariant forall q :: 0 <= q < r ==> l2[q] == 0
        {
          var n := if c <= col - c then c else col - c;
          forall d | c <= d < c + n {
            count[r, d] := count[r, d - c];
          }
          c := 2 * c;
        }
        l2[r] := 0;
        r := r + 1;
      }
      log := Clean;
      forall q | 0 <= q < row
        ensures SquareSum(Row(q)) == 0
      {
        SquareSumZero(Row(q));
      }
    }
  }

  /** Rejects empty shapes; caps the rows at 3 and the columns at 2048. */
  method NewCountSketchUniv(row: int, col: int, hash1: (string, nat) -> nat, hash2: (string, nat) -> nat)
    returns (s: CountSketchUniv?)
    ensures s == null <==> row <= 0 || col <= 0
    ensures s != null ==> fresh(s) && s.Valid() && s.NormIsExact() && s.log == Clean
    ensures s != null ==> s.row == (if row > 3 then 3 else row) && s.col == (if col > 2048 then 2048 else col)
    ensures s != null ==> s.hash1 == hash1 && s.hash2 == hash2
  {
    if row <= 0 || col <= 0 {
      return null;
    }
    s := new CountSketchUniv(row, col, hash1, hash2);
  }
}
