/**
  What a stream of samples leaves in the ring of rounded counters of internal/promsketch/sum.go:
  bits, remainder, ring contents and the sum over the window.
*/
module RingStream {
  import opened RealFacts

  datatype SumArr = SumArr(bit: int, maxTime: int)

  /** A sample as a share of R, the largest value expected. */
  datatype Sample = Sample(time: int, share: real)

  const ZERO: SumArr := SumArr(0, 0)

  /** T is what one unit of a bit stands for; `bit` is what is stored when remainder and new share come to v. */
  datatype Config = Config(window: nat, t: real, bit: real -> int) {
    predicate Ok() {
      window >= 1 && t > 0.0
    }
  }

  // ------------------------------------------------------------------ what a stream of samples leaves

  /** Exact sum of the shares. */
  ghost function Total(s: seq<Sample>): real {
    if s == [] then 0.0 else Total(s[..|s| - 1]) + s[|s| - 1].share
  }

  /** The remainder y after these samples. */
  ghost function Carry(c: Config, s: seq<Sample>): real
    requires c.Ok()
  {
    if s == [] then 0.0
    else
      var v := Carry(c, s[..|s| - 1]) + s[|s| - 1].share;
      v - Multiple(c.t, c.bit(v))
  }

  /** The bit stored for the last sample. */
  ghost function LastBit(c: Config, s: seq<Sample>): int
    requires c.Ok() && s != []
  {
    c.bit(Carry(c, s[..|s| - 1]) + s[|s| - 1].share)
  }

  ghost function BitSum(c: Config, s: seq<Sample>): int
    requires c.Ok()
  {
    if s == [] then 0 else BitSum(c, s[..|s| - 1]) + LastBit(c, s)
  }

  lemma CarryStep(c: Config, s: seq<Sample>, e: Sample)
    requires c.Ok()
    ensures var bit := c.bit(Carry(c, s) + e.share);
      LastBit(c, s + [e]) == bit && Carry(c, s + [e]) == Carry(c, s) + e.share - Multiple(c.t, bit)
  {
    assert (s + [e])[..|s|] == s;
  }

  /** Nothing is lost to rounding: what the bits do not say is in the remainder. */
  lemma {:induction false} Telescopes(c: Config, s: seq<Sample>)
    requires c.Ok()
    ensures Total(s) == Multiple(c.t, BitSum(c, s)) + Carry(c, s)
  {
    if s != [] {
      Telescopes(c, s[..|s| - 1]);
      MultiplePlus(c.t, BitSum(c, s[..|s| - 1]), LastBit(c, s));
    }
  }

  // ------------------------------------------------------------------ the ring

  /** What the ring keeps of sample k; nothing for places not written yet. */
  ghost function Cell(c: Config, s: seq<Sample>, k: int): SumArr
    requires c.Ok() && k < |s|
  {
    if k < 0 then ZERO else SumArr(LastBit(c, s[..k + 1]), s[k].time)
  }

  lemma CellStays(c: Config, s: seq<Sample>, x: Sample, k: int)
    requires c.Ok() && k < |s|
    ensures Cell(c, s + [x], k) == Cell(c, s, k)
  {
    assert k >= 0 ==> (s + [x])[..k + 1] == s[..k + 1];
  }

  /** Which sample position j of the ring holds when position i is written next. */
  function Held(c: Config, n: nat, i: nat, j: nat): int {
    if j < i then n - i + j else n - i + j - c.window
  }

  ghost predicate PlaceIs(c: Config, s: seq<Sample>, ring: seq<SumArr>, i: nat, j: nat)
    requires c.Ok() && j < |ring| && i <= |s| && j < i + c.window
  {
    ring[j] == Cell(c, s, Held(c, |s|, i, j))
  }

  ghost predicate RingIs(c: Config, s: seq<Sample>, ring: seq<SumArr>, i: nat)
    requires c.Ok()
  {
    && |ring| == c.window && i < c.window && i <= |s|
    && forall j :: 0 <= j < c.window ==> PlaceIs(c, s, ring, i, j)
  }

  /** The position after i, round the ring. */
  function Next(c: Config, i: nat): nat {
    if i + 1 == c.window then 0 else i + 1
  }

  method Advance(c: Config, i: nat) returns (next: nat)
    requires c.Ok() && i < c.window
    ensures next == Next(c, i)
  {
    next := (i + 1) % c.window;
  }

  lemma RingStep(c: Config, s: seq<Sample>, ring: seq<SumArr>, i: nat, x: Sample)
    requires c.Ok() && RingIs(c, s, ring, i)
    ensures ring[i] == Cell(c, s, |s| - c.window)
    ensures RingIs(c, s + [x], ring[i := SumArr(LastBit(c, s + [x]), x.time)], Next(c, i))
  {
    assert PlaceIs(c, s, ring, i, i);
    var after := ring[i := SumArr(LastBit(c, s + [x]), x.time)];
    var next := Next(c, i);
    assert (s + [x])[..|s| + 1] == s + [x];
    forall j | 0 <= j < c.window
      ensures PlaceIs(c, s + [x], after, next, j)
    {
      if j != i {
        assert PlaceIs(c, s, ring, i, j);
        CellStays(c, s, x, Held(c, |s|, i, j));
      }
    }
  }

  ghost function RingSum(ring: seq<SumArr>): int {
    if ring == [] then 0 else RingSum(ring[..|ring| - 1]) + ring[|ring| - 1].bit
  }

  lemma {:induction false} RingSumUpdate(ring: seq<SumArr>, i: nat, a: SumArr)
    requires i < |ring|
    ensures RingSum(ring[i := a]) == RingSum(ring) - ring[i].bit + a.bit
  {
    var n := |ring| - 1;
    if i == n {
      assert ring[i := a][..n] == ring[..n];
    } else {
      RingSumUpdate(ring[..n], i, a);
      assert ring[i := a][..n] == ring[..n][i := a];
    }
  }

  lemma {:induction false} RingOfZeros(ring: seq<SumArr>)
    requires forall j :: 0 <= j < |ring| ==> ring[j] == ZERO
    ensures RingSum(ring) == 0
  {
    if ring != [] {
      RingOfZeros(ring[..|ring| - 1]);
    }
  }

  // ------------------------------------------------------------------ the window

  /** Samples that have left the window. */
  ghost function Gone(c: Config, s: seq<Sample>): (g: seq<Sample>)
    requires c.Ok()
    ensures |g| <= |s| && g == s[..|g|] && |s| - |g| <= c.window
  {
    if |s| <= c.window then [] else s[..|s| - c.window]
  }

  /** Exact sum of the shares of the last `window` samples. */
  ghost function WindowTotal(c: Config, s: seq<Sample>): real
    requires c.Ok()
  {
    Total(s) - Total(Gone(c, s))
  }

  lemma {:induction false} TotalPlus(a: seq<Sample>, b: seq<Sample>)
    ensures Total(a + b) == Total(a) + Total(b)
  {
    if b == [] {
      assert a + b == a;
    } else {
      assert (a + b)[..|a + b| - 1] == a + b[..|b| - 1];
      TotalPlus(a, b[..|b| - 1]);
    }
  }

  /** It is the total of the window's own samples. */
  lemma WindowTotalIsItsOwn(c: Config, s: seq<Sample>)
    requires c.Ok()
    ensures WindowTotal(c, s) == Total(s[|Gone(c, s)|..])
  {
    var g := Gone(c, s);
    assert s == g + s[|g|..];
    TotalPlus(g, s[|g|..]);
  }

  /** Bits of the window: all of them minus those that have left. */
  ghost function WindowBits(c: Config, s: seq<Sample>): int
    requires c.Ok()
  {
    BitSum(c, s) - BitSum(c, Gone(c, s))
  }

  lemma WindowBitsStep(c: Config, s: seq<Sample>, x: Sample)
    requires c.Ok()
    ensures WindowBits(c, s + [x]) == WindowBits(c, s) - Cell(c, s, |s| - c.window).bit + LastBit(c, s + [x])
  {
    assert (s + [x])[..|s|] == s;
    if |s| >= c.window {
      var n := |s| - c.window;
      assert Gone(c, s + [x]) == s[..n + 1];
      assert s[..n + 1][..n] == s[..n];
      assert Gone(c, s) == s[..n];
    }
  }

  /** T * B + y is the window's sum plus the remainder from before the window. */
  lemma WindowIdentity(c: Config, s: seq<Sample>)
    requires c.Ok()
    ensures Multiple(c.t, WindowBits(c, s)) + Carry(c, s) == WindowTotal(c, s) + Carry(c, Gone(c, s))
  {
    Telescopes(c, s);
    Telescopes(c, Gone(c, s));
    MultiplePlus(c.t, WindowBits(c, s), BitSum(c, Gone(c, s)));
  }
}
