/** The ring of rounded counters: internal/promsketch/sum.go, small-error mode, whole-window queries. */
module RingCounter {
  import opened RealFacts
  import opened RingStream
  import opened RingFit

  /** The counter as a value: ring, next position, bit sum and remainder. */
  datatype Counters = Counters(ring: seq<SumArr>, i: nat, sum: int, y: real)

  /** All that the counter keeps of a stream. */
  ghost predicate Keeps(c: Config, s: seq<Sample>, k: Counters)
    requires c.Ok()
  {
    RingIs(c, s, k.ring, k.i) && k.sum == RingSum(k.ring) == WindowBits(c, s) && k.y == Carry(c, s)
  }

  /** One more sample, whose bit replaces the oldest one. */
  lemma Step(c: Config, s: seq<Sample>, k: Counters, e: Sample, bit: int, after: Counters)
    requires c.Ok() && Keeps(c, s, k) && bit == c.bit(k.y + e.share)
    requires after.ring == k.ring[k.i := SumArr(bit, e.time)] && after.i == Next(c, k.i)
    requires after.sum == k.sum - k.ring[k.i].bit + bit && after.y == k.y + e.share - Multiple(c.t, bit)
    ensures Keeps(c, s + [e], after)
  {
    CarryStep(c, s, e);
    RingStep(c, s, k.ring, k.i, e);
    RingSumUpdate(k.ring, k.i, SumArr(bit, e.time));
    WindowBitsStep(c, s, e);
  }

  /** How often t goes into v. */
  function Quotient(t: real, v: real): int {
    if t > 0.0 then (v / t).Floor else 0
  }

  class EfficientSum {
    const c: Config
    const rounding: Rounding
    /** The largest value expected. */
    const r: real
    /** 2 to the power -v - 1. */
    const correction: real
    const b: array<SumArr>
    var y: real
    var B: int
    var i: nat
    var maxTime: int
    ghost var inserted: seq<Sample>

    /** Ring, bit sum and remainder are those of the samples inserted. */
    ghost predicate Tracks()
      reads this, b
    {
      c.Ok() && b.Length == c.window && Keeps(c, inserted, Counters(b[..], i, B, y))
    }

    ghost predicate Valid()
      reads this, b
    {
      r > 0.0 && RoundsDown(c, rounding) && Tracks()
    }

    constructor (window: nat, t: real, r: real, correction: real, overflow: int -> int)
      requires window >= 1 && t > 0.0 && r > 0.0
      ensures Valid() && inserted == [] && fresh(b)
      ensures c.window == window && c.t == t && rounding.overflow == overflow
      ensures forall v :: rounding.quotient(v) == (v / t).Floor
      ensures this.r == r && this.correction == correction
    {
      c := Config(window, t, v => ToInt8(overflow, Quotient(t, v)));
      rounding := Rounding(v => Quotient(t, v), overflow);
      this.r, this.correction := r, correction;
      b := new SumArr[window](_ => ZERO);
      y, B, i, maxTime := 0.0, 0, 0, 0;
      inserted := [];
      new;
      forall v
        ensures Multiple(t, rounding.quotient(v)) <= v < Multiple(t, rounding.quotient(v)) + t
      {
        Remainder(v, t);
        MultipleIsProduct(t, rounding.quotient(v));
      }
      RingOfZeros(b[..]);
    }

    method InsertSmallError(time: int, x: real)
      requires Valid()
      modifies this, b
      ensures Valid() && inserted == old(inserted) + [Sample(time, x / r)]
      ensures maxTime == old(maxTime)
    {
      var x1 := x / r;
      AddShare(time, x1, ToInt8(rounding.overflow, rounding.quotient(y + x1)));
    }

    /** The entry at the ring position is replaced, and the fields move on. */
    method Commit(cell: SumArr, sum: int, left: real, next: nat, ghost s: seq<Sample>)
      requires c.Ok() && b.Length == c.window && i < b.Length
      requires Keeps(c, s, Counters(b[..][i := cell], next, sum, left))
      modifies this, b
      ensures Tracks() && inserted == s && maxTime == old(maxTime)
    {
      ghost var after := b[..][i := cell];
      b[i] := cell;
      assert b[..] == after;
      B, y, i := sum, left, next;
      inserted := s;
    }

    /** The bit just computed replaces the one at the ring position; the remainder keeps what it does not say. */
    method AddShare(time: int, x1: real, bit: int)
      requires Tracks() && bit == c.bit(y + x1)
      modifies this, b
      ensures Tracks() && inserted == old(inserted) + [Sample(time, x1)] && maxTime == old(maxTime)
    {
      ghost var before := Counters(b[..], i, B, y);
      ghost var s := inserted + [Sample(time, x1)];
      var left := LeftOver(y, x1, bit, c.t);
      var next := Advance(c, i);
      var sum := B - b[i].bit + bit;
      Step(c, inserted, before, Sample(time, x1), bit, Counters(before.ring[i := SumArr(bit, time)], next, sum, left));
      Commit(SumArr(bit, time), sum, left, next, s);
    }

    method Insert(time: int, x: real)
      requires Valid()
      modifies this, b
      ensures Valid() && inserted == old(inserted) + [Sample(time, x / r)] && maxTime == time
    {
      maxTime := time;
      InsertSmallError(time, x);
    }

    /**
      Within R * (T / 2 + 2^(-v - 1)) of R times the shares of the last `window` samples; on the two
      sides of that, the correction added, less than R * T apart.
     */
    method QuerySmallError() returns (sum: real)
      requires Valid()
      ensures IsAnswer(sum, B, y, c.t, correction, r)
      ensures BitsFit(c, rounding, inserted) && correction >= 0.0 ==>
        IsClose(sum, WindowTotal(c, inserted), c.t / 2.0 + correction, r)
      ensures BitsFit(c, rounding, inserted) ==> IsAround(sum, WindowTotal(c, inserted), c.t, correction, r)
    {
      if BitsFit(c, rounding, inserted) {
        WindowBound(c, rounding, inserted);
      }
      sum := Answer(B, y, c.t, correction, r, WindowTotal(c, inserted));
    }
  }
}
