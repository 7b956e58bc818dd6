/** When the stored bits of the ring counter fit, and how close the counters then are to the exact sum. */
module RingFit {
  import opened RealFacts
  import opened RingStream

  predicate FitsInt8(n: int) {
    -128 <= n <= 127
  }

  /** A float that does not fit becomes an implementation-chosen integer, so `overflow` is arbitrary. */
  function ToInt8(overflow: int -> int, n: int): int {
    if FitsInt8(n) then n else overflow(n)
  }

  /** How a sum becomes a bit: how often T goes into it, converted to 8 bits. */
  datatype Rounding = Rounding(quotient: real -> int, overflow: int -> int)

  /** q(v) is the floor of v / t. */
  ghost predicate IsQuotient(t: real, q: real -> int) {
    forall v :: Multiple(t, q(v)) <= v < Multiple(t, q(v)) + t
  }

  ghost predicate RoundsDown(c: Config, r: Rounding) {
    c.Ok() && IsQuotient(c.t, r.quotient) && forall v :: c.bit(v) == ToInt8(r.overflow, r.quotient(v))
  }

  predicate InRange(s: seq<Sample>) {
    forall k :: 0 <= k < |s| ==> 0.0 <= s[k].share <= 1.0
  }

  /** Every floor taken along the stream fits the stored integer. */
  ghost predicate BitsFit(c: Config, r: Rounding, s: seq<Sample>)
    requires c.Ok()
  {
    s == [] || (BitsFit(c, r, s[..|s| - 1]) && FitsInt8(r.quotient(Carry(c, s[..|s| - 1]) + s[|s| - 1].share)))
  }

  lemma {:induction false} CarryInRange(c: Config, r: Rounding, s: seq<Sample>)
    requires RoundsDown(c, r) && BitsFit(c, r, s)
    ensures 0.0 <= Carry(c, s) < c.t
  {
    if s != [] {
      CarryInRange(c, r, s[..|s| - 1]);
      var v := Carry(c, s[..|s| - 1]) + s[|s| - 1].share;
      assert Multiple(c.t, r.quotient(v)) <= v < Multiple(c.t, r.quotient(v)) + c.t;
    }
  }

  lemma QuotientFits(c: Config, r: Rounding, v: real)
    requires RoundsDown(c, r) && 0.0 <= v < c.t + 1.0 && 127.0 * c.t >= 1.0
    ensures FitsInt8(r.quotient(v))
  {
    QuotientBounds(c.t, r.quotient(v), v, 128);
    QuotientBounds(c.t, r.quotient(v), v, 0);
    MultipleIsProduct(c.t, 128);
  }

  /** Comparing a quotient with m is comparing v with m times t. */
  lemma QuotientBounds(t: real, q: int, v: real, m: int)
    requires t > 0.0 && Multiple(t, q) <= v < Multiple(t, q) + t
    ensures q >= m <==> v >= Multiple(t, m)
  {
    MultiplePlus(t, q, m - q);
    MultipleSign(t, m - q);
  }

  lemma {:induction false} WideEnoughFits(c: Config, r: Rounding, s: seq<Sample>)
    requires RoundsDown(c, r) && InRange(s) && 127.0 * c.t >= 1.0
    ensures BitsFit(c, r, s)
  {
    if s != [] {
      WideEnoughFits(c, r, s[..|s| - 1]);
      CarryInRange(c, r, s[..|s| - 1]);
      QuotientFits(c, r, Carry(c, s[..|s| - 1]) + s[|s| - 1].share);
    }
  }

  /** With T below 1/127: a sample that fills the remainder up as far as it goes, then a largest one. */
  lemma NarrowOverflows(c: Config, r: Rounding) returns (s: seq<Sample>)
    requires RoundsDown(c, r) && 127.0 * c.t < 1.0
    ensures InRange(s) && !BitsFit(c, r, s)
  {
    var full := Sample(0, 1.0);
    MultipleIsProduct(c.t, 128);
    if 128.0 * c.t <= 1.0 {
      s := [full];
      assert s[..0] == [];
      QuotientBounds(c.t, r.quotient(1.0), 1.0, 128);
    } else {
      var y := 128.0 * c.t - 1.0;
      s := [Sample(0, y), full];
      assert s[..1] == [Sample(0, y)] && s[..1][..0] == [];
      QuotientBounds(c.t, r.quotient(y), y, 0);
      QuotientBounds(c.t, r.quotient(y), y, 1);
      QuotientBounds(c.t, r.quotient(y + 1.0), y + 1.0, 128);
    }
  }

  /** The stored bits always fit, whatever shares up to 1 arrive, exactly when T is at least 1/127. */
  lemma BitsAlwaysFit(c: Config, r: Rounding)
    requires RoundsDown(c, r)
    ensures (forall s :: InRange(s) ==> BitsFit(c, r, s)) <==> 127.0 * c.t >= 1.0
  {
    if 127.0 * c.t >= 1.0 {
      forall s | InRange(s)
        ensures BitsFit(c, r, s)
      {
        WideEnoughFits(c, r, s);
      }
    } else {
      var s := NarrowOverflows(c, r);
    }
  }

  lemma {:induction false} PrefixFits(c: Config, r: Rounding, s: seq<Sample>, n: nat)
    requires c.Ok() && n <= |s| && BitsFit(c, r, s)
    ensures BitsFit(c, r, s[..n])
  {
    if n < |s| {
      PrefixFits(c, r, s[..|s| - 1], n);
      assert s[..|s| - 1][..n] == s[..n];
    } else {
      assert s[..n] == s;
    }
  }

  /** The counters are never below the window's sum and exceed it by less than T. */
  lemma WindowBound(c: Config, r: Rounding, s: seq<Sample>)
    requires RoundsDown(c, r) && BitsFit(c, r, s)
    ensures 0.0 <= Multiple(c.t, WindowBits(c, s)) + Carry(c, s) - WindowTotal(c, s) < c.t
  {
    WindowIdentity(c, s);
    PrefixFits(c, r, s, |Gone(c, s)|);
    CarryInRange(c, r, Gone(c, s));
  }
}
