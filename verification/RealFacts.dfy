/** The few facts about products and quotients of reals that the ring counter needs. */
module RealFacts {
  lemma Monotone(a: real, b: real, t: real)
    requires a <= b && t > 0.0
    ensures a * t <= b * t
  {
  }

  lemma Scaled(a: real, b: real, t: real)
    requires a < b && t > 0.0
    ensures a * t < b * t
  {
  }

  lemma Distributes(a: real, b: real, t: real)
    ensures (a + b) * t == a * t + b * t
  {
  }

  lemma Above(v: real, q: real, f: real, t: real)
    requires t > 0.0 && q * t == v && q < f + 1.0
    ensures v < f * t + t
  {
    Scaled(q, f + 1.0, t);
    OneMore(f, t);
  }

  lemma OneMore(f: real, t: real)
    ensures (f + 1.0) * t == f * t + t
  {
  }

  lemma Under(v: real, q: real, f: real, t: real)
    requires t > 0.0 && q * t == v && f <= q
    ensures f * t <= v
  {
    Monotone(f, q, t);
  }

  /** What the floor of a quotient leaves over. */
  lemma Remainder(v: real, t: real)
    requires t > 0.0
    ensures (v / t).Floor as real * t <= v < (v / t).Floor as real * t + t
  {
    var q := v / t;
    var f := q.Floor as real;
    assert q * t == v;
    assert f <= q < f + 1.0;
    Under(v, q, f, t);
    Above(v, q, f, t);
  }

  /** n times t, by repeated addition. */
  ghost function Multiple(t: real, n: int): real
    decreases if n < 0 then -n else n
  {
    if n == 0 then 0.0
    else if n > 0 then Multiple(t, n - 1) + t
    else Multiple(t, n + 1) - t
  }

  lemma {:induction false} MultipleIsProduct(t: real, n: int)
    ensures Multiple(t, n) == n as real * t
    decreases if n < 0 then -n else n
  {
    if n > 0 {
      MultipleIsProduct(t, n - 1);
      OneMore((n - 1) as real, t);
    } else if n < 0 {
      MultipleIsProduct(t, n + 1);
      OneMore(n as real, t);
    }
  }

  lemma {:induction false} MultipleSign(t: real, n: int)
    requires t > 0.0
    ensures n >= 1 ==> Multiple(t, n) >= t
    ensures n <= 0 ==> Multiple(t, n) <= 0.0
    decreases if n < 0 then -n else n
  {
    if n > 1 {
      MultipleSign(t, n - 1);
    } else if n < 0 {
      MultipleSign(t, n + 1);
    }
  }

  lemma MultipleStep(t: real, n: int)
    ensures Multiple(t, n + 1) == Multiple(t, n) + t
  {
  }

  lemma {:induction false} MultiplePlus(t: real, a: int, b: int)
    ensures Multiple(t, a + b) == Multiple(t, a) + Multiple(t, b)
    decreases if b < 0 then -b else b
  {
    if b > 0 {
      MultiplePlus(t, a, b - 1);
      MultipleStep(t, a + b - 1);
    } else if b < 0 {
      MultiplePlus(t, a, b + 1);
      MultipleStep(t, a + b);
    }
  }

  predicate Within(a: real, b: real, e: real) {
    -e <= a - b <= e
  }

  lemma ScaledWithin(r: real, a: real, b: real, e: real)
    requires r > 0.0 && Within(a, b, e)
    ensures Within(a * r, b * r, e * r)
  {
    Monotone(a, b + e, r);
    Monotone(b - e, a, r);
    Distributes(b, e, r);
    Distributes(b, -e, r);
    Opposite(e, r);
  }

  lemma Opposite(e: real, r: real)
    ensures -e * r == -(e * r)
  {
  }

  /** What remains of y + x1 when a bit is taken out. */
  method LeftOver(y: real, x1: real, bit: int, t: real) returns (left: real)
    ensures left == y + x1 - Multiple(t, bit)
  {
    left := y + x1 - bit as real * t;
    MultipleIsProduct(t, bit);
  }

  ghost predicate IsAnswer(sum: real, bits: int, y: real, t: real, correction: real, r: real) {
    sum == (bits as real * t + y - t / 2.0 + correction) * r
  }

  /** sum is within r * e of r * total. */
  ghost predicate IsClose(sum: real, total: real, e: real, r: real) {
    Within(sum, total * r, e * r)
  }

  /** sum is r times something from t / 2 below the corrected total up to, but not including, t / 2 above it. */
  ghost predicate IsAround(sum: real, total: real, t: real, correction: real, r: real) {
    (total - t / 2.0 + correction) * r <= sum < (total + t / 2.0 + correction) * r
  }

  method Answer(bits: int, y: real, t: real, correction: real, r: real, ghost total: real) returns (sum: real)
    requires r > 0.0
    ensures IsAnswer(sum, bits, y, t, correction, r)
    ensures correction >= 0.0 && 0.0 <= Multiple(t, bits) + y - total < t ==>
      IsClose(sum, total, t / 2.0 + correction, r)
    ensures 0.0 <= Multiple(t, bits) + y - total < t ==> IsAround(sum, total, t, correction, r)
  {
    var off := bits as real * t + y - t / 2.0 + correction;
    sum := off * r;
    MultipleIsProduct(t, bits);
    if 0.0 <= Multiple(t, bits) + y - total < t {
      Monotone(total - t / 2.0 + correction, off, r);
      Scaled(off, total + t / 2.0 + correction, r);
      if correction >= 0.0 {
        ScaledWithin(r, off, total, t / 2.0 + correction);
      }
    }
  }
}
