/** Sums of a function over a finite set, independent of the order in which the set is visited. */
module FiniteSums {

  /** Some element of a non-empty set: the iteration order of the source's maps is unspecified. */
  method AnyOf<K(==)>(keys: set<K>) returns (x: K)
    requires keys != {}
    ensures x in keys
  {
    x :| x in keys;
  }

  ghost function Sum<K>(keys: set<K>, f: K -> int): int {
    if keys == {} then 0
    else
      var x :| x in keys;
      f(x) + Sum(keys - {x}, f)
  }

  /** Any element can be taken out first. */
  lemma {:induction false} SumRemove<K>(keys: set<K>, f: K -> int, x: K)
    requires x in keys
    ensures Sum(keys, f) == f(x) + Sum(keys - {x}, f)
    decreases |keys|
  {
    var y :| y in keys && Sum(keys, f) == f(y) + Sum(keys - {y}, f);
    if y != x {
      SumRemove(keys - {y}, f, x);
      SumRemove(keys - {x}, f, y);
      assert keys - {y} - {x} == keys - {x} - {y};
    }
  }

  lemma {:induction false} SumLe<K>(keys: set<K>, f: K -> int, g: K -> int)
    requires forall x :: x in keys ==> f(x) <= g(x)
    ensures Sum(keys, f) <= Sum(keys, g)
    decreases |keys|
  {
    if keys != {} {
      var x :| x in keys;
      SumRemove(keys, f, x);
      SumRemove(keys, g, x);
      SumLe(keys - {x}, f, g);
    }
  }

  lemma SumEq<K>(keys: set<K>, f: K -> int, g: K -> int)
    requires forall x :: x in keys ==> f(x) == g(x)
    ensures Sum(keys, f) == Sum(keys, g)
  {
    SumLe(keys, f, g);
    SumLe(keys, g, f);
  }

  lemma {:induction false} SumPlus<K>(keys: set<K>, f: K -> int, g: K -> int, h: K -> int)
    requires forall x :: x in keys ==> h(x) == f(x) + g(x)
    ensures Sum(keys, h) == Sum(keys, f) + Sum(keys, g)
    decreases |keys|
  {
    if keys != {} {
      var x :| x in keys;
      SumRemove(keys, f, x);
      SumRemove(keys, g, x);
      SumRemove(keys, h, x);
      SumPlus(keys - {x}, f, g, h);
    }
  }

  /** Keys where the function vanishes can be added. */
  lemma {:induction false} SumSuperset<K>(keys: set<K>, more: set<K>, f: K -> int)
    requires keys <= more
    requires forall x :: x in more && x !in keys ==> f(x) == 0
    ensures Sum(more, f) == Sum(keys, f)
    decreases |more|
  {
    if more != keys {
      var x :| x in more && x !in keys;
      SumRemove(more, f, x);
      SumSuperset(keys, more - {x}, f);
    }
  }

  ghost function RealSum<K>(keys: set<K>, f: K -> real): real {
    if keys == {} then 0.0
    else
      var x :| x in keys;
      f(x) + RealSum(keys - {x}, f)
  }

  lemma {:induction false} RealSumRemove<K>(keys: set<K>, f: K -> real, x: K)
    requires x in keys
    ensures RealSum(keys, f) == f(x) + RealSum(keys - {x}, f)
    decreases |keys|
  {
    var y :| y in keys && RealSum(keys, f) == f(y) + RealSum(keys - {y}, f);
    if y != x {
      RealSumRemove(keys - {y}, f, x);
      RealSumRemove(keys - {x}, f, y);
      assert keys - {y} - {x} == keys - {x} - {y};
    }
  }

  /** Keys where the function vanishes can be added. */
  lemma {:induction false} RealSumSuperset<K>(keys: set<K>, more: set<K>, f: K -> real)
    requires keys <= more
    requires forall x :: x in more && x !in keys ==> f(x) == 0.0
    ensures RealSum(more, f) == RealSum(keys, f)
    decreases |more|
  {
    if more != keys {
      var x :| x in more && x !in keys;
      RealSumRemove(more, f, x);
      RealSumSuperset(keys, more - {x}, f);
    }
  }

  lemma {:induction false} RealSumEq<K>(keys: set<K>, f: K -> real, g: K -> real)
    requires forall x :: x in keys ==> f(x) == g(x)
    ensures RealSum(keys, f) == RealSum(keys, g)
    decreases |keys|
  {
    if keys != {} {
      var x :| x in keys;
      RealSumRemove(keys, f, x);
      RealSumRemove(keys, g, x);
      RealSumEq(keys - {x}, f, g);
    }
  }

  /** A sum over all keys and twice one over some of them, taken together. */
  lemma {:induction false} RealSumTwice<K>(keys: set<K>, some: set<K>, f: K -> real, g: K -> real, h: K -> real)
    requires some <= keys
    requires forall x :: x in keys ==> h(x) == g(x) + if x in some then 2.0 * f(x) else 0.0
    ensures RealSum(keys, h) == RealSum(keys, g) + 2.0 * RealSum(some, f)
    decreases |keys|
  {
    if keys != {} {
      var x :| x in keys;
      RealSumRemove(keys, g, x);
      RealSumRemove(keys, h, x);
      RealSumTwice(keys - {x}, some - {x}, f, g, h);
      if x in some {
        RealSumRemove(some, f, x);
      } else {
        assert some - {x} == some;
      }
    }
  }

  /** A sum that is termwise at least another equals it exactly when all terms do. */
  lemma {:induction false} RealSumStrict<K>(keys: set<K>, f: K -> real, g: K -> real)
    requires forall x :: x in keys ==> f(x) <= g(x)
    ensures RealSum(keys, f) <= RealSum(keys, g)
    ensures RealSum(keys, f) == RealSum(keys, g) <==> forall x :: x in keys ==> f(x) == g(x)
    decreases |keys|
  {
    if keys != {} {
      var x :| x in keys;
      RealSumRemove(keys, f, x);
      RealSumRemove(keys, g, x);
      RealSumStrict(keys - {x}, f, g);
      assert forall y :: y in keys ==> y == x || y in keys - {x};
    }
  }
}
