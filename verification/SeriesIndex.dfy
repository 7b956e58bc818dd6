/** The index of series by label hash and by id: internal/promsketch/promsketches.go. */
module SeriesIndex {
  import opened Wrappers

  datatype Label = Label(name: string, value: string)

  type Labels = seq<Label>

  class MemSeries {
    const id: nat
    const lset: Labels

    constructor (lset: Labels, id: nat)
      ensures this.lset == lset && this.id == id
    {
      this.lset, this.id := lset, id;
    }
  }

  // ------------------------------------------------------------------ the series of one hash

  /** The first series with these labels. */
  function Lookup(chain: seq<MemSeries>, lset: Labels): Option<MemSeries> {
    if chain == [] then None
    else if chain[0].lset == lset then Some(chain[0])
    else Lookup(chain[1..], lset)
  }

  predicate Differ(chain: seq<MemSeries>, i: int, j: int) {
    0 <= i < j < |chain| ==> chain[i].lset != chain[j].lset
  }

  ghost predicate DistinctLabels(chain: seq<MemSeries>) {
    forall i, j :: Differ(chain, i, j)
  }

  lemma {:induction false} LookupIs(chain: seq<MemSeries>, k: nat, lset: Labels)
    requires k < |chain| && chain[k].lset == lset && forall i :: 0 <= i < k ==> chain[i].lset != lset
    ensures Lookup(chain, lset) == Some(chain[k])
  {
    if k > 0 {
      LookupIs(chain[1..], k - 1, lset);
    }
  }

  lemma {:induction false} LookupMisses(chain: seq<MemSeries>, lset: Labels)
    requires forall i :: 0 <= i < |chain| ==> chain[i].lset != lset
    ensures Lookup(chain, lset) == None
  {
    if chain != [] {
      LookupMisses(chain[1..], lset);
    }
  }

  lemma {:induction false} LookupFinds(chain: seq<MemSeries>, lset: Labels) returns (k: nat)
    requires Lookup(chain, lset).Some?
    ensures k < |chain| && Lookup(chain, lset) == Some(chain[k]) && chain[k].lset == lset
    ensures forall i :: 0 <= i < k ==> chain[i].lset != lset
  {
    if chain[0].lset == lset {
      k := 0;
    } else {
      k := LookupFinds(chain[1..], lset);
      k := k + 1;
    }
  }

  /** Position of a series with these labels, or the length. */
  ghost predicate PlaceOf(chain: seq<MemSeries>, lset: Labels, k: nat) {
    && k <= |chain|
    && (k < |chain| ==> chain[k].lset == lset)
    && (k == |chain| ==> forall i :: 0 <= i < k ==> chain[i].lset != lset)
  }

  ghost function Placed(chain: seq<MemSeries>, s: MemSeries, k: nat): seq<MemSeries>
    requires k <= |chain|
  {
    if k < |chain| then chain[k := s] else chain + [s]
  }

  lemma PlacedIsDistinct(chain: seq<MemSeries>, s: MemSeries, k: nat)
    requires DistinctLabels(chain) && PlaceOf(chain, s.lset, k)
    ensures DistinctLabels(Placed(chain, s, k))
  {
    forall i, j
      ensures Differ(Placed(chain, s, k), i, j)
    {
      assert Differ(chain, i, j);
    }
  }

  /** Replacing or appending changes the answer for these labels only. */
  lemma LookupPlaced(chain: seq<MemSeries>, s: MemSeries, k: nat, lset: Labels)
    requires DistinctLabels(chain) && PlaceOf(chain, s.lset, k)
    ensures Lookup(Placed(chain, s, k), lset) == if lset == s.lset then Some(s) else Lookup(chain, lset)
  {
    var after := Placed(chain, s, k);
    if lset == s.lset {
      forall i | 0 <= i < k
        ensures after[i].lset != lset
      {
        assert Differ(chain, i, k);
      }
      LookupIs(after, k, lset);
    } else if Lookup(chain, lset).Some? {
      var m := LookupFinds(chain, lset);
      LookupIs(after, m, lset);
    } else {
      forall i | 0 <= i < |chain|
        ensures chain[i].lset != lset
      {
        NotThere(chain, lset, i);
      }
      LookupMisses(after, lset);
    }
  }

  lemma {:induction false} NotThere(chain: seq<MemSeries>, lset: Labels, i: nat)
    requires Lookup(chain, lset).None? && i < |chain|
    ensures chain[i].lset != lset
  {
    if i > 0 {
      NotThere(chain[1..], lset, i - 1);
    }
  }

  /** The series that keep their place when this id goes. */
  ghost function Others(chain: seq<MemSeries>, id: nat): seq<MemSeries> {
    if chain == [] then []
    else if chain[0].id == id then Others(chain[1..], id)
    else [chain[0]] + Others(chain[1..], id)
  }

  lemma {:induction false} OthersOfPrefix(chain: seq<MemSeries>, id: nat, n: nat)
    requires n < |chain|
    ensures Others(chain[..n + 1], id) == if chain[n].id == id then Others(chain[..n], id)
      else Others(chain[..n], id) + [chain[n]]
  {
    if n > 0 {
      assert chain[..n + 1][1..] == chain[1..][..n] && chain[..n][1..] == chain[1..][..n - 1];
      OthersOfPrefix(chain[1..], id, n - 1);
    }
  }

  lemma {:induction false} OthersUntouched(chain: seq<MemSeries>, id: nat)
    requires forall i :: 0 <= i < |chain| ==> chain[i].id != id
    ensures Others(chain, id) == chain
  {
    if chain != [] {
      OthersUntouched(chain[1..], id);
    }
  }

  lemma {:induction false} OthersFromChain(chain: seq<MemSeries>, id: nat, x: MemSeries)
    ensures x in Others(chain, id) <==> x in chain && x.id != id
  {
    if chain != [] {
      OthersFromChain(chain[1..], id, x);
    }
  }

  lemma {:induction false} OthersDistinct(chain: seq<MemSeries>, id: nat)
    requires DistinctLabels(chain)
    ensures DistinctLabels(Others(chain, id))
  {
    if chain != [] {
      TailDistinct(chain);
      OthersDistinct(chain[1..], id);
      var rest := Others(chain[1..], id);
      forall i, j
        ensures Differ([chain[0]] + rest, i, j)
      {
        assert Differ(rest, i - 1, j - 1);
        if i == 0 < j <= |rest| {
          OthersFromChain(chain[1..], id, rest[j - 1]);
          var k :| 0 <= k < |chain| - 1 && chain[1..][k] == rest[j - 1];
          assert Differ(chain, 0, k + 1);
        }
      }
    }
  }

  lemma TailDistinct(chain: seq<MemSeries>)
    requires chain != [] && DistinctLabels(chain)
    ensures DistinctLabels(chain[1..])
  {
    forall i, j
      ensures Differ(chain[1..], i, j)
    {
      assert Differ(chain, i + 1, j + 1);
    }
  }

  /** Labels of another series answer as before, those of the one that goes answer no more. */
  lemma {:induction false} LookupOthers(chain: seq<MemSeries>, id: nat, lset: Labels)
    requires DistinctLabels(chain)
    ensures var was := Lookup(chain, lset);
      Lookup(Others(chain, id), lset) == if was.Some? && was.value.id == id then None else was
  {
    if chain != [] {
      TailDistinct(chain);
      LookupOthers(chain[1..], id, lset);
      if chain[0].lset == lset && chain[0].id == id {
        forall x | x in Others(chain, id)
          ensures x.lset != lset
        {
          OthersFromChain(chain[1..], id, x);
          var k :| 0 <= k < |chain| - 1 && chain[1..][k] == x;
          assert Differ(chain, 0, k + 1);
        }
        LookupMisses(Others(chain, id), lset);
      } else if chain[0].id != id {
        assert ([chain[0]] + Others(chain[1..], id))[1..] == Others(chain[1..], id);
      }
    }
  }

  /** What deleting leaves: the head alone when it matches, else every match behind it. */
  ghost function Remaining(chain: seq<MemSeries>, id: nat): seq<MemSeries> {
    if chain == [] then []
    else if chain[0].id == id then chain[1..]
    else [chain[0]] + Others(chain[1..], id)
  }

  /** The head has this id and so has a series behind it. */
  ghost predicate RepeatsHead(chain: seq<MemSeries>, id: nat) {
    chain != [] && chain[0].id == id && exists i :: 1 <= i < |chain| && chain[i].id == id
  }

  /** That is every other series, unless the id of the head is repeated behind it. */
  lemma RemainingIsOthers(chain: seq<MemSeries>, id: nat)
    ensures Remaining(chain, id) == Others(chain, id) <==> !RepeatsHead(chain, id)
  {
    if RepeatsHead(chain, id) {
      var i :| 1 <= i < |chain| && chain[i].id == id;
      assert chain[1..][i - 1] == chain[i];
      OthersFromChain(chain, id, chain[i]);
    } else if chain != [] && chain[0].id == id {
      OthersUntouched(chain[1..], id);
    }
  }

  lemma RemainingIsDistinct(chain: seq<MemSeries>, id: nat)
    requires DistinctLabels(chain)
    ensures DistinctLabels(Remaining(chain, id))
  {
    if chain != [] {
      TailDistinct(chain);
      if chain[0].id != id {
        assert Others(chain, id) == [chain[0]] + Others(chain[1..], id);
        OthersDistinct(chain, id);
      }
    }
  }

  // ------------------------------------------------------------------ the hash map with its conflict lists

  class SketchSeriesHashMap {
    var unique: map<nat, MemSeries>
    var conflicts: map<nat, seq<MemSeries>>

    ghost function Behind(hash: nat): seq<MemSeries>
      reads this
    {
      if hash in conflicts then conflicts[hash] else []
    }

    /** All series of a hash: the unique one, then its conflicts. */
    ghost function Chain(hash: nat): seq<MemSeries>
      reads this
    {
      if hash in unique then [unique[hash]] + Behind(hash) else []
    }

    /** Labels are distinct per hash, conflict lists non-empty and only behind a unique entry. */
    ghost predicate Valid()
      reads this
    {
      && (forall h :: h in conflicts ==> h in unique && conflicts[h] != [])
      && (forall h :: DistinctLabels(Chain(h)))
    }

    /** The one map all of this stands for. */
    ghost function Find(hash: nat, lset: Labels): Option<MemSeries>
      reads this
    {
      Lookup(Chain(hash), lset)
    }

    constructor ()
      ensures Valid() && forall h, l :: Find(h, l) == None
      ensures unique == map[] && conflicts == map[]
    {
      unique, conflicts := map[], map[];
    }

    method Get(hash: nat, lset: Labels) returns (r: Option<MemSeries>)
      requires Valid()
      ensures r == Find(hash, lset)
    {
      ghost var chain := Chain(hash);
      if hash in unique {
        if unique[hash].lset == lset {
          return Some(unique[hash]);
        }
        assert chain[1..] == Behind(hash);
      }
      var l: seq<MemSeries> := if hash in conflicts then conflicts[hash] else [];
      for i := 0 to |l|
        invariant forall j :: 0 <= j < i ==> l[j].lset != lset
      {
        if l[i].lset == lset {
          LookupIs(l, i, lset);
          return Some(l[i]);
        }
      }
      LookupMisses(l, lset);
      return None;
    }

    /** Update of the one map: these labels now name s, all others what they did. */
    method Set(hash: nat, s: MemSeries)
      requires Valid()
      modifies this
      ensures Valid()
      ensures forall h, l :: Find(h, l) == if h == hash && l == s.lset then Some(s) else old(Find(h, l))
      ensures forall h :: h != hash ==> Chain(h) == old(Chain(h))
      ensures exists k :: PlaceOf(old(Chain(hash)), s.lset, k) && Chain(hash) == Placed(old(Chain(hash)), s, k)
    {
      ghost var chain := Chain(hash);
      ghost var k := 0;
      if hash !in unique || unique[hash].lset == s.lset {
        unique := unique[hash := s];
        assert Chain(hash) == Placed(chain, s, 0);
      } else {
        var l: seq<MemSeries> := if hash in conflicts then conflicts[hash] else [];
        var i := 0;
        while i < |l| && l[i].lset != s.lset
          invariant 0 <= i <= |l|
          invariant forall j :: 0 <= j < i ==> l[j].lset != s.lset
        {
          i := i + 1;
        }
        conflicts := conflicts[hash := if i < |l| then l[i := s] else l + [s]];
        k := i + 1;
        assert Chain(hash) == Placed(chain, s, k);
      }
      PlacedIsDistinct(chain, s, k);
      forall h
        ensures DistinctLabels(Chain(h))
      {
        assert h != hash ==> Chain(h) == old(Chain(h));
      }
      forall h, l
        ensures Find(h, l) == if h == hash && l == s.lset then Some(s) else old(Find(h, l))
      {
        if h == hash {
          LookupPlaced(chain, s, k, l);
        } else {
          assert Chain(h) == old(Chain(h));
        }
      }
    }

    /** Every conflict but those with this id. */
    method KeepOthers(hash: nat, id: nat) returns (rem: seq<MemSeries>)
      ensures rem == Others(Behind(hash), id)
    {
      rem := [];
      var l: seq<MemSeries> := if hash in conflicts then conflicts[hash] else [];
      for i := 0 to |l|
        invariant rem == Others(l[..i], id)
      {
        OthersOfPrefix(l, id, i);
        if l[i].id != id {
          rem := rem + [l[i]];
        }
      }
      assert l[..|l|] == l;
    }

    /** The rest becomes the hash's conflict list, or there is none. */
    method StoreRest(hash: nat, rem: seq<MemSeries>)
      modifies this`conflicts
      ensures conflicts == if rem == [] then old(conflicts) - {hash} else old(conflicts)[hash := rem]
    {
      if rem == [] {
        conflicts := conflicts - {hash};
      } else {
        conflicts := conflicts[hash := rem];
      }
    }

    /** Removal from the one map, unless the id is repeated on this hash with one of them at its head. */
    method Del(hash: nat, id: nat)
      requires Valid()
      modifies this
      ensures Valid()
      ensures Chain(hash) == Remaining(old(Chain(hash)), id) && forall h :: h != hash ==> Chain(h) == old(Chain(h))
      ensures !RepeatsHead(old(Chain(hash)), id) ==> forall h, l ::
        Find(h, l) ==
          if h == hash && old(Find(h, l)).Some? && old(Find(h, l)).value.id == id then None else old(Find(h, l))
    {
      ghost var chain := Chain(hash);
      RemainingIsDistinct(chain, id);
      if hash !in unique {
      } else if unique[hash].id == id {
        if hash !in conflicts {
          unique := unique - {hash};
        } else {
          var behind := conflicts[hash];
          unique := unique[hash := behind[0]];
          StoreRest(hash, behind[1..]);
        }
      } else {
        var rem := KeepOthers(hash, id);
        StoreRest(hash, rem);
      }
      assert Chain(hash) == Remaining(chain, id);
      assert forall h :: h != hash ==> Chain(h) == old(Chain(h));
      if !RepeatsHead(chain, id) {
        RemainingIsOthers(chain, id);
        forall l
          ensures Find(hash, l) ==
            if Lookup(chain, l).Some? && Lookup(chain, l).value.id == id then None else Lookup(chain, l)
        {
          LookupOthers(chain, id, l);
        }
      }
    }
  }

  /**
    A map told of two series with one id keeps the second one when the id is deleted. The index never
    stores such a pair, so unrepeated ids are what Del asks of its callers.
   */
  method RepeatedIdSurvives(hash: nat, a: MemSeries, b: MemSeries) returns (m: SketchSeriesHashMap)
    requires a.id == b.id && a.lset != b.lset
    ensures m.Valid() && m.Find(hash, a.lset) == None && m.Find(hash, b.lset) == Some(b)
  {
    m := new SketchSeriesHashMap();
    assert m.Chain(hash) == [];
    m.Set(hash, a);
    assert m.Chain(hash) == [a];
    m.Set(hash, b);
    assert m.Chain(hash) == [a, b];
    m.Del(hash, a.id);
    assert m.Chain(hash) == [b];
    LookupMisses([b], a.lset);
    LookupIs([b], 0, b.lset);
  }

  // ------------------------------------------------------------------ the striped index

  class SketchSeries {
    const size: nat
    /** The stripe of a hash or id: its low bits. */
    const stripe: nat -> nat
    const hashes: seq<SketchSeriesHashMap>
    var series: seq<map<nat, MemSeries>>
    var id: nat
    /** The hash each id was stored under. */
    ghost var hashOf: map<nat, nat>

    ghost predicate Striped() {
      && |hashes| == size
      && (forall h :: size > 0 ==> stripe(h) < size)
      && (forall i, j :: 0 <= i < j < size ==> hashes[i] != hashes[j])
    }

    /** The series with this hash and these labels. */
    ghost function Find(hash: nat, lset: Labels): Option<MemSeries>
      requires Striped()
      reads hashes
    {
      if size == 0 then None else hashes[stripe(hash)].Find(hash, lset)
    }

    /** The series with this id. */
    ghost function ById(id: nat): Option<MemSeries>
      requires Striped() && |series| == size
      reads this`series
    {
      if size > 0 && id in series[stripe(id)] then Some(series[stripe(id)][id]) else None
    }

    /** What is found by hash and labels is found by its id, under that hash, and it was issued. */
    ghost predicate Indexed(hash: nat, lset: Labels)
      requires Striped() && |series| == size
      reads this, hashes
    {
      var r := Find(hash, lset);
      r.Some? ==>
        && r.value.lset == lset && 1 <= r.value.id <= id
        && ById(r.value.id) == r && r.value.id in hashOf && hashOf[r.value.id] == hash
    }

    /** What is found by id is found by hash and labels. */
    ghost predicate Issued(i: nat)
      requires Striped() && |series| == size
      reads this, hashes
    {
      var r := ById(i);
      r.Some? ==> r.value.id == i && 1 <= i <= id && i in hashOf && Find(hashOf[i], r.value.lset) == r
    }

    ghost predicate Valid()
      reads this, hashes
    {
      && Striped() && |series| == size
      && (forall i :: 0 <= i < size ==> hashes[i].Valid())
      && (forall h, l :: Indexed(h, l))
      && (forall i :: Issued(i))
    }

    constructor (stripeSize: nat, stripe: nat -> nat)
      requires forall h :: stripeSize > 0 ==> stripe(h) < stripeSize
      ensures Valid() && size == stripeSize && id == 0 && fresh(hashes)
      ensures (forall h, l :: Find(h, l) == None) && (forall i :: ById(i) == None)
    {
      var maps: seq<SketchSeriesHashMap> := [];
      while |maps| < stripeSize
        invariant |maps| <= stripeSize && fresh(maps)
        invariant forall i :: 0 <= i < |maps| ==> maps[i].Valid() && forall h, l :: maps[i].Find(h, l) == None
        invariant forall i, j :: 0 <= i < j < |maps| ==> maps[i] != maps[j]
      {
        var m := new SketchSeriesHashMap();
        maps := maps + [m];
      }
      size, this.stripe, hashes := stripeSize, stripe, maps;
      series := seq(stripeSize, _ => map[]);
      id, hashOf := 0, map[];
    }

    method GetById(id: nat) returns (r: Option<MemSeries>)
      requires Valid()
      ensures r == ById(id)
    {
      if size == 0 {
        return None;
      }
      var i := stripe(id);
      r := if id in series[i] then Some(series[i][id]) else None;
    }

    method GetByHash(hash: nat, lset: Labels) returns (r: Option<MemSeries>)
      requires Valid()
      ensures r == Find(hash, lset)
    {
      if size == 0 {
        return None;
      }
      r := hashes[stripe(hash)].Get(hash, lset);
    }

    /** Two entries with the same id are the same entry. */
    lemma IdsAreUnique(h1: nat, l1: Labels, h2: nat, l2: Labels)
      requires Valid() && Find(h1, l1).Some? && Find(h2, l2).Some?
      ensures Find(h1, l1).value.id == Find(h2, l2).value.id <==> h1 == h2 && l1 == l2
    {
      assert Indexed(h1, l1) && Indexed(h2, l2);
    }

    method StoreByHash(hash: nat, s: MemSeries)
      requires Striped() && size > 0 && forall i :: 0 <= i < size ==> hashes[i].Valid()
      modifies hashes[stripe(hash)]
      ensures forall i :: 0 <= i < size ==> hashes[i].Valid()
      ensures forall h, l :: Find(h, l) == if h == hash && l == s.lset then Some(s) else old(Find(h, l))
    {
      var i := stripe(hash);
      hashes[i].Set(hash, s);
      forall h, l
        ensures Find(h, l) == if h == hash && l == s.lset then Some(s) else old(Find(h, l))
      {
        assert stripe(h) != i ==> hashes[stripe(h)] != hashes[i];
      }
      forall j | 0 <= j < size
        ensures hashes[j].Valid()
      {
        assert j != i ==> hashes[j] != hashes[i];
      }
    }

    method StoreById(s: MemSeries)
      requires Striped() && size > 0 && |series| == size
      modifies this`series
      ensures |series| == size
      ensures forall i :: ById(i) == if i == s.id then Some(s) else old(ById(i))
    {
      var i := stripe(s.id);
      var ids: map<nat, MemSeries> := series[i][s.id := s];
      series := series[i := ids];
    }

    /** The series of these labels; a new one with the next id when there is none. */
    method GetOrCreate(hash: nat, lset: Labels) returns (s: MemSeries, created: bool)
      requires Valid() && size > 0
      modifies this, hashes
      ensures Valid() && s.lset == lset && created == old(Find(hash, lset)).None?
      ensures created ==> fresh(s) && s.id == old(id) + 1
      ensures id == if created then old(id) + 1 else old(id)
      ensures forall h, l :: Find(h, l) == if h == hash && l == lset then Some(s) else old(Find(h, l))
      ensures forall i :: ById(i) == if i == s.id then Some(s) else old(ById(i))
    {
      var found := GetByHash(hash, lset);
      if found.Some? {
        assert Indexed(hash, lset);
        return found.value, false;
      }
      created := true;
      s := Create(hash, lset);
    }

    method Store(hash: nat, s: MemSeries)
      requires Striped() && size > 0 && |series| == size && forall i :: 0 <= i < size ==> hashes[i].Valid()
      modifies this`series, this`hashOf, hashes
      ensures |series| == size && forall i :: 0 <= i < size ==> hashes[i].Valid()
      ensures forall h, l :: Find(h, l) == if h == hash && l == s.lset then Some(s) else old(Find(h, l))
      ensures forall i :: ById(i) == if i == s.id then Some(s) else old(ById(i))
      ensures hashOf == old(hashOf)[s.id := hash]
    {
      StoreByHash(hash, s);
      StoreById(s);
      hashOf := hashOf[s.id := hash];
    }

    method Create(hash: nat, lset: Labels) returns (s: MemSeries)
      requires Valid() && size > 0 && Find(hash, lset).None?
      modifies this, hashes
      ensures Valid() && s.lset == lset && fresh(s) && s.id == id == old(id) + 1
      ensures forall h, l :: Find(h, l) == if h == hash && l == lset then Some(s) else old(Find(h, l))
      ensures forall i :: ById(i) == if i == s.id then Some(s) else old(ById(i))
    {
      id := id + 1;
      s := new MemSeries(lset, id);
      Store(hash, s);
      forall h, l
        ensures Indexed(h, l)
      {
        assert old(Indexed(h, l));
      }
      forall i
        ensures Issued(i)
      {
        assert old(Issued(i));
      }
    }
  }
}
