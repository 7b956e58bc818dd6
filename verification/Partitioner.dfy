/** Partition ownership and replica choice: internal/cluster/hash/partitioner.go. */
module Partitioner {
  import opened Numbers
  import opened Wrappers

  /** A node owns the partitions from partitionStart up to, not including, partitionEnd. */
  datatype Node = Node(id: string, address: string, partitionStart: int, partitionEnd: int) {
    predicate OwnsPartition(p: int) {
      partitionStart <= p < partitionEnd
    }
  }

  datatype Error =
    | NonPositiveTotal
    | NoNodes
    | RangeExceedsTotal(node: Node)
    | AssignedTwice(partition: int, existing: Node, node: Node)
    | Unassigned(partition: int)

  datatype Result<T> = Ok(value: T) | Err(error: Error)

  // ------------------------------------------------------------------ ownership

  predicate OwnedAt(nodes: seq<Node>, i: int, p: int) {
    0 <= i < |nodes| && nodes[i].OwnsPartition(p)
  }

  ghost predicate Owned(nodes: seq<Node>, p: int) {
    exists i :: OwnedAt(nodes, i, p)
  }

  /** No range beyond the total, no partition owned twice, none from 0 to total - 1 unowned. */
  ghost predicate Acceptable(total: int, nodes: seq<Node>) {
    && total > 0 && nodes != []
    && (forall i, p :: OwnedAt(nodes, i, p) ==> p < total)
    && (forall i, j, p :: OwnedAt(nodes, i, p) && OwnedAt(nodes, j, p) ==> i == j)
    && (forall p :: 0 <= p < total ==> Owned(nodes, p))
  }

  /** The map from partitions to nodes says who owns what among these nodes. */
  ghost predicate Maps(nodes: seq<Node>, owners: map<int, Node>) {
    && (forall p :: p in owners ==> owners[p].OwnsPartition(p) && owners[p] in nodes)
    && (forall i, p :: OwnedAt(nodes, i, p) ==> p in owners)
  }

  /** So far: the ranges of the first n nodes are mapped, in range and apart. */
  ghost predicate Assigned(total: int, nodes: seq<Node>, owners: map<int, Node>) {
    && Maps(nodes, owners)
    && (forall i, p :: OwnedAt(nodes, i, p) ==> p < total)
    && (forall i, j, p :: OwnedAt(nodes, i, p) && OwnedAt(nodes, j, p) ==> i == j)
  }

  /** What an error says about the nodes. */
  ghost predicate Justified(total: int, nodes: seq<Node>, e: Error) {
    match e
    case NonPositiveTotal => total <= 0
    case NoNodes => nodes == []
    case RangeExceedsTotal(n) => n in nodes && n.partitionStart < n.partitionEnd && n.partitionEnd > total
    case AssignedTwice(p, a, b) => exists i, j ::
      OwnedAt(nodes, i, p) && OwnedAt(nodes, j, p) && i < j && nodes[i] == a && nodes[j] == b
    case Unassigned(p) => 0 <= p < total && !Owned(nodes, p)
  }

  /** An error is only given for nodes that could not have been accepted. */
  lemma JustifiedIsUnacceptable(total: int, nodes: seq<Node>, e: Error)
    requires Justified(total, nodes, e)
    ensures !Acceptable(total, nodes)
  {
    if e.RangeExceedsTotal? {
      var i :| 0 <= i < |nodes| && nodes[i] == e.node;
      assert OwnedAt(nodes, i, e.node.partitionEnd - 1);
    }
  }

  /** Each partition below the total has exactly one owner, the mapped one. */
  lemma ExactlyOneOwner(total: int, nodes: seq<Node>, owners: map<int, Node>, p: int) returns (i: nat)
    requires Acceptable(total, nodes) && Maps(nodes, owners) && 0 <= p < total
    ensures OwnedAt(nodes, i, p) && p in owners && owners[p] == nodes[i]
    ensures forall j :: OwnedAt(nodes, j, p) ==> j == i
  {
    assert Owned(nodes, p);
    var k :| OwnedAt(nodes, k, p);
    var j :| 0 <= j < |nodes| && nodes[j] == owners[p];
    assert OwnedAt(nodes, j, p);
    i := j;
  }

  /** Ranges below zero are not refused: a mapped partition lies below 0 exactly when some range starts there. */
  lemma BelowZero(total: int, nodes: seq<Node>, owners: map<int, Node>)
    requires Acceptable(total, nodes) && Maps(nodes, owners)
    ensures (exists p :: p in owners && p < 0) <==>
      (exists i :: 0 <= i < |nodes| && nodes[i].partitionStart < 0 && nodes[i].partitionStart < nodes[i].partitionEnd)
  {
    if i :| 0 <= i < |nodes| && nodes[i].partitionStart < 0 && nodes[i].partitionStart < nodes[i].partitionEnd {
      assert OwnedAt(nodes, i, nodes[i].partitionStart);
    }
    if p :| p in owners && p < 0 {
      var i :| 0 <= i < |nodes| && nodes[i] == owners[p];
    }
  }

  lemma NegativeStartIsAccepted()
    ensures Acceptable(1, [Node("a", "", -1, 1)])
  {
    assert OwnedAt([Node("a", "", -1, 1)], 0, 0);
  }

  /** Maps one node's range, or says why not. */
  method AssignNode(total: int, nodes: seq<Node>, n: nat, before: map<int, Node>) returns (r: Result<map<int, Node>>)
    requires n < |nodes| && Assigned(total, nodes[..n], before)
    ensures r.Ok? ==> Assigned(total, nodes[..n + 1], r.value)
    ensures r.Err? ==> Justified(total, nodes, r.error)
  {
    var node := nodes[n];
    var owners := before;
    var p := node.partitionStart;
    while p < node.partitionEnd
      invariant node.partitionStart <= p
      invariant forall q :: q in owners <==> q in before || node.partitionStart <= q < p
      invariant forall q :: q in owners ==> owners[q] == if q in before then before[q] else node
      invariant p > node.partitionStart ==> p <= total && p <= node.partitionEnd
      invariant forall q :: node.partitionStart <= q < p ==> q !in before
    {
      if p >= total {
        return Err(RangeExceedsTotal(node));
      }
      if p in owners {
        var i :| 0 <= i < n && nodes[..n][i] == before[p];
        assert OwnedAt(nodes, i, p) && OwnedAt(nodes, n, p);
        return Err(AssignedTwice(p, owners[p], node));
      }
      owners := owners[p := node];
      p := p + 1;
    }
    NodeAssigned(total, nodes, n, before, owners);
    return Ok(owners);
  }

  lemma NodeAssigned(total: int, nodes: seq<Node>, n: nat, before: map<int, Node>, owners: map<int, Node>)
    requires n < |nodes| && Assigned(total, nodes[..n], before)
    requires forall q :: q in owners <==> q in before || nodes[n].OwnsPartition(q)
    requires forall q :: q in owners ==> owners[q] == if q in before then before[q] else nodes[n]
    requires nodes[n].partitionStart < nodes[n].partitionEnd ==> nodes[n].partitionEnd <= total
    requires forall q :: nodes[n].OwnsPartition(q) ==> q !in before
    ensures Assigned(total, nodes[..n + 1], owners)
  {
    var some, more := nodes[..n], nodes[..n + 1];
    forall i, p | OwnedAt(more, i, p)
      ensures p in owners && p < total && (i < n ==> p in before)
    {
      assert i < n ==> OwnedAt(some, i, p);
    }
    forall i, j, p | OwnedAt(more, i, p) && OwnedAt(more, j, p)
      ensures i == j
    {
      assert i < n && j < n ==> OwnedAt(some, i, p) && OwnedAt(some, j, p);
    }
  }

  /** Builds a mapper exactly when the nodes are acceptable; otherwise the error says what is wrong with them. */
  method NewPartitionMapper(total: int, nodes: seq<Node>, score: Score) returns (r: Result<PartitionMapper>)
    ensures r.Ok? <==> Acceptable(total, nodes)
    ensures r.Ok? ==>
      r.value.Valid() && r.value.totalPartitions == total && r.value.nodes == nodes && r.value.score == score
    ensures r.Err? ==> Justified(total, nodes, r.error)
  {
    if total <= 0 {
      return Err(NonPositiveTotal);
    }
    if nodes == [] {
      return Err(NoNodes);
    }
    var owners: map<int, Node> := map[];
    for n := 0 to |nodes|
      invariant Assigned(total, nodes[..n], owners)
    {
      var one := AssignNode(total, nodes, n, owners);
      if one.Err? {
        JustifiedIsUnacceptable(total, nodes, one.error);
        return Err(one.error);
      }
      owners := one.value;
    }
    assert nodes[..|nodes|] == nodes;
    for p := 0 to total
      invariant forall q :: 0 <= q < p ==> q in owners
    {
      if p !in owners {
        JustifiedIsUnacceptable(total, nodes, Unassigned(p));
        return Err(Unassigned(p));
      }
    }
    AllOwned(total, nodes, owners);
    var pm := new PartitionMapper(total, nodes, owners, score);
    return Ok(pm);
  }

  lemma AllOwned(total: int, nodes: seq<Node>, owners: map<int, Node>)
    requires total > 0 && nodes != [] && Assigned(total, nodes, owners) && forall p :: 0 <= p < total ==> p in owners
    ensures Acceptable(total, nodes)
  {
    forall p | 0 <= p < total
      ensures Owned(nodes, p)
    {
      var i :| 0 <= i < |nodes| && nodes[i] == owners[p];
      assert OwnedAt(nodes, i, p);
    }
  }

  // ------------------------------------------------------------------ rendezvous choice of replicas

  type Score = (int, string) -> nat

  /** Nodes other than the primary, in their order. */
  function Candidates(nodes: seq<Node>, primary: Node): seq<Node> {
    if nodes == [] then []
    else
      var rest := Candidates(nodes[..|nodes| - 1], primary);
      var n := nodes[|nodes| - 1];
      if n.id == primary.id then rest else rest + [n]
  }

  predicate Outranks(score: Score, p: int, s: seq<Node>, i: int, j: int) {
    0 <= i < j < |s| ==> score(p, s[i].id) >= score(p, s[j].id)
  }

  ghost predicate Descending(score: Score, p: int, s: seq<Node>) {
    forall i, j :: Outranks(score, p, s, i, j)
  }

  /** The candidates in some order of descending score. */
  ghost predicate Ranking(score: Score, p: int, nodes: seq<Node>, primary: Node, s: seq<Node>) {
    Descending(score, p, s) && multiset(s) == multiset(Candidates(nodes, primary))
  }

  /** The primary, then the highest ranked candidates. */
  ghost predicate Replicas(score: Score, p: int, nodes: seq<Node>, primary: Node, count: int, r: seq<Node>) {
    if count <= 1 then r == [primary]
    else exists s :: Ranking(score, p, nodes, primary, s) && r == Best(primary, s, count)
  }

  function Best(primary: Node, s: seq<Node>, count: int): seq<Node>
    requires count >= 1
  {
    [primary] + s[..Min(count - 1, |s|)]
  }

  /** No two nodes have the same score for this partition, so no two have the same id. */
  ghost predicate DistinctScores(score: Score, p: int, nodes: seq<Node>) {
    forall i, j :: 0 <= i < j < |nodes| ==> score(p, nodes[i].id) != score(p, nodes[j].id)
  }

  lemma {:induction false} CandidateIff(nodes: seq<Node>, primary: Node, x: Node)
    ensures x in Candidates(nodes, primary) <==> x in nodes && x.id != primary.id
  {
    if nodes != [] {
      CandidateIff(nodes[..|nodes| - 1], primary, x);
      assert nodes == nodes[..|nodes| - 1] + [nodes[|nodes| - 1]];
    }
  }

  lemma {:induction false} CandidatesPlus(a: seq<Node>, b: seq<Node>, primary: Node)
    ensures Candidates(a + b, primary) == Candidates(a, primary) + Candidates(b, primary)
  {
    if b == [] {
      assert a + b == a;
    } else {
      CandidatesPlus(a, b[..|b| - 1], primary);
      assert (a + b)[..|a + b| - 1] == a + b[..|b| - 1];
    }
  }

  lemma SameScoreSameNode(score: Score, p: int, nodes: seq<Node>, x: Node, y: Node)
    requires DistinctScores(score, p, nodes) && x in nodes && y in nodes && score(p, x.id) == score(p, y.id)
    ensures x == y
  {
    var i :| 0 <= i < |nodes| && nodes[i] == x;
    var j :| 0 <= j < |nodes| && nodes[j] == y;
  }

  lemma {:induction false} OnceEach(score: Score, p: int, nodes: seq<Node>, primary: Node, x: Node)
    requires DistinctScores(score, p, nodes)
    ensures multiset(Candidates(nodes, primary))[x] <= 1
  {
    if nodes != [] {
      var rest := nodes[..|nodes| - 1];
      OnceEach(score, p, rest, primary, x);
      CandidateIff(rest, primary, x);
    }
  }

  lemma {:induction false} CandidateCount(score: Score, p: int, nodes: seq<Node>, primary: Node)
    requires DistinctScores(score, p, nodes) && primary in nodes
    ensures |Candidates(nodes, primary)| == |nodes| - 1
  {
    var k :| 0 <= k < |nodes| && nodes[k] == primary;
    var rest, last := nodes[..|nodes| - 1], nodes[|nodes| - 1];
    if k == |nodes| - 1 {
      NoneLeftOut(rest, primary);
    } else {
      assert rest[k] == primary;
      CandidateCount(score, p, rest, primary);
    }
  }

  lemma {:induction false} NoneLeftOut(nodes: seq<Node>, primary: Node)
    requires forall i :: 0 <= i < |nodes| ==> nodes[i].id != primary.id
    ensures Candidates(nodes, primary) == nodes
  {
    if nodes != [] {
      NoneLeftOut(nodes[..|nodes| - 1], primary);
    }
  }

  lemma InRanking(s: seq<Node>, nodes: seq<Node>, primary: Node, x: Node)
    requires multiset(s) == multiset(Candidates(nodes, primary))
    ensures x in s <==> x in nodes && x.id != primary.id
  {
    CandidateIff(nodes, primary, x);
    assert x in s <==> x in multiset(s);
    assert x in Candidates(nodes, primary) <==> x in multiset(Candidates(nodes, primary));
  }

  lemma DifferentPlaces(score: Score, p: int, nodes: seq<Node>, primary: Node, s: seq<Node>, i: nat, j: nat)
    requires DistinctScores(score, p, nodes) && Ranking(score, p, nodes, primary, s) && i < j < |s|
    ensures score(p, s[i].id) > score(p, s[j].id)
  {
    assert Outranks(score, p, s, i, j);
    if score(p, s[i].id) == score(p, s[j].id) {
      InRanking(s, nodes, primary, s[i]);
      InRanking(s, nodes, primary, s[j]);
      SameScoreSameNode(score, p, nodes, s[i], s[j]);
      assert s == s[..j] + s[j..];
      assert s[i] in multiset(s[..j]) && s[i] in multiset(s[j..]);
      OnceEach(score, p, nodes, primary, s[i]);
    }
  }

  lemma HeadOutscores(score: Score, p: int, a: seq<Node>, b: seq<Node>)
    requires Descending(score, p, a) && multiset(a) == multiset(b) && a != [] && b != []
    ensures score(p, a[0].id) >= score(p, b[0].id) && b[0] in a
  {
    assert b[0] in multiset(a);
    var i :| 0 <= i < |a| && a[i] == b[0];
    assert Outranks(score, p, a, 0, i);
  }

  lemma SameTails(a: seq<Node>, b: seq<Node>)
    requires a != [] && b != [] && a[0] == b[0] && multiset(a) == multiset(b)
    ensures multiset(a[1..]) == multiset(b[1..])
  {
    assert a == [a[0]] + a[1..] && b == [b[0]] + b[1..];
    assert multiset(a[1..]) == multiset(a) - multiset{a[0]};
  }

  /** Two rankings of the same candidates agree when scores are distinct. */
  lemma {:induction false} RankingsAgree(score: Score, p: int, a: seq<Node>, b: seq<Node>)
    requires Descending(score, p, a) && Descending(score, p, b) && multiset(a) == multiset(b)
    requires forall x: Node, y: Node :: x in a && y in a && score(p, x.id) == score(p, y.id) ==> x == y
    ensures a == b
  {
    assert |a| == |multiset(a)| == |multiset(b)| == |b|;
    if a != [] {
      HeadOutscores(score, p, a, b);
      HeadOutscores(score, p, b, a);
      SameTails(a, b);
      TailDescends(score, p, a);
      TailDescends(score, p, b);
      RankingsAgree(score, p, a[1..], b[1..]);
    }
  }

  lemma TailDescends(score: Score, p: int, s: seq<Node>)
    requires s != [] && Descending(score, p, s)
    ensures Descending(score, p, s[1..])
  {
    forall i, j
      ensures Outranks(score, p, s[1..], i, j)
    {
      assert Outranks(score, p, s, i + 1, j + 1);
    }
  }

  /** The choice is determined: any two answers for the same nodes are equal. */
  lemma ChoiceIsDetermined(score: Score, p: int, nodes: seq<Node>, primary: Node, count: int, r: seq<Node>,
                           q: seq<Node>)
    requires DistinctScores(score, p, nodes)
    requires Replicas(score, p, nodes, primary, count, r) && Replicas(score, p, nodes, primary, count, q)
    ensures r == q
  {
    if count > 1 {
      var a :| Ranking(score, p, nodes, primary, a) && r == Best(primary, a, count);
      var b :| Ranking(score, p, nodes, primary, b) && q == Best(primary, b, count);
      forall x: Node, y: Node | x in a && y in a && score(p, x.id) == score(p, y.id)
        ensures x == y
      {
        InRanking(a, nodes, primary, x);
        InRanking(a, nodes, primary, y);
        SameScoreSameNode(score, p, nodes, x, y);
      }
      RankingsAgree(score, p, a, b);
    }
  }

  /** Primary first, no node twice, as many as asked for or as there are. */
  lemma ChoiceIsDistinct(score: Score, p: int, nodes: seq<Node>, primary: Node, count: int, r: seq<Node>)
    requires DistinctScores(score, p, nodes) && primary in nodes && Replicas(score, p, nodes, primary, count, r)
    ensures |r| == Min(Max(count, 1), |nodes|) && r[0] == primary
    ensures forall i :: 0 <= i < |r| ==> r[i] in nodes
    ensures forall i, j :: 0 <= i < j < |r| ==> r[i].id != r[j].id
  {
    if count > 1 {
      var s :| Ranking(score, p, nodes, primary, s) && r == Best(primary, s, count);
      CandidateCount(score, p, nodes, primary);
      assert |s| == |multiset(s)| == |multiset(Candidates(nodes, primary))|;
      forall i | 1 <= i < |r|
        ensures r[i] in nodes && r[i].id != primary.id
      {
        InRanking(s, nodes, primary, s[i - 1]);
      }
      forall i, j | 0 <= i < j < |r|
        ensures r[i].id != r[j].id
      {
        if i > 0 {
          DifferentPlaces(score, p, nodes, primary, s, i - 1, j - 1);
        }
      }
    }
  }

  /** Every replica outscores every node left out. */
  lemma ChoiceIsTop(score: Score, p: int, nodes: seq<Node>, primary: Node, count: int, r: seq<Node>, i: nat, x: Node)
    requires DistinctScores(score, p, nodes) && primary in nodes && Replicas(score, p, nodes, primary, count, r)
    requires 1 <= i < |r| && x in nodes && x !in r
    ensures score(p, r[i].id) > score(p, x.id)
  {
    var s :| Ranking(score, p, nodes, primary, s) && r == Best(primary, s, count);
    var k := PlaceOfLeftOut(score, p, nodes, primary, s, count, x);
    DifferentPlaces(score, p, nodes, primary, s, i - 1, k);
  }

  /** A node left out comes later in the ranking than those chosen. */
  lemma PlaceOfLeftOut(score: Score, p: int, nodes: seq<Node>, primary: Node, s: seq<Node>, count: int,
                       x: Node) returns (k: nat)
    requires DistinctScores(score, p, nodes) && Ranking(score, p, nodes, primary, s) && count >= 1
    requires x in nodes && primary in nodes && x !in Best(primary, s, count)
    ensures count - 1 <= k < |s| && s[k] == x
  {
    var r := Best(primary, s, count);
    assert r[0] == primary;
    assert forall i :: 0 <= i < |r| - 1 ==> s[i] == r[i + 1];
    if x.id == primary.id {
      SameScoreSameNode(score, p, nodes, x, primary);
    }
    InRanking(s, nodes, primary, x);
    k :| 0 <= k < |s| && s[k] == x;
  }

  /** When a node that was not chosen leaves, the choice for a partition with the same primary stays as it is. */
  lemma ChoiceIsStable(score: Score, p: int, nodes: seq<Node>, w: nat, primary: Node, count: int, r: seq<Node>,
                       after: seq<Node>)
    requires DistinctScores(score, p, nodes) && primary in nodes && w < |nodes|
    requires Replicas(score, p, nodes, primary, count, r) && nodes[w] !in r
    requires Replicas(score, p, nodes[..w] + nodes[w + 1..], primary, count, after)
    ensures after == r
  {
    if count > 1 {
      var s :| Ranking(score, p, nodes, primary, s) && r == Best(primary, s, count);
      var k := PlaceOfLeftOut(score, p, nodes, primary, s, count, nodes[w]);
      RankingWithout(score, p, nodes, w, primary, s, k);
      assert Best(primary, s[..k] + s[k + 1..], count) == r;
      DistinctWithout(score, p, nodes, w);
      ChoiceIsDetermined(score, p, nodes[..w] + nodes[w + 1..], primary, count, r, after);
    }
  }

  lemma DistinctWithout(score: Score, p: int, nodes: seq<Node>, w: nat)
    requires DistinctScores(score, p, nodes) && w < |nodes|
    ensures DistinctScores(score, p, nodes[..w] + nodes[w + 1..])
  {
  }

  lemma RankingWithout(score: Score, p: int, nodes: seq<Node>, w: nat, primary: Node, s: seq<Node>, k: nat)
    requires Ranking(score, p, nodes, primary, s) && w < |nodes| && k < |s| && s[k] == nodes[w]
    ensures Ranking(score, p, nodes[..w] + nodes[w + 1..], primary, s[..k] + s[k + 1..])
  {
    var t := s[..k] + s[k + 1..];
    forall i, j
      ensures Outranks(score, p, t, i, j)
    {
      assert Outranks(score, p, s, if i < k then i else i + 1, if j < k then j else j + 1);
    }
    InRanking(s, nodes, primary, s[k]);
    OneLess(s, k);
    CandidatesWithout(nodes, w, primary);
  }

  lemma OneLess(s: seq<Node>, k: nat)
    requires k < |s|
    ensures multiset(s[..k] + s[k + 1..]) == multiset(s) - multiset{s[k]}
  {
    assert s == s[..k] + [s[k]] + s[k + 1..];
  }

  lemma CandidatesAround(nodes: seq<Node>, w: nat, primary: Node)
    requires w < |nodes| && nodes[w].id != primary.id
    ensures Candidates(nodes, primary)
      == Candidates(nodes[..w], primary) + [nodes[w]] + Candidates(nodes[w + 1..], primary)
  {
    var a, b := nodes[..w], nodes[w + 1..];
    assert nodes == a + [nodes[w]] + b;
    CandidatesPlus(a + [nodes[w]], b, primary);
    CandidatesPlus(a, [nodes[w]], primary);
    assert [nodes[w]][..0] == [];
    assert Candidates([nodes[w]], primary) == [nodes[w]];
  }

  lemma CandidatesWithout(nodes: seq<Node>, w: nat, primary: Node)
    requires w < |nodes| && nodes[w].id != primary.id
    ensures multiset(Candidates(nodes[..w] + nodes[w + 1..], primary))
      == multiset(Candidates(nodes, primary)) - multiset{nodes[w]}
  {
    CandidatesPlus(nodes[..w], nodes[w + 1..], primary);
    CandidatesAround(nodes, w, primary);
  }

  // ------------------------------------------------------------------ the mapper

  method InsertByScore(score: Score, p: int, t: seq<Node>, x: Node) returns (u: seq<Node>)
    requires Descending(score, p, t)
    ensures Descending(score, p, u) && multiset(u) == multiset(t) + multiset{x}
  {
    var k := 0;
    while k < |t| && score(p, t[k].id) >= score(p, x.id)
      invariant 0 <= k <= |t|
      invariant forall j :: 0 <= j < k ==> score(p, t[j].id) >= score(p, x.id)
    {
      k := k + 1;
    }
    InsertedDescends(score, p, t, k, x);
    assert t == t[..k] + t[k..];
    u := t[..k] + [x] + t[k..];
  }

  /** Any order of descending score will do; the original leaves it to the library's sort. */
  method SortByScore(score: Score, p: int, s: seq<Node>) returns (t: seq<Node>)
    ensures Descending(score, p, t) && multiset(t) == multiset(s)
  {
    t := [];
    for i := 0 to |s|
      invariant Descending(score, p, t) && multiset(t) == multiset(s[..i])
    {
      t := InsertByScore(score, p, t, s[i]);
      assert s[..i + 1] == s[..i] + [s[i]];
    }
    assert s[..|s|] == s;
  }

  lemma InsertedDescends(score: Score, p: int, t: seq<Node>, k: nat, x: Node)
    requires Descending(score, p, t) && k <= |t|
    requires forall j :: 0 <= j < k ==> score(p, t[j].id) >= score(p, x.id)
    requires k < |t| ==> score(p, t[k].id) < score(p, x.id)
    ensures Descending(score, p, t[..k] + [x] + t[k..])
  {
    var u := t[..k] + [x] + t[k..];
    forall i, j
      ensures Outranks(score, p, u, i, j)
    {
      assert Outranks(score, p, t, if i < k then i else i - 1, if j < k then j else j - 1);
      assert Outranks(score, p, t, k, j - 1);
    }
  }

  class PartitionMapper {
    const totalPartitions: int
    const nodes: seq<Node>
    const partitionToNode: map<int, Node>
    const score: Score

    ghost predicate Valid() {
      Acceptable(totalPartitions, nodes) && Maps(nodes, partitionToNode)
    }

    constructor (total: int, nodes: seq<Node>, owners: map<int, Node>, score: Score)
      requires Acceptable(total, nodes) && Maps(nodes, owners)
      ensures Valid() && totalPartitions == total && this.nodes == nodes && partitionToNode == owners &&
        this.score == score
    {
      totalPartitions, this.nodes, partitionToNode, this.score := total, nodes, owners, score;
    }

    /** The node that owns the partition, whoever that is; there is one below the total. */
    method GetPrimaryNode(p: int) returns (r: Option<Node>)
      requires Valid()
      ensures r.Some? <==> Owned(nodes, p)
      ensures r.Some? ==> forall i :: OwnedAt(nodes, i, p) ==> nodes[i] == r.value
      ensures 0 <= p < totalPartitions ==> r.Some?
    {
      if p !in partitionToNode {
        return None;
      }
      var j :| 0 <= j < |nodes| && nodes[j] == partitionToNode[p];
      assert OwnedAt(nodes, j, p);
      return Some(partitionToNode[p]);
    }

    method CollectCandidates(primary: Node) returns (candidates: seq<Node>)
      ensures candidates == Candidates(nodes, primary)
    {
      candidates := [];
      for i := 0 to |nodes|
        invariant candidates == Candidates(nodes[..i], primary)
      {
        assert nodes[..i + 1][..i] == nodes[..i];
        if nodes[i].id != primary.id {
          candidates := candidates + [nodes[i]];
        }
      }
      assert nodes[..|nodes|] == nodes;
    }

    /** Nothing without a primary, else the primary and the best ranked other nodes. */
    method GetNodesForPartition(p: int, replicaCount: int) returns (r: seq<Node>)
      requires Valid()
      ensures r == [] <==> !Owned(nodes, p)
      ensures r != [] ==> r[0] in nodes && r[0].OwnsPartition(p) && Replicas(score, p, nodes, r[0], replicaCount, r)
    {
      var primary := GetPrimaryNode(p);
      if primary.None? {
        return [];
      }
      if replicaCount <= 1 || |nodes| <= 1 {
        r := [primary.value];
        if |nodes| <= 1 {
          OnlyPrimary(p, primary.value, replicaCount);
        }
      } else {
        r := PickReplicas(p, primary.value, replicaCount);
      }
    }

    lemma OnlyPrimary(p: int, primary: Node, count: int)
      requires primary in nodes && |nodes| <= 1
      ensures Replicas(score, p, nodes, primary, count, [primary])
    {
      assert nodes[..0] == [];
      assert Candidates(nodes, primary) == [];
      assert Ranking(score, p, nodes, primary, []);
      assert count > 1 ==> [primary] == Best(primary, [], count);
    }

    method PickReplicas(p: int, primary: Node, replicaCount: int) returns (r: seq<Node>)
      requires replicaCount > 1
      ensures Replicas(score, p, nodes, primary, replicaCount, r) && r != [] && r[0] == primary
    {
      var candidates := CollectCandidates(primary);
      var ranked := SortByScore(score, p, candidates);
      r := [primary];
      var i := 0;
      while i < |ranked| && |r| < replicaCount
        invariant 0 <= i <= |ranked| && |r| == i + 1 <= replicaCount
        invariant r == [primary] + ranked[..i]
      {
        r := r + [ranked[i]];
        i := i + 1;
      }
      assert r == Best(primary, ranked, replicaCount);
    }
  }
}
