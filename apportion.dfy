/** Tree apportionment: how many of the requested trees the calling node builds
    (`DRFTask.howManyTrees`). The nodes that are home to at least one chunk are
    sorted; every one of them gets `ntrees / n` trees and the first
    `ntrees - (ntrees / n) * n` of them one more. The calling node finds its rank
    with `Arrays.binarySearch`, so a node that is home to no chunk sees a negative
    rank and, for a non-negative tree count, also gets the extra tree. */
module Apportion {
  import opened Cluster
  import opened JavaInt

  ghost predicate StrictlySorted(s: seq<NodeId>)
  {
    forall i, j :: 0 <= i < j < |s| ==> s[i] < s[j]
  }

  /** Every non-empty finite set of node ids has a least element. */
  lemma {:induction false} LeastExists(nodes: set<NodeId>)
    requires nodes != {}
    ensures exists m :: m in nodes && forall x :: x in nodes ==> m <= x
    decreases nodes
  {
    if forall z :: z !in nodes { assert false; }
    var y :| y in nodes;
    var rest := nodes - {y};
    if rest == {} {
      forall x | x in nodes ensures y <= x {
        assert x !in rest;
      }
    } else {
      LeastExists(rest);
      var m :| m in rest && forall x :: x in rest ==> m <= x;
      var least := if y < m then y else m;
      forall x | x in nodes ensures least <= x {
        if x != y { assert x in rest; }
      }
      assert least in nodes;
    }
  }

  /** `nodes.toArray()` followed by `Arrays.sort`: the elements of the set in increasing order. */
  function SortedNodes(nodes: set<NodeId>): (r: seq<NodeId>)
    ensures StrictlySorted(r)
    ensures |r| == |nodes|
    ensures forall x :: x in r <==> x in nodes
    decreases nodes
  {
    if nodes == {} then []
    else
      LeastExists(nodes);
      var m :| m in nodes && forall x :: x in nodes ==> m <= x;
      [m] + SortedNodes(nodes - {m})
  }

  /** There is only one sorted array of a set's elements, so the sort's result does
      not depend on the order the set hands its elements out in. */
  lemma {:induction false} SortedUnique(a: seq<NodeId>, b: seq<NodeId>)
    requires StrictlySorted(a) && StrictlySorted(b)
    requires forall x :: x in a <==> x in b
    ensures a == b
    decreases |a| + |b|, |b|
  {
    if a == [] {
      if b != [] {
        SortedUnique(b, a);
      }
    } else {
      assert a[0] in a;
      assert a[0] in b;
      assert a[0] == b[0] by {
        assert b[0] in a;
      }
      var a', b' := a[1..], b[1..];
      forall x ensures x in a' <==> x in b' {
        if x in a' { assert x in a && x != a[0]; }
        if x in b' { assert x in b && x != b[0]; }
      }
      SortedUnique(a', b');
      assert a == [a[0]] + a' && b == [b[0]] + b';
    }
  }

  /** The loop of `java.util.Arrays.binarySearch` on `a[low..high]` (`high` inclusive):
      the index of `key` when it occurs, otherwise `-(insertion point) - 1`. */
  function Bisect(a: seq<NodeId>, key: NodeId, low: nat, high: int): (r: int)
    requires StrictlySorted(a)
    requires low <= high + 1 <= |a|
    requires forall i :: 0 <= i < low ==> a[i] < key
    requires forall i :: high < i < |a| ==> key < a[i]
    ensures 0 <= r ==> low <= r <= high && a[r] == key
    ensures r < 0 ==> key !in a && -(r + 1) <= |a|
    ensures r < 0 ==> forall i :: 0 <= i < |a| ==> (a[i] < key <==> i < -(r + 1))
    decreases high + 1 - low
  {
    if low > high then -(low + 1)
    else
      var mid := (low + high) / 2;
      if a[mid] < key then Bisect(a, key, mid + 1, high)
      else if key < a[mid] then Bisect(a, key, low, mid - 1)
      else mid
  }

  /** `Arrays.binarySearch(a, key)` on a sorted array of distinct nodes. */
  function BinarySearch(a: seq<NodeId>, key: NodeId): (r: int)
    requires StrictlySorted(a)
    ensures 0 <= r ==> r < |a| && a[r] == key
    ensures r < 0 <==> key !in a
  {
    Bisect(a, key, 0, |a| - 1)
  }

  /** The locality set in sorted order: `array` after `Arrays.sort`. */
  function Locality(chunks: seq<Chunk>): seq<NodeId>
  {
    SortedNodes(OwnerSet(chunks))
  }

  /** The number of trees `self` builds locally, as `howManyTrees` computes it. */
  function Share(chunks: seq<Chunk>, self: NodeId, ntrees: int): (trees: int)
    requires |chunks| > 0
    ensures var n := |OwnerSet(chunks)|;
            trees == Quot(ntrees, n) || trees == Quot(ntrees, n) + 1
    ensures var n := |OwnerSet(chunks)|;
            self in OwnerSet(chunks) && trees != Quot(ntrees, n) ==> ntrees - Quot(ntrees, n) * n > 0
  {
    var nodes := OwnerSet(chunks);
    RankShare(BaseShare(ntrees, |nodes|), Remainder(ntrees, |nodes|), BinarySearch(SortedNodes(nodes), self))
  }

  /** The trees handed out over a sequence of nodes. */
  function TotalShare(chunks: seq<Chunk>, ids: seq<NodeId>, ntrees: int): int
    requires |chunks| > 0
  {
    if ids == [] then 0
    else TotalShare(chunks, ids[..|ids| - 1], ntrees) + Share(chunks, ids[|ids| - 1], ntrees)
  }

  /** What the node at sorted rank `k` gets when the base share is `base` and the
      first `rem` ranks get one tree more. */
  function RankShare(base: int, rem: int, k: int): int
  {
    if k < rem then base + 1 else base
  }

  /** What the nodes at sorted ranks `0 .. k-1` get together. */
  function RankTotal(base: int, rem: int, k: nat): int
  {
    if k == 0 then 0 else RankTotal(base, rem, k - 1) + RankShare(base, rem, k - 1)
  }

  /** The first `k` ranks get `base * k` trees plus one each for the ranks below `rem`. */
  lemma {:induction false} RankTotalIs(base: int, rem: int, k: nat)
    ensures RankTotal(base, rem, k) == base * k + (if k <= rem then k else if rem < 0 then 0 else rem)
  {
    if k > 0 {
      RankTotalIs(base, rem, k - 1);
      assert base * k == base * (k - 1) + base;
    }
  }

  /** The base share and the remainder `howManyTrees` computes for `n` nodes. */
  function BaseShare(ntrees: int, n: nat): int
    requires n > 0
  {
    Quot(ntrees, n)
  }

  function Remainder(ntrees: int, n: nat): int
    requires n > 0
  {
    ntrees - Quot(ntrees, n) * n
  }

  /** The node at sorted rank `k` of the locality set is found at rank `k`. */
  lemma ShareByRank(chunks: seq<Chunk>, ntrees: int, k: nat)
    requires |chunks| > 0
    requires k < |Locality(chunks)|
    ensures var n := |OwnerSet(chunks)|;
            Share(chunks, Locality(chunks)[k], ntrees) == RankShare(BaseShare(ntrees, n), Remainder(ntrees, n), k)
  {
    var a := Locality(chunks);
    assert a[k] in a;
  }

  /** The first `k` nodes of the sorted locality set get what the first `k` ranks get. */
  lemma {:induction false} TotalSharePrefix(chunks: seq<Chunk>, ntrees: int, k: nat)
    requires |chunks| > 0
    requires k <= |Locality(chunks)|
    ensures var n := |OwnerSet(chunks)|;
            TotalShare(chunks, Locality(chunks)[..k], ntrees) == RankTotal(BaseShare(ntrees, n), Remainder(ntrees, n), k)
  {
    if k > 0 {
      var a := Locality(chunks);
      assert a[..k][..k - 1] == a[..k - 1];
      assert a[..k][k - 1] == a[k - 1];
      TotalSharePrefix(chunks, ntrees, k - 1);
      ShareByRank(chunks, ntrees, k - 1);
    }
  }

  /** Summed over the sorted locality set, the local shares are exactly `ntrees`. */
  lemma SharesSumToNTrees(chunks: seq<Chunk>, ntrees: int)
    requires |chunks| > 0
    requires ntrees >= 0
    ensures TotalShare(chunks, Locality(chunks), ntrees) == ntrees
  {
    var a := Locality(chunks);
    var n := |OwnerSet(chunks)|;
    TotalSharePrefix(chunks, ntrees, n);
    assert a[..n] == a;
    RankTotalIs(BaseShare(ntrees, n), Remainder(ntrees, n), n);
  }

  /** Of two nodes that are home to chunks, the one with the lower id gets at least as
      many trees as the other, and at most one more. */
  lemma SharesBalanced(chunks: seq<Chunk>, ntrees: int, x: NodeId, y: NodeId)
    requires |chunks| > 0
    requires x in OwnerSet(chunks) && y in OwnerSet(chunks)
    requires x < y
    ensures Share(chunks, y, ntrees) <= Share(chunks, x, ntrees) <= Share(chunks, y, ntrees) + 1
  {
    var a := Locality(chunks);
    assert x in a && y in a;
    var i :| 0 <= i < |a| && a[i] == x;
    var j :| 0 <= j < |a| && a[j] == y;
    assert i < j;
    ShareByRank(chunks, ntrees, i);
    ShareByRank(chunks, ntrees, j);
  }

  /** A node that is home to no chunk is not found by the binary search, so its
      negative rank is below the remainder and it gets `ntrees / n + 1` trees. */
  lemma NonOwnerGetsExtraTree(chunks: seq<Chunk>, self: NodeId, ntrees: int)
    requires |chunks| > 0
    requires self !in OwnerSet(chunks)
    requires ntrees >= 0
    ensures Share(chunks, self, ntrees) == ntrees / |OwnerSet(chunks)| + 1
  {
    assert self !in Locality(chunks);
  }

  /** Four chunks, homed on nodes 1, 1, 2 and 3. */
  const FourChunks: seq<Chunk> := [Chunk(1, 100, 800), Chunk(1, 100, 800), Chunk(2, 100, 800), Chunk(3, 100, 800)]

  lemma FourChunksOwners()
    ensures OwnerSet(FourChunks) == {1, 2, 3}
  {
    var chunks := FourChunks;
    var owners := OwnerSet(chunks);
    assert chunks[0].home == 1 && chunks[1].home == 1 && chunks[2].home == 2 && chunks[3].home == 3;
    forall x | x in owners ensures x in {1, 2, 3} {
      var i :| 0 <= i < |chunks| && chunks[i].home == x;
      assert i == 0 || i == 1 || i == 2 || i == 3;
    }
  }

  lemma FourChunksLocality()
    ensures OwnerSet(FourChunks) == {1, 2, 3}
    ensures Locality(FourChunks) == [1, 2, 3]
  {
    FourChunksOwners();
    var a: seq<NodeId> := [1, 2, 3];
    assert StrictlySorted(a);
    assert forall x :: x in a <==> x in {1, 2, 3};
    SortedUnique(Locality(FourChunks), a);
  }

  /** Ten trees over those chunks: the sorted locality set is `[1, 2, 3]`, the base
      share 3 and the remainder 1, so node 1 builds 4 trees and nodes 2 and 3 build
      3 each. */
  lemma TenTreesOverThreeNodes()
    ensures Share(FourChunks, 1, 10) == 4
    ensures Share(FourChunks, 2, 10) == 3
    ensures Share(FourChunks, 3, 10) == 3
  {
    FourChunksLocality();
    assert |OwnerSet(FourChunks)| == 3;
    assert BaseShare(10, 3) == 3 && Remainder(10, 3) == 1;
    ShareByRank(FourChunks, 10, 0);
    ShareByRank(FourChunks, 10, 1);
    ShareByRank(FourChunks, 10, 2);
  }

  /** `howManyTrees`: collect the distinct chunk homes, stopping as soon as every
      cluster node has been seen, sort them and derive the local share. */
  method HowManyTrees(chunks: seq<Chunk>, cluster: set<NodeId>, self: NodeId, ntrees: int) returns (trees: int)
    requires |chunks| > 0
    requires forall i :: 0 <= i < |chunks| ==> chunks[i].home in cluster
    ensures trees == Share(chunks, self, ntrees)
  {
    var nodes := CollectOwners(chunks, cluster);
    var sorted := SortedNodes(nodes);
    trees := Quot(ntrees, |nodes|);
    if BinarySearch(sorted, self) < ntrees - trees * |nodes| {
      trees := trees + 1;
    }
  }

  /** The `HashSet` loop of `howManyTrees`. Stopping once the set is as large as the
      cluster does not change the set, since every home is a cluster node. */
  method CollectOwners(chunks: seq<Chunk>, cluster: set<NodeId>) returns (nodes: set<NodeId>)
    requires forall i :: 0 <= i < |chunks| ==> chunks[i].home in cluster
    ensures nodes == OwnerSet(chunks)
  {
    nodes := {};
    var i := 0;
    while i < |chunks|
      invariant 0 <= i <= |chunks|
      invariant nodes == OwnerSet(chunks[..i])
      invariant nodes <= cluster
    {
      assert chunks[..i + 1] == chunks[..i] + [chunks[i]];
      nodes := nodes + {chunks[i].home};
      if |nodes| == |cluster| {
        SubsetOfSameSize(nodes, cluster);
        return;
      }
      i := i + 1;
    }
    assert chunks[..i] == chunks;
  }

  /** A subset is no larger than its superset. */
  lemma {:induction false} SubsetNoLarger(a: set<NodeId>, b: set<NodeId>)
    requires a <= b
    ensures |a| <= |b|
    decreases a
  {
    if a != {} {
      if forall y :: y !in a { assert false; }
      var z :| z in a;
      SubsetNoLarger(a - {z}, b - {z});
    }
  }

  /** A subset as large as its superset is the superset. */
  lemma SubsetOfSameSize(a: set<NodeId>, b: set<NodeId>)
    requires a <= b && |a| == |b|
    ensures a == b
  {
    if x :| x in b && x !in a {
      SubsetNoLarger(a, b - {x});
    } else {
      assert forall x :: x in b ==> x in a;
    }
  }
}
