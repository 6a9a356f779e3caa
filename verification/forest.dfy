/** The id-level forest behind the union-find structure. Node ids are dense
    (0 .. n-1), so the parent and rank tables are sequences indexed by id. A
    node whose parent is itself is a root. Ranks strictly increase along
    every parent edge, which is what union by rank maintains; it makes every
    parent walk finite. */
module Forest {

  /** Parent and rank tables have one entry per node, parents are nodes,
      and ranks climb along every non-root edge. */
  ghost predicate Valid(p: seq<int>, rk: seq<int>) {
    && |p| == |rk|
    && (forall i :: 0 <= i < |p| ==> 0 <= p[i] < |p|)
    && (forall i :: 0 <= i < |p| && p[i] != i ==> rk[i] < rk[p[i]])
  }

  /** An upper bound of all ranks; the distance to it measures a walk. */
  ghost function MaxRank(rk: seq<int>): (m: int)
    ensures forall i :: 0 <= i < |rk| ==> rk[i] <= m
  {
    if |rk| == 0 then 0
    else
      var m := MaxRank(rk[..|rk| - 1]);
      assert forall i :: 0 <= i < |rk| - 1 ==> rk[..|rk| - 1][i] == rk[i];
      if rk[|rk| - 1] > m then rk[|rk| - 1] else m
  }

  /** The first walk of `_find_root`: follows parent pointers from node i
      until a node is its own parent. */
  function Climb(p: seq<int>, rk: seq<int>, i: int): (r: int)
    requires Valid(p, rk) && 0 <= i < |p|
    ensures 0 <= r < |p| && p[r] == r
    decreases MaxRank(rk) - rk[i]
  {
    if p[i] == i then i else Climb(p, rk, p[i])
  }

  /** The root of node i. Facts quantified over all nodes are stated about
      this non-recursive name, so that unfolding the walk never produces new
      instances of them. */
  ghost function Root(p: seq<int>, rk: seq<int>, i: int): (r: int)
    requires Valid(p, rk) && 0 <= i < |p|
    ensures 0 <= r < |p| && p[r] == r
  {
    Climb(p, rk, i)
  }

  /** The nodes on the parent path from i up to and including its root. */
  ghost function Path(p: seq<int>, rk: seq<int>, i: int): (s: set<int>)
    requires Valid(p, rk) && 0 <= i < |p|
    ensures i in s && forall j :: j in s ==> 0 <= j < |p|
    decreases MaxRank(rk) - rk[i]
  {
    if p[i] == i then {i} else {i} + Path(p, rk, p[i])
  }

  /** Everything on the path from i is a node with i's root and a rank at
      least i's; the root itself is on the path. */
  lemma {:induction false} PathFacts(p: seq<int>, rk: seq<int>, i: int)
    requires Valid(p, rk) && 0 <= i < |p|
    ensures Root(p, rk, i) in Path(p, rk, i)
    ensures forall j :: j in Path(p, rk, i) ==> 0 <= j < |p| && Root(p, rk, j) == Root(p, rk, i) && rk[i] <= rk[j]
    decreases MaxRank(rk) - rk[i]
  {
    if p[i] != i {
      PathFacts(p, rk, p[i]);
    }
  }

  /** A non-root node has a strictly smaller rank than its root. */
  lemma {:induction false} RootRankAbove(p: seq<int>, rk: seq<int>, i: int)
    requires Valid(p, rk) && 0 <= i < |p|
    ensures Root(p, rk, i) != i ==> rk[i] < rk[Root(p, rk, i)]
    decreases MaxRank(rk) - rk[i]
  {
    if p[i] != i {
      RootRankAbove(p, rk, p[i]);
    }
  }

  /** p' differs from p only in pointers redirected to the node's root: the
      effect of path compression. */
  ghost predicate Compressed(p: seq<int>, rk: seq<int>, p': seq<int>)
    requires Valid(p, rk)
  {
    && |p'| == |p|
    && (forall i :: 0 <= i < |p| ==> p'[i] == p[i] || p'[i] == Root(p, rk, i))
  }

  /** A redirected pointer still climbs in rank: the root outranks the node. */
  lemma CompressedEdge(p: seq<int>, rk: seq<int>, p': seq<int>, i: int)
    requires Valid(p, rk) && Compressed(p, rk, p') && 0 <= i < |p| && p'[i] != i
    ensures 0 <= p'[i] < |p| && rk[i] < rk[p'[i]]
  {
    RootRankAbove(p, rk, i);
  }

  lemma CompressedValid(p: seq<int>, rk: seq<int>, p': seq<int>)
    requires Valid(p, rk) && Compressed(p, rk, p')
    ensures Valid(p', rk)
  {
    forall i | 0 <= i < |p'|
      ensures 0 <= p'[i] < |p'| && (p'[i] != i ==> rk[i] < rk[p'[i]])
    {
      if p'[i] != i {
        CompressedEdge(p, rk, p', i);
      }
    }
  }

  lemma {:induction false} CompressedRoot(p: seq<int>, rk: seq<int>, p': seq<int>, i: int)
    requires Valid(p, rk) && Compressed(p, rk, p') && Valid(p', rk) && 0 <= i < |p|
    ensures Root(p', rk, i) == Root(p, rk, i)
    decreases MaxRank(rk) - rk[i]
  {
    if p'[i] != i {
      CompressedRoot(p, rk, p', p'[i]);
    }
  }

  /** Path compression keeps the forest valid and every node's root. */
  lemma CompressedKeepsRoots(p: seq<int>, rk: seq<int>, p': seq<int>)
    requires Valid(p, rk) && Compressed(p, rk, p')
    ensures Valid(p', rk)
    ensures forall i :: 0 <= i < |p| ==> Root(p', rk, i) == Root(p, rk, i)
  {
    CompressedValid(p, rk, p');
    forall i | 0 <= i < |p|
      ensures Root(p', rk, i) == Root(p, rk, i)
    {
      CompressedRoot(p, rk, p', i);
    }
  }

  /** Adding a fresh node as its own root with rank 0 keeps every old root. */
  lemma AddRootKeepsRoots(p: seq<int>, rk: seq<int>)
    requires Valid(p, rk)
    ensures Valid(p + [|p|], rk + [0])
    ensures Root(p + [|p|], rk + [0], |p|) == |p|
    ensures forall i :: 0 <= i < |p| ==> Root(p + [|p|], rk + [0], i) == Root(p, rk, i)
  {
    var p', rk' := p + [|p|], rk + [0];
    assert forall i :: 0 <= i < |p| ==> p'[i] == p[i] && rk'[i] == rk[i];
    assert Valid(p', rk');
    forall i | 0 <= i < |p|
      ensures Root(p', rk', i) == Root(p, rk, i)
    {
      AddRootRoot(p, rk, i);
    }
  }

  lemma {:induction false} AddRootRoot(p: seq<int>, rk: seq<int>, i: int)
    requires Valid(p, rk) && 0 <= i < |p| && Valid(p + [|p|], rk + [0])
    ensures Root(p + [|p|], rk + [0], i) == Root(p, rk, i)
    decreases MaxRank(rk) - rk[i]
  {
    assert (p + [|p|])[i] == p[i];
    if p[i] != i {
      AddRootRoot(p, rk, p[i]);
    }
  }

  /** The second walk of `_find_root`: from idx up to the root, every node
      visited is pointed at `root`. The table being rewritten is `cur`; the
      pointers ahead of the walk are still those of the original forest p. */
  function Redirect(ghost p: seq<int>, rk: seq<int>, cur: seq<int>, idx: int, root: int): (r: seq<int>)
    requires Valid(p, rk) && 0 <= idx < |p| && |cur| == |p|
    requires forall i :: i in Path(p, rk, idx) ==> cur[i] == p[i]
    ensures |r| == |p|
    ensures forall i :: 0 <= i < |p| ==> r[i] == if i in Path(p, rk, idx) then root else cur[i]
    decreases MaxRank(rk) - rk[idx]
  {
    PathFacts(p, rk, idx);
    var next := cur[idx];
    var cur' := cur[idx := root];
    if next == idx then cur'
    else
      PathFacts(p, rk, next);
      Redirect(p, rk, cur', next, root)
  }

  /** `_find_root`: walks to the root, then walks the same path again and
      points every node on it directly at the root. Returns the new parent
      table and the root. */
  function FindAndCompress(p: seq<int>, rk: seq<int>, start: int): (r: (seq<int>, int))
    requires Valid(p, rk) && 0 <= start < |p|
    ensures r.1 == Root(p, rk, start) && p[r.1] == r.1
    ensures |r.0| == |p|
    ensures forall i :: 0 <= i < |p| ==> r.0[i] == if i in Path(p, rk, start) then r.1 else p[i]
  {
    var root := Climb(p, rk, start);
    (Redirect(p, rk, p, start, root), root)
  }

  /** Compressing the path from `start` is a compression in the sense of
      Compressed: it keeps the forest valid and every node's root. */
  lemma FindAndCompressKeepsRoots(p: seq<int>, rk: seq<int>, start: int)
    requires Valid(p, rk) && 0 <= start < |p|
    ensures Compressed(p, rk, FindAndCompress(p, rk, start).0)
    ensures Valid(FindAndCompress(p, rk, start).0, rk)
    ensures forall i :: 0 <= i < |p| ==> Root(FindAndCompress(p, rk, start).0, rk, i) == Root(p, rk, i)
  {
    var p' := FindAndCompress(p, rk, start).0;
    PathFacts(p, rk, start);
    assert Compressed(p, rk, p');
    CompressedKeepsRoots(p, rk, p');
  }

  /** The union-by-rank step of `join` on two distinct roots: the root of
      lower rank becomes a child of the other; on a tie u's root wins and its
      rank grows by one. */
  function Link(p: seq<int>, rk: seq<int>, ru: int, rv: int): (r: (seq<int>, seq<int>))
    requires Valid(p, rk) && 0 <= ru < |p| && 0 <= rv < |p|
    requires p[ru] == ru && p[rv] == rv && ru != rv
    ensures Valid(r.0, r.1) && |r.0| == |p|
    // exactly one of the two stays a root; the other becomes its child
    ensures (r.0[ru] == ru && r.0[rv] == ru) || (r.0[rv] == rv && r.0[ru] == rv)
    // the child never has the larger rank; on a tie, u's root wins
    ensures r.0[ru] == rv ==> rk[ru] < rk[rv]
    ensures r.0[rv] == ru ==> rk[rv] <= rk[ru]
    // no other pointer changes
    ensures forall i :: 0 <= i < |p| && i != ru && i != rv ==> r.0[i] == p[i]
    // only a tie raises a rank, and then only the surviving root's, by one
    ensures |r.1| == |rk|
    ensures forall i :: 0 <= i < |rk| ==> r.1[i] == rk[i] || (r.1[i] == rk[i] + 1 && rk[ru] == rk[rv] && i == ru)
    ensures rk[ru] == rk[rv] ==> r.1[ru] == rk[ru] + 1
  {
    var rankU := rk[ru];
    var rankV := rk[rv];
    var (winner, child) := if rankU < rankV then (rv, ru) else (ru, rv);
    var p' := p[child := winner];
    var rk' := if rankU == rankV then rk[winner := rankU + 1] else rk;
    LinkValid(p, rk, p', rk', winner, child);
    (p', rk')
  }

  /** Hanging root `child` under root `winner`, with ranks that keep the edge
      climbing, keeps the forest valid. */
  lemma LinkValid(p: seq<int>, rk: seq<int>, p': seq<int>, rk': seq<int>, winner: int, child: int)
    requires Valid(p, rk) && 0 <= winner < |p| && 0 <= child < |p|
    requires p[winner] == winner && p[child] == child && winner != child
    requires p' == p[child := winner] && |rk'| == |rk|
    requires rk'[child] < rk'[winner]
    requires forall i :: 0 <= i < |rk| ==> rk[i] <= rk'[i]
    requires forall i :: 0 <= i < |rk| && i != winner ==> rk'[i] == rk[i]
    ensures Valid(p', rk')
  {
    forall i | 0 <= i < |p'| && p'[i] != i
      ensures rk'[i] < rk'[p'[i]]
    {
      if i != child {
        assert p'[i] == p[i] && i != winner;
      }
    }
  }

  /** Linking merges exactly the two trees of ru and rv under the surviving
      root; every other node keeps its root. */
  lemma LinkMerges(p: seq<int>, rk: seq<int>, ru: int, rv: int)
    requires Valid(p, rk) && 0 <= ru < |p| && 0 <= rv < |p|
    requires p[ru] == ru && p[rv] == rv && ru != rv
    ensures var (p', rk') := Link(p, rk, ru, rv);
      var winner := if p'[ru] == ru then ru else rv;
      forall i :: 0 <= i < |p| ==>
        Root(p', rk', i) == (if Root(p, rk, i) == ru || Root(p, rk, i) == rv then winner else Root(p, rk, i))
  {
    var (p', rk') := Link(p, rk, ru, rv);
    var (winner, child) := if p'[ru] == ru then (ru, rv) else (rv, ru);
    forall i | 0 <= i < |p|
      ensures Root(p', rk', i) == (if Root(p, rk, i) == winner || Root(p, rk, i) == child then winner else Root(p, rk, i))
    {
      LinkRoot(p, rk, p', rk', winner, child, i);
    }
  }

  lemma {:induction false} LinkRoot(p: seq<int>, rk: seq<int>, p': seq<int>, rk': seq<int>, winner: int, child: int, i: int)
    requires Valid(p, rk) && Valid(p', rk') && 0 <= i < |p| && 0 <= winner < |p| && 0 <= child < |p|
    requires p[winner] == winner && p[child] == child && winner != child
    requires p' == p[child := winner]
    ensures Root(p', rk', i) == (if Root(p, rk, i) == winner || Root(p, rk, i) == child then winner else Root(p, rk, i))
    decreases MaxRank(rk) - rk[i]
  {
    if p[i] != i {
      LinkRoot(p, rk, p', rk', winner, child, p[i]);
    } else if i == child {
      assert Root(p', rk', winner) == winner;
    }
  }
}
