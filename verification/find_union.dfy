/** Disjoint sets with path compression and union by rank.

    Elements of any equality type are mapped to dense integer node ids
    (0, 1, 2, ... in order of first sight). Because the ids are dense, the
    id-keyed tables (element, parent, rank) are sequences indexed by id; the
    parent and rank tables form a Forest, and a node whose parent is itself
    is a root and represents its set. The structure is a value threaded through the
    operations: every operation that mutates the structure takes the old
    value and returns the new one together with its answer. */
module FindUnion {
  import Forest

  datatype FindUnion<T> = FindUnion(
    nodes: map<T, int>,      // element -> node id
    revNodes: seq<T>,        // node id -> element
    parents: seq<int>,       // node id -> parent id; roots point to themselves
    ranks: seq<int>)         // node id -> rank

  /** The representation invariant: the ids are 0 .. n-1 for n registered
      elements, the element map and the id table are inverse to each other,
      and the parent and rank tables form a valid forest over the ids. */
  ghost predicate Inv<T>(fu: FindUnion<T>) {
    && |fu.revNodes| == |fu.nodes| == |fu.parents|
    && Forest.Valid(fu.parents, fu.ranks)
    && (forall u :: u in fu.nodes ==> 0 <= fu.nodes[u] < |fu.revNodes| && fu.revNodes[fu.nodes[u]] == u)
    && (forall i :: 0 <= i < |fu.revNodes| ==> fu.revNodes[i] in fu.nodes && fu.nodes[fu.revNodes[i]] == i)
  }

  /** The root of node i. */
  ghost function Root<T>(fu: FindUnion<T>, i: int): (r: int)
    requires Inv(fu) && 0 <= i < |fu.parents|
    ensures 0 <= r < |fu.parents| && fu.parents[r] == r
  {
    Forest.Root(fu.parents, fu.ranks, i)
  }

  /** a and b are registered and resolve to the same root. */
  ghost predicate SameSet<T>(fu: FindUnion<T>, a: T, b: T)
    requires Inv(fu)
  {
    a in fu.nodes && b in fu.nodes && Root(fu, fu.nodes[a]) == Root(fu, fu.nodes[b])
  }

  /** SameSet, widened by the pairs (x, x) of elements not registered yet:
      the relation that holds once both elements are registered. */
  ghost predicate Related<T>(fu: FindUnion<T>, a: T, b: T)
    requires Inv(fu)
  {
    a == b || SameSet(fu, a, b)
  }

  /** fu' has the partition of fu plus a singleton set for every element of
      `extra` not registered in fu, and every old element keeps its id. */
  ghost predicate AddsSingletons<T>(fu: FindUnion<T>, fu': FindUnion<T>, extra: set<T>)
    requires Inv(fu) && Inv(fu')
  {
    && (forall x :: x in fu'.nodes ==> x in fu.nodes || x in extra)
    && (forall x :: x in extra ==> x in fu'.nodes)
    && (forall x :: x in fu.nodes ==> x in fu'.nodes && fu'.nodes[x] == fu.nodes[x])
    && (forall a, b | a in fu'.nodes && b in fu'.nodes ::
          SameSet(fu', a, b) <==> SameSet(fu, a, b) || (a == b && a in extra))
  }

  /** fu' is fu with u and v registered and their two sets merged into one. */
  ghost predicate Merged<T>(fu: FindUnion<T>, fu': FindUnion<T>, u: T, v: T)
    requires Inv(fu) && Inv(fu')
  {
    && (forall x :: x in fu'.nodes ==> x in fu.nodes || x == u || x == v)
    && u in fu'.nodes && v in fu'.nodes
    && (forall x :: x in fu.nodes ==> x in fu'.nodes && fu'.nodes[x] == fu.nodes[x])
    && (forall a, b | a in fu'.nodes && b in fu'.nodes ::
          SameSet(fu', a, b) <==>
          (Related(fu, a, b) || (Related(fu, a, u) && Related(fu, v, b)) || (Related(fu, a, v) && Related(fu, u, b))))
  }

  /** fu' has the elements, ids, ranks and roots of fu; only parent pointers
      may have been shortened to point nearer the same roots. */
  ghost predicate SameRoots<T>(fu: FindUnion<T>, fu': FindUnion<T>)
    requires Inv(fu) && Inv(fu')
  {
    && fu'.nodes == fu.nodes && fu'.revNodes == fu.revNodes && fu'.ranks == fu.ranks
    && |fu'.parents| == |fu.parents|
    && (forall i :: 0 <= i < |fu.parents| ==> Root(fu', i) == Root(fu, i))
  }

  /** `new`: the structure with no elements. */
  function Empty<T>(): (fu: FindUnion<T>)
    ensures Inv(fu) && |fu.nodes| == 0
  {
    FindUnion(map[], [], [], [])
  }

  /** Keeping elements and roots keeps the partition. */
  lemma SameRootsSameSets<T>(fu: FindUnion<T>, fu': FindUnion<T>)
    requires Inv(fu) && Inv(fu') && SameRoots(fu, fu')
    ensures AddsSingletons(fu, fu', {})
    ensures forall a, b :: SameSet(fu', a, b) == SameSet(fu, a, b)
  {
  }

  lemma SameRootsTrans<T>(fu: FindUnion<T>, fu1: FindUnion<T>, fu2: FindUnion<T>)
    requires Inv(fu) && Inv(fu1) && Inv(fu2)
    requires SameRoots(fu, fu1) && SameRoots(fu1, fu2)
    ensures SameRoots(fu, fu2)
  {
  }

  /** `_get_node`: the id of u, registering u as a fresh singleton set when
      it is new (id = number of known elements, parent = itself, rank 0). */
  function GetNode<T>(fu: FindUnion<T>, u: T): (r: (FindUnion<T>, int))
    requires Inv(fu)
    ensures Inv(r.0) && u in r.0.nodes && r.1 == r.0.nodes[u]
    ensures u in fu.nodes ==> r.0 == fu
    ensures u !in fu.nodes ==> r.1 == |fu.nodes| && r.0.parents[r.1] == r.1 && r.0.ranks[r.1] == 0
    ensures |fu.ranks| <= |r.0.ranks|
    ensures forall i :: 0 <= i < |fu.ranks| ==> r.0.ranks[i] == fu.ranks[i]
    ensures AddsSingletons(fu, r.0, {u})
  {
    if u in fu.nodes then (fu, fu.nodes[u])
    else
      var idx := |fu.nodes|;
      var fu' := FindUnion(fu.nodes[u := idx], fu.revNodes + [u], fu.parents + [idx], fu.ranks + [0]);
      RegisterKeepsPartition(fu, fu', u, idx);
      (fu', idx)
  }

  /** Registering a new element adds its singleton set and keeps every other. */
  lemma RegisterKeepsPartition<T>(fu: FindUnion<T>, fu': FindUnion<T>, u: T, idx: int)
    requires Inv(fu) && u !in fu.nodes && idx == |fu.nodes|
    requires fu' == FindUnion(fu.nodes[u := idx], fu.revNodes + [u], fu.parents + [idx], fu.ranks + [0])
    ensures Inv(fu') && AddsSingletons(fu, fu', {u})
  {
    Forest.AddRootKeepsRoots(fu.parents, fu.ranks);
    assert |fu'.nodes| == idx + 1;
    assert forall i :: 0 <= i < idx ==> fu'.revNodes[i] == fu.revNodes[i];
    assert Inv(fu');
    forall a, b | a in fu'.nodes && b in fu'.nodes
      ensures SameSet(fu', a, b) <==> SameSet(fu, a, b) || (a == b && a in {u})
    {
      RegisterPair(fu, fu', u, idx, a, b);
    }
  }

  lemma RegisterPair<T>(fu: FindUnion<T>, fu': FindUnion<T>, u: T, idx: int, a: T, b: T)
    requires Inv(fu) && Inv(fu') && u !in fu.nodes && idx == |fu.parents|
    requires fu'.nodes == fu.nodes[u := idx] && |fu'.parents| == idx + 1
    requires Root(fu', idx) == idx
    requires forall i :: 0 <= i < idx ==> Root(fu', i) == Root(fu, i)
    requires a in fu'.nodes && b in fu'.nodes
    ensures SameSet(fu', a, b) <==> SameSet(fu, a, b) || (a == b && a in {u})
  {
  }

  /** `contains`: a pure query; it registers nothing. */
  function Contains<T>(fu: FindUnion<T>, u: T): (r: bool)
    requires Inv(fu)
    ensures r <==> u in fu.revNodes
  {
    u in fu.nodes
  }

  /** `ensure`: registers u; the answer is true exactly when u was new. */
  function Ensure<T>(fu: FindUnion<T>, u: T): (r: (FindUnion<T>, bool))
    requires Inv(fu)
    ensures Inv(r.0) && AddsSingletons(fu, r.0, {u})
    ensures r.1 <==> !Contains(fu, u)
    ensures !r.1 ==> r.0 == fu
  {
    if u in fu.nodes then (fu, false)
    else (GetNode(fu, u).0, true)
  }

  /** Calling `ensure` twice on a new element answers true, then false, and
      the second call changes nothing. */
  lemma EnsureTwice<T>(fu: FindUnion<T>, u: T)
    requires Inv(fu) && !Contains(fu, u)
    ensures Ensure(fu, u).1
    ensures !Ensure(Ensure(fu, u).0, u).1
    ensures Ensure(Ensure(fu, u).0, u).0 == Ensure(fu, u).0
  {
    var fu1 := Ensure(fu, u).0;
    assert u in fu1.nodes;
  }

  /** `_find_root`: the root of node `start`, with the path from `start`
      compressed so that each node on it points directly at the root. */
  function FindRootIdx<T>(fu: FindUnion<T>, start: int): (r: (FindUnion<T>, int))
    requires Inv(fu) && 0 <= start < |fu.parents|
    ensures r.1 == Root(fu, start) && fu.parents[r.1] == r.1
    ensures r.0 == fu.(parents := r.0.parents)
    ensures |r.0.parents| == |fu.parents|
    ensures forall i :: 0 <= i < |fu.parents| ==>
      r.0.parents[i] == if i in Forest.Path(fu.parents, fu.ranks, start) then r.1 else fu.parents[i]
    ensures Inv(r.0) && SameRoots(fu, r.0)
  {
    var (p', root) := Forest.FindAndCompress(fu.parents, fu.ranks, start);
    Forest.FindAndCompressKeepsRoots(fu.parents, fu.ranks, start);
    (fu.(parents := p'), root)
  }

  /** `find_root`: registers u and returns the element at the root of its
      tree; for a new element that is u itself. */
  method FindRoot<T>(fu: FindUnion<T>, u: T) returns (fu': FindUnion<T>, rep: T)
    requires Inv(fu)
    ensures Inv(fu') && AddsSingletons(fu, fu', {u})
    ensures SameSet(fu', u, rep) && fu'.parents[fu'.nodes[rep]] == fu'.nodes[rep]
    ensures u in fu.nodes ==> rep == fu.revNodes[Root(fu, fu.nodes[u])]
    ensures u !in fu.nodes ==> rep == u
  {
    var (fu1, idx) := GetNode(fu, u);
    var rootIdx;
    fu', rootIdx := FindRootIdx(fu1, idx).0, FindRootIdx(fu1, idx).1;
    SameRootsSameSets(fu1, fu');
    rep := fu'.revNodes[rootIdx];
    assert fu'.nodes[rep] == rootIdx;
  }

  /** The common first half of `connected` and `join`: registers u and v
      (in that order) and finds both roots, compressing both paths. */
  method Locate<T>(fu: FindUnion<T>, u: T, v: T) returns (fu4: FindUnion<T>, ru: int, rv: int)
    requires Inv(fu)
    ensures Inv(fu4) && AddsSingletons(fu, fu4, {u, v}) && RelatedIn(fu, fu4)
    ensures u in fu4.nodes && ru == Root(fu4, fu4.nodes[u])
    ensures v in fu4.nodes && rv == Root(fu4, fu4.nodes[v])
    ensures u in fu.nodes && v in fu.nodes ==> SameRoots(fu, fu4)
    ensures |fu.ranks| <= |fu4.ranks|
    ensures forall i :: 0 <= i < |fu.ranks| ==> fu4.ranks[i] == fu.ranks[i]
  {
    var (fu1, nu) := GetNode(fu, u);
    var (fu2, nv) := GetNode(fu1, v);
    fu4, ru, rv := FindBoth(fu2, nu, nv);
    RegisterTwice(fu, fu1, fu2, u, v);
    if u in fu.nodes && v in fu.nodes {
      assert fu2 == fu;
    }
    SameRootsRelated(fu, fu2, fu4);
  }

  /** `_find_root` on nu and then on nv. */
  method FindBoth<T>(fu: FindUnion<T>, nu: int, nv: int) returns (fu': FindUnion<T>, ru: int, rv: int)
    requires Inv(fu) && 0 <= nu < |fu.parents| && 0 <= nv < |fu.parents|
    ensures Inv(fu') && SameRoots(fu, fu')
    ensures ru == Root(fu', nu) && rv == Root(fu', nv)
  {
    var (fu1, r1) := FindRootIdx(fu, nu);
    fu', rv := FindRootIdx(fu1, nv).0, FindRootIdx(fu1, nv).1;
    ru := r1;
    SameRootsTrans(fu, fu1, fu');
  }

  /** `connected`: registers u and v and tells whether they share a root. */
  method Connected<T>(fu: FindUnion<T>, u: T, v: T) returns (fu': FindUnion<T>, connected: bool)
    requires Inv(fu)
    ensures Inv(fu') && AddsSingletons(fu, fu', {u, v})
    ensures connected <==> Related(fu, u, v)
    ensures connected <==> SameSet(fu', u, v)
  {
    var ru, rv;
    fu', ru, rv := Locate(fu, u, v);
    connected := ru == rv;
  }

  /** `join` followed by `connected` on the same pair answers true. */
  method JoinThenConnected<T>(fu: FindUnion<T>, u: T, v: T) returns (fu': FindUnion<T>, connected: bool)
    requires Inv(fu)
    ensures Inv(fu') && connected
  {
    var fu1, joined := Join(fu, u, v);
    fu', connected := Connected(fu1, u, v);
  }

  /** Registering u and then v adds the singletons of both. */
  lemma RegisterTwice<T>(fu: FindUnion<T>, fu1: FindUnion<T>, fu2: FindUnion<T>, u: T, v: T)
    requires Inv(fu) && Inv(fu1) && Inv(fu2)
    requires AddsSingletons(fu, fu1, {u}) && AddsSingletons(fu1, fu2, {v})
    ensures AddsSingletons(fu, fu2, {u, v}) && RelatedIn(fu, fu2)
  {
    forall a, b | a in fu2.nodes && b in fu2.nodes
      ensures SameSet(fu2, a, b) <==> SameSet(fu, a, b) || (a == b && a in {u, v})
    {
      RegisterTwicePair(fu, fu1, fu2, u, v, a, b);
    }
  }

  lemma RegisterTwicePair<T>(fu: FindUnion<T>, fu1: FindUnion<T>, fu2: FindUnion<T>, u: T, v: T, a: T, b: T)
    requires Inv(fu) && Inv(fu1) && Inv(fu2)
    requires AddsSingletons(fu, fu1, {u}) && AddsSingletons(fu1, fu2, {v})
    requires a in fu2.nodes && b in fu2.nodes
    ensures SameSet(fu2, a, b) <==> SameSet(fu, a, b) || (a == b && a in {u, v})
  {
    if a == b {
      assert SameSet(fu2, a, b);
    } else if a in fu1.nodes && b in fu1.nodes {
      assert SameSet(fu2, a, b) <==> SameSet(fu1, a, b);
    } else {
      assert !SameSet(fu2, a, b);
    }
  }

  /** Among the elements of fu2, sharing a root is exactly Related in fu:
      what registering elements as singletons leaves of the partition. */
  ghost predicate RelatedIn<T>(fu: FindUnion<T>, fu2: FindUnion<T>)
    requires Inv(fu) && Inv(fu2)
  {
    forall a, b | a in fu2.nodes && b in fu2.nodes :: SameSet(fu2, a, b) <==> Related(fu, a, b)
  }

  /** fu' has the elements of fu4, and its sets are those of fu4 with the
      sets of u and v merged. */
  ghost predicate LinkedAt<T>(fu4: FindUnion<T>, fu': FindUnion<T>, u: T, v: T)
    requires Inv(fu4) && Inv(fu')
  {
    && fu'.nodes == fu4.nodes
    && (forall a, b | a in fu'.nodes && b in fu'.nodes ::
          SameSet(fu', a, b) <==>
          (SameSet(fu4, a, b) || (SameSet(fu4, a, u) && SameSet(fu4, v, b)) || (SameSet(fu4, a, v) && SameSet(fu4, u, b))))
  }

  /** `join`: registers u and v, finds both roots (compressing both paths)
      and merges the two sets by rank. The answer is false exactly when u
      and v were already in one set (or are the same element). */
  method Join<T>(fu: FindUnion<T>, u: T, v: T) returns (fu': FindUnion<T>, joined: bool)
    requires Inv(fu)
    ensures Inv(fu') && Merged(fu, fu', u, v)
    ensures joined <==> !Related(fu, u, v)
    ensures SameSet(fu', u, v)
    ensures !joined && u in fu.nodes && v in fu.nodes ==> SameRoots(fu, fu')
    ensures |fu.ranks| <= |fu'.ranks|
    ensures forall i :: 0 <= i < |fu.ranks| ==> fu.ranks[i] <= fu'.ranks[i] <= fu.ranks[i] + 1
  {
    var fu4, ru, rv := Locate(fu, u, v);
    if ru == rv {
      JoinSameSet(fu, fu4, u, v);
      return fu4, false;
    }
    fu' := MergeLocated(fu, fu4, u, v, ru, rv);
    joined := true;
  }

  /** The second half of `join` when the roots differ: links them and
      relates the outcome to the structure before registration. */
  method MergeLocated<T>(fu: FindUnion<T>, fu4: FindUnion<T>, u: T, v: T, ru: int, rv: int) returns (fu': FindUnion<T>)
    requires Inv(fu) && Inv(fu4) && AddsSingletons(fu, fu4, {u, v}) && RelatedIn(fu, fu4)
    requires u in fu4.nodes && ru == Root(fu4, fu4.nodes[u])
    requires v in fu4.nodes && rv == Root(fu4, fu4.nodes[v]) && ru != rv
    requires |fu.ranks| <= |fu4.ranks| && forall i :: 0 <= i < |fu.ranks| ==> fu4.ranks[i] == fu.ranks[i]
    ensures Inv(fu') && Merged(fu, fu', u, v) && SameSet(fu', u, v)
    ensures |fu.ranks| <= |fu'.ranks|
    ensures forall i :: 0 <= i < |fu.ranks| ==> fu.ranks[i] <= fu'.ranks[i] <= fu.ranks[i] + 1
  {
    fu' := LinkRoots(fu4, u, v, ru, rv);
    ComposeMerged(fu, fu4, fu', u, v);
    RanksGrowByOne(fu.ranks, fu4.ranks, fu'.ranks);
  }

  /** Extending a rank table and then raising each rank by at most one
      raises each old rank by at most one. */
  lemma RanksGrowByOne(rk: seq<int>, rk4: seq<int>, rk': seq<int>)
    requires |rk| <= |rk4| && forall i :: 0 <= i < |rk| ==> rk4[i] == rk[i]
    requires |rk'| == |rk4| && forall i :: 0 <= i < |rk4| ==> rk4[i] <= rk'[i] <= rk4[i] + 1
    ensures forall i :: 0 <= i < |rk| ==> rk[i] <= rk'[i] <= rk[i] + 1
  {
  }

  /** The union-by-rank half of `join`, on the distinct roots of u and v. */
  method LinkRoots<T>(fu4: FindUnion<T>, u: T, v: T, ru: int, rv: int) returns (fu': FindUnion<T>)
    requires Inv(fu4) && u in fu4.nodes && v in fu4.nodes
    requires ru == Root(fu4, fu4.nodes[u]) && rv == Root(fu4, fu4.nodes[v]) && ru != rv
    ensures Inv(fu') && LinkedAt(fu4, fu', u, v) && SameSet(fu', u, v)
    ensures |fu'.ranks| == |fu4.ranks|
    ensures forall i :: 0 <= i < |fu4.ranks| ==> fu4.ranks[i] <= fu'.ranks[i] <= fu4.ranks[i] + 1
  {
    var (p', rk') := Forest.Link(fu4.parents, fu4.ranks, ru, rv);
    fu' := fu4.(parents := p', ranks := rk');
    LinkMergesSets(fu4, fu', u, v);
    assert SameSet(fu4, u, u) && SameSet(fu4, v, v);
  }

  /** Joining two elements already in one set changes no set. */
  lemma JoinSameSet<T>(fu: FindUnion<T>, fu4: FindUnion<T>, u: T, v: T)
    requires Inv(fu) && Inv(fu4)
    requires u in fu4.nodes && v in fu4.nodes
    requires forall x :: x in fu4.nodes ==> x in fu.nodes || x == u || x == v
    requires forall x :: x in fu.nodes ==> x in fu4.nodes && fu4.nodes[x] == fu.nodes[x]
    requires RelatedIn(fu, fu4) && SameSet(fu4, u, v)
    ensures Merged(fu, fu4, u, v)
  {
    assert Related(fu, u, v);
  }

  /** Shortening paths after registering keeps RelatedIn. */
  lemma SameRootsRelated<T>(fu: FindUnion<T>, fu2: FindUnion<T>, fu4: FindUnion<T>)
    requires Inv(fu) && Inv(fu2) && Inv(fu4)
    requires RelatedIn(fu, fu2) && SameRoots(fu2, fu4)
    ensures RelatedIn(fu, fu4)
  {
    SameRootsSameSets(fu2, fu4);
  }

  /** Linking the two distinct roots of u and v merges exactly their sets. */
  lemma LinkMergesSets<T>(fu4: FindUnion<T>, fu': FindUnion<T>, u: T, v: T)
    requires Inv(fu4) && u in fu4.nodes && v in fu4.nodes
    requires Root(fu4, fu4.nodes[u]) != Root(fu4, fu4.nodes[v])
    requires var ru := Root(fu4, fu4.nodes[u]);
      var rv := Root(fu4, fu4.nodes[v]);
      fu' == fu4.(parents := Forest.Link(fu4.parents, fu4.ranks, ru, rv).0, ranks := Forest.Link(fu4.parents, fu4.ranks, ru, rv).1)
    ensures Inv(fu') && LinkedAt(fu4, fu', u, v)
  {
    var ru := Root(fu4, fu4.nodes[u]);
    var rv := Root(fu4, fu4.nodes[v]);
    Forest.LinkMerges(fu4.parents, fu4.ranks, ru, rv);
    assert Inv(fu');
    forall a, b | a in fu'.nodes && b in fu'.nodes
      ensures SameSet(fu', a, b) <==>
          (SameSet(fu4, a, b) || (SameSet(fu4, a, u) && SameSet(fu4, v, b)) || (SameSet(fu4, a, v) && SameSet(fu4, u, b)))
    {
      LinkPair(fu4, fu', ru, rv, u, v, a, b);
    }
  }

  /** Registering u and v and then merging their sets is Merged. */
  lemma ComposeMerged<T>(fu: FindUnion<T>, fu4: FindUnion<T>, fu': FindUnion<T>, u: T, v: T)
    requires Inv(fu) && Inv(fu4) && Inv(fu')
    requires u in fu4.nodes && v in fu4.nodes
    requires forall x :: x in fu4.nodes ==> x in fu.nodes || x == u || x == v
    requires forall x :: x in fu.nodes ==> x in fu4.nodes && fu4.nodes[x] == fu.nodes[x]
    requires RelatedIn(fu, fu4) && LinkedAt(fu4, fu', u, v)
    ensures Merged(fu, fu', u, v)
  {
    forall a, b | a in fu'.nodes && b in fu'.nodes
      ensures SameSet(fu', a, b) <==>
          (Related(fu, a, b) || (Related(fu, a, u) && Related(fu, v, b)) || (Related(fu, a, v) && Related(fu, u, b)))
    {
      RelatedBefore(fu, fu4, u, v, a, b);
    }
  }

  /** RelatedIn, instantiated at the five pairs a merge looks at. */
  lemma RelatedBefore<T>(fu: FindUnion<T>, fu4: FindUnion<T>, u: T, v: T, a: T, b: T)
    requires Inv(fu) && Inv(fu4) && RelatedIn(fu, fu4)
    requires u in fu4.nodes && v in fu4.nodes && a in fu4.nodes && b in fu4.nodes
    ensures SameSet(fu4, a, b) == Related(fu, a, b)
    ensures SameSet(fu4, a, u) == Related(fu, a, u) && SameSet(fu4, v, b) == Related(fu, v, b)
    ensures SameSet(fu4, a, v) == Related(fu, a, v) && SameSet(fu4, u, b) == Related(fu, u, b)
  {
  }

  /** After linking roots ru and rv, two elements share a root exactly when
      they did before, or one was under ru and the other under rv. */
  lemma LinkPair<T>(fu4: FindUnion<T>, fu': FindUnion<T>, ru: int, rv: int, u: T, v: T, a: T, b: T)
    requires Inv(fu4) && Inv(fu') && fu'.nodes == fu4.nodes && |fu'.parents| == |fu4.parents|
    requires u in fu4.nodes && v in fu4.nodes && a in fu4.nodes && b in fu4.nodes
    requires ru == Root(fu4, fu4.nodes[u]) && rv == Root(fu4, fu4.nodes[v]) && ru != rv
    requires forall i :: 0 <= i < |fu4.parents| ==>
      Root(fu', i) == (if Root(fu4, i) == ru || Root(fu4, i) == rv then (if fu'.parents[ru] == ru then ru else rv) else Root(fu4, i))
    ensures SameSet(fu', a, b) <==>
      (SameSet(fu4, a, b) || (SameSet(fu4, a, u) && SameSet(fu4, v, b)) || (SameSet(fu4, a, v) && SameSet(fu4, u, b)))
  {
    var ia, ib := fu4.nodes[a], fu4.nodes[b];
    assert Root(fu', ia) == (if Root(fu4, ia) == ru || Root(fu4, ia) == rv then (if fu'.parents[ru] == ru then ru else rv) else Root(fu4, ia));
    assert Root(fu', ib) == (if Root(fu4, ib) == ru || Root(fu4, ib) == rv then (if fu'.parents[ru] == ru then ru else rv) else Root(fu4, ib));
  }

  /** Connectedness is an equivalence relation on the registered elements. */
  lemma SameSetIsEquivalence<T>(fu: FindUnion<T>)
    requires Inv(fu)
    ensures forall a :: a in fu.nodes ==> SameSet(fu, a, a)
    ensures forall a, b :: SameSet(fu, a, b) ==> SameSet(fu, b, a)
    ensures forall a, b, c :: SameSet(fu, a, b) && SameSet(fu, b, c) ==> SameSet(fu, a, c)
  {
  }

  /** A merge never separates two connected elements, and the merged pair
      is connected afterwards; with Join's contract this says that `join`
      only ever coarsens the partition. */
  lemma MergedKeepsConnections<T>(fu: FindUnion<T>, fu': FindUnion<T>, u: T, v: T, a: T, b: T)
    requires Inv(fu) && Inv(fu') && Merged(fu, fu', u, v)
    ensures SameSet(fu, a, b) ==> SameSet(fu', a, b)
    ensures SameSet(fu', u, v)
  {
    if SameSet(fu, a, b) {
      assert a in fu'.nodes && b in fu'.nodes;
    }
    assert u in fu'.nodes && v in fu'.nodes;
  }

  /** The elements whose node resolves to root r. */
  ghost function Class<T>(fu: FindUnion<T>, r: int): set<T>
    requires Inv(fu) && 0 <= r < |fu.parents|
  {
    set x | x in fu.nodes && Root(fu, fu.nodes[x]) == r
  }

  /** The ids below n whose parent is themselves. */
  ghost function RootsBelow(p: seq<int>, n: int): set<int>
    requires 0 <= n <= |p|
  {
    set i | 0 <= i < n && p[i] == i
  }

  /** The roots below n, in increasing order. */
  ghost function RootList(p: seq<int>, n: int): (s: seq<int>)
    requires 0 <= n <= |p|
  {
    if n == 0 then [] else RootList(p, n - 1) + (if p[n - 1] == n - 1 then [n - 1] else [])
  }

  /** The classes of the roots below n, in increasing root order: the
      reference list that `get_sets` produces. */
  ghost function ClassesBelow<T>(fu: FindUnion<T>, n: int): seq<set<T>>
    requires Inv(fu) && 0 <= n <= |fu.parents|
  {
    if n == 0 then []
    else ClassesBelow(fu, n - 1) + (if fu.parents[n - 1] == n - 1 then [Class(fu, n - 1)] else [])
  }

  /** `sets` lists the sets of fu: each is non-empty, holds registered
      elements only, is closed under SameSet and lies inside one set, every
      element is in some set, and no element is in two. */
  ghost predicate Partitions<T>(fu: FindUnion<T>, sets: seq<set<T>>)
    requires Inv(fu)
  {
    && (forall k :: 0 <= k < |sets| ==> sets[k] != {})
    && (forall k, x :: 0 <= k < |sets| && x in sets[k] ==> x in fu.nodes)
    && (forall k, a, b :: 0 <= k < |sets| && a in sets[k] && b in sets[k] ==> SameSet(fu, a, b))
    && (forall k, a, b :: 0 <= k < |sets| && a in sets[k] && b in fu.nodes && SameSet(fu, a, b) ==> b in sets[k])
    && (forall x :: x in fu.nodes ==> exists k :: 0 <= k < |sets| && x in sets[k])
    && (forall k, l :: 0 <= k < l < |sets| ==> sets[k] !! sets[l])
  }

  /** A node is a root exactly when it is its own root. */
  lemma IsRootIff<T>(fu: FindUnion<T>, i: int)
    requires Inv(fu) && 0 <= i < |fu.parents|
    ensures fu.parents[i] == i <==> Root(fu, i) == i
  {
  }

  /** `get_sets`: compresses every node's path, then lists one set per
      root. The source groups ids by root in a hash map and so lists the
      sets in an unspecified order; here they come in increasing root id. */
  method GetSets<T>(fu: FindUnion<T>) returns (fu': FindUnion<T>, sets: seq<set<T>>)
    requires Inv(fu)
    ensures Inv(fu') && SameRoots(fu, fu')
    ensures Partitions(fu, sets)
    ensures |sets| == |set i | 0 <= i < |fu.parents| && fu.parents[i] == i|
  {
    var rootOf;
    fu', rootOf := CompressAll(fu);
    sets := CollectClasses(fu, fu', rootOf);
    ClassesPartition(fu);
  }

  /** The first loop of `get_sets`: the root of every node, in id order,
      compressing each node's path on the way. */
  method CompressAll<T>(fu: FindUnion<T>) returns (fu': FindUnion<T>, rootOf: seq<int>)
    requires Inv(fu)
    ensures Inv(fu') && SameRoots(fu, fu')
    ensures |rootOf| == |fu.nodes|
    ensures forall j :: 0 <= j < |rootOf| ==> rootOf[j] == Root(fu, j)
  {
    fu' := fu;
    rootOf := [];
    var idx := 0;
    while idx < |fu.nodes|
      invariant 0 <= idx <= |fu.nodes|
      invariant Inv(fu') && SameRoots(fu, fu')
      invariant |rootOf| == idx
      invariant forall j :: 0 <= j < idx ==> rootOf[j] == Root(fu, j)
    {
      var step := FindRootIdx(fu', idx);
      SameRootsTrans(fu, fu', step.0);
      fu' := step.0;
      rootOf := rootOf + [step.1];
      idx := idx + 1;
    }
  }

  /** The second loop of `get_sets`: one bucket per root, holding the
      elements whose recorded root it is. */
  method CollectClasses<T>(fu: FindUnion<T>, fu': FindUnion<T>, rootOf: seq<int>) returns (sets: seq<set<T>>)
    requires Inv(fu) && Inv(fu') && SameRoots(fu, fu')
    requires |rootOf| == |fu.nodes| && forall j :: 0 <= j < |rootOf| ==> rootOf[j] == Root(fu, j)
    ensures sets == ClassesBelow(fu, |fu.parents|)
  {
    var n := |rootOf|;
    sets := [];
    var r := 0;
    while r < n
      invariant 0 <= r <= n
      invariant sets == ClassesBelow(fu, r)
    {
      IsRootIff(fu, r);
      IsRootIff(fu', r);
      if fu'.parents[r] == r {
        var s := set i | 0 <= i < n && rootOf[i] == r :: fu'.revNodes[i];
        ClassOfRoot(fu, fu', rootOf, r, s);
        sets := sets + [s];
      }
      r := r + 1;
    }
  }

  /** The bucket collected for root r is exactly its class. */
  lemma ClassOfRoot<T>(fu: FindUnion<T>, fu': FindUnion<T>, rootOf: seq<int>, r: int, s: set<T>)
    requires Inv(fu) && Inv(fu') && SameRoots(fu, fu')
    requires |rootOf| == |fu.nodes| && forall j :: 0 <= j < |rootOf| ==> rootOf[j] == Root(fu, j)
    requires 0 <= r < |fu.parents| && fu.parents[r] == r
    requires s == set i | 0 <= i < |rootOf| && rootOf[i] == r :: fu'.revNodes[i]
    ensures s == Class(fu, r) && fu.revNodes[r] in s
  {
    forall x | x in Class(fu, r) ensures x in s {
      var i := fu.nodes[x];
      assert fu'.revNodes[i] == x;
    }
    assert fu.revNodes[r] in s;
  }

  /** RootList lists every root below n exactly once, in increasing order. */
  lemma {:induction false} RootListFacts(p: seq<int>, n: int)
    requires 0 <= n <= |p|
    ensures forall k :: 0 <= k < |RootList(p, n)| ==> 0 <= RootList(p, n)[k] < n && p[RootList(p, n)[k]] == RootList(p, n)[k]
    ensures forall j :: 0 <= j < n && p[j] == j ==> j in RootList(p, n)
  {
    if n > 0 {
      RootListFacts(p, n - 1);
    }
  }

  lemma {:induction false} RootListSorted(p: seq<int>, n: int)
    requires 0 <= n <= |p|
    ensures forall k, l :: 0 <= k < l < |RootList(p, n)| ==> RootList(p, n)[k] < RootList(p, n)[l]
  {
    if n > 0 {
      RootListSorted(p, n - 1);
      RootListFacts(p, n - 1);
    }
  }

  /** RootList has as many entries as there are roots below n. */
  lemma {:induction false} RootListCount(p: seq<int>, n: int)
    requires 0 <= n <= |p|
    ensures |RootList(p, n)| == |RootsBelow(p, n)|
  {
    if n > 0 {
      RootListCount(p, n - 1);
      if p[n - 1] == n - 1 {
        assert RootsBelow(p, n) == RootsBelow(p, n - 1) + {n - 1};
      } else {
        assert RootsBelow(p, n) == RootsBelow(p, n - 1);
      }
    } else {
      assert RootsBelow(p, n) == {};
    }
  }

  /** ClassesBelow holds the class of each root of RootList, position by position. */
  lemma {:induction false} ClassesBelowFacts<T>(fu: FindUnion<T>, n: int)
    requires Inv(fu) && 0 <= n <= |fu.parents|
    ensures |ClassesBelow(fu, n)| == |RootList(fu.parents, n)|
    ensures forall k :: 0 <= k < |ClassesBelow(fu, n)| ==>
      0 <= RootList(fu.parents, n)[k] < |fu.parents| && ClassesBelow(fu, n)[k] == Class(fu, RootList(fu.parents, n)[k])
  {
    if n > 0 {
      ClassesBelowFacts(fu, n - 1);
      RootListFacts(fu.parents, n - 1);
    }
  }

  /** The reference list of classes partitions the elements and has one
      entry per root. */
  lemma ClassesPartition<T>(fu: FindUnion<T>)
    requires Inv(fu)
    ensures Partitions(fu, ClassesBelow(fu, |fu.parents|))
    ensures |ClassesBelow(fu, |fu.parents|)| == |set i | 0 <= i < |fu.parents| && fu.parents[i] == i|
  {
    var n := |fu.parents|;
    ClassesBelowFacts(fu, n);
    RootListFacts(fu.parents, n);
    RootListSorted(fu.parents, n);
    RootListCount(fu.parents, n);
    assert RootsBelow(fu.parents, n) == set i | 0 <= i < |fu.parents| && fu.parents[i] == i;
    ClassesNonEmpty(fu, ClassesBelow(fu, n), RootList(fu.parents, n));
    ClassesWithin(fu, ClassesBelow(fu, n), RootList(fu.parents, n));
    ClassesCover(fu, ClassesBelow(fu, n), RootList(fu.parents, n));
    ClassesDisjoint(fu, ClassesBelow(fu, n), RootList(fu.parents, n));
  }

  /** sets[k] is the class of roots[k]; the roots are distinct, increasing
      and include every root of fu. */
  ghost predicate ClassList<T>(fu: FindUnion<T>, sets: seq<set<T>>, roots: seq<int>)
    requires Inv(fu)
  {
    && |roots| == |sets|
    && (forall k :: 0 <= k < |roots| ==>
          0 <= roots[k] < |fu.parents| && fu.parents[roots[k]] == roots[k] && sets[k] == Class(fu, roots[k]))
    && (forall k, l :: 0 <= k < l < |roots| ==> roots[k] < roots[l])
    && (forall j :: 0 <= j < |fu.parents| && fu.parents[j] == j ==> j in roots)
  }

  lemma ClassesNonEmpty<T>(fu: FindUnion<T>, sets: seq<set<T>>, roots: seq<int>)
    requires Inv(fu) && ClassList(fu, sets, roots)
    ensures forall k :: 0 <= k < |sets| ==> sets[k] != {}
  {
    forall k | 0 <= k < |sets| ensures sets[k] != {} {
      IsRootIff(fu, roots[k]);
      assert fu.revNodes[roots[k]] in sets[k];
    }
  }

  lemma ClassesWithin<T>(fu: FindUnion<T>, sets: seq<set<T>>, roots: seq<int>)
    requires Inv(fu) && ClassList(fu, sets, roots)
    ensures forall k, x :: 0 <= k < |sets| && x in sets[k] ==> x in fu.nodes
    ensures forall k, a, b :: 0 <= k < |sets| && a in sets[k] && b in sets[k] ==> SameSet(fu, a, b)
    ensures forall k, a, b :: 0 <= k < |sets| && a in sets[k] && b in fu.nodes && SameSet(fu, a, b) ==> b in sets[k]
  {
  }

  lemma ClassesCover<T>(fu: FindUnion<T>, sets: seq<set<T>>, roots: seq<int>)
    requires Inv(fu) && ClassList(fu, sets, roots)
    ensures forall x :: x in fu.nodes ==> exists k :: 0 <= k < |sets| && x in sets[k]
  {
    forall x | x in fu.nodes ensures exists k :: 0 <= k < |sets| && x in sets[k] {
      var j := Root(fu, fu.nodes[x]);
      var k :| 0 <= k < |roots| && roots[k] == j;
      assert x in sets[k];
    }
  }

  lemma ClassesDisjoint<T>(fu: FindUnion<T>, sets: seq<set<T>>, roots: seq<int>)
    requires Inv(fu) && ClassList(fu, sets, roots)
    ensures forall k, l :: 0 <= k < l < |sets| ==> sets[k] !! sets[l]
  {
  }
}
