/** Depth-first topological sort (2024/Test0/src/dec24.rs, `topo_dfs` and
    `topo_sort`). The hash set of nodes and the hash set of edges are
    iterated in an unspecified order, so both arrive here as sequences in
    whatever order the hash tables produce. */
module Topological {
  import opened Seqs

  /** Adjacency lists: an edge x -> y puts y into the list of x. */
  type Graph<T(==)> = map<T, seq<T>>

  /** The neighbours of n; a node without outgoing edges has none. */
  function Neighbors<T(==,!new)>(g: Graph<T>, n: T): seq<T> {
    if n in g then g[n] else []
  }

  /** The adjacency lists of an edge list, each in the order of the edges. */
  function BuildNeighbors<T(==,!new)>(edges: seq<(T, T)>): (g: Graph<T>)
    ensures forall x, y :: y in Neighbors(g, x) <==> (x, y) in edges
  {
    if |edges| == 0 then map[]
    else
      var g0 := BuildNeighbors(edges[..|edges| - 1]);
      var e := edges[|edges| - 1];
      assert edges == edges[..|edges| - 1] + [e];
      g0[e.0 := Neighbors(g0, e.0) + [e.1]]
  }

  /** Every node the search can meet: the start nodes and the edge targets.
      It is finite, and the search never leaves it, which bounds the
      recursion. */
  function Universe<T(==,!new)>(nodes: seq<T>, g: Graph<T>): (u: set<T>)
    ensures Closed(g, u)
    ensures forall n :: n in nodes ==> n in u
  {
    (set n | n in nodes) + (set x, y | x in g && y in g[x] :: y)
  }

  /** u contains the neighbours of its members. */
  ghost predicate Closed<T(!new)>(g: Graph<T>, u: set<T>) {
    forall x, y :: x in u && y in Neighbors(g, x) ==> y in u
  }

  lemma CardMono<T(!new)>(u: set<T>, v: set<T>, w: set<T>)
    requires v <= w
    ensures |u - w| <= |u - v|
  {
    var d := (u - v) - (u - w);
    assert (u - w) + d == u - v;
    assert (u - w) * d == {};
  }

  lemma CardShrinks<T(!new)>(u: set<T>, v: set<T>, n: T)
    requires n in u && n !in v
    ensures |u - (v + {n})| < |u - v|
  {
    assert (u - (v + {n})) + {n} == u - v;
  }

  /** `topo_dfs` from `node`: the new visited set, and the nodes it appends
      to the result, each after all of its unvisited successors. A node
      already visited appends nothing. */
  function Dfs<T(==,!new)>(g: Graph<T>, u: set<T>, node: T, visited: set<T>): (r: (set<T>, seq<T>))
    requires Closed(g, u) && node in u && visited <= u
    ensures visited <= r.0 <= u && node in r.0
    ensures Elems(r.1) == r.0 - visited && Distinct(r.1)
    decreases |u - visited|, 0, 0
  {
    if node in visited then (visited, [])
    else
      CardShrinks(u, visited, node);
      var (v, pushed) := DfsList(g, u, Neighbors(g, node), visited + {node});
      DistinctConcat(pushed, [node]);
      (v, pushed + [node])
  }

  /** `topo_dfs` from each of ns in turn, threading the visited set. */
  function DfsList<T(==,!new)>(g: Graph<T>, u: set<T>, ns: seq<T>, visited: set<T>): (r: (set<T>, seq<T>))
    requires Closed(g, u) && visited <= u && forall n :: n in ns ==> n in u
    ensures visited <= r.0 <= u && forall n :: n in ns ==> n in r.0
    ensures Elems(r.1) == r.0 - visited && Distinct(r.1)
    decreases |u - visited|, 1, |ns|
  {
    if |ns| == 0 then (visited, [])
    else
      var (v1, p1) := Dfs(g, u, ns[0], visited);
      CardMono(u, visited, v1);
      var (v2, p2) := DfsList(g, u, ns[1..], v1);
      DistinctConcat(p1, p2);
      (v2, p1 + p2)
  }

  /** `topo_sort`: a depth-first search from every node, with the finishing
      order reversed. Every node appears exactly once, and the only other
      entries are edge targets reached from them. */
  function TopoSort<T(==,!new)>(nodes: seq<T>, edges: seq<(T, T)>): (r: seq<T>)
    ensures Distinct(r)
    ensures forall n :: n in nodes ==> n in r
    ensures forall n :: n in r ==> n in nodes || exists x :: (x, n) in edges
  {
    var g := BuildNeighbors(edges);
    var u := Universe(nodes, g);
    var res := DfsList(g, u, nodes, {});
    var pushed := res.1;
    var r := Reverse(pushed);
    forall n | n in nodes ensures n in r {
      assert n in res.0 && n in Elems(pushed);
      var i :| 0 <= i < |pushed| && pushed[i] == n;
      assert r[|r| - 1 - i] == n;
    }
    forall n | n in r ensures n in nodes || exists x :: (x, n) in edges {
      var i :| 0 <= i < |r| && r[i] == n;
      assert n == pushed[|r| - 1 - i];
      assert n in Elems(pushed) && n in u;
      if n !in nodes {
        var x, y :| x in g && y in g[x] && y == n;
        assert n in Neighbors(g, x);
      }
    }
    forall i, j | 0 <= i < j < |r| ensures r[i] != r[j] {
      assert r[i] == pushed[|r| - 1 - i] && r[j] == pushed[|r| - 1 - j];
    }
    r
  }

  /** A height that drops along every edge; a finite graph has one exactly
      when it has no cycle. */
  ghost predicate Ranked<T(!new)>(g: Graph<T>, h: T -> nat) {
    forall x, y :: y in Neighbors(g, x) ==> h(x) > h(y)
  }

  /** The successors of finished nodes are finished. */
  ghost predicate Finished<T(!new)>(g: Graph<T>, d: set<T>) {
    forall x, y :: x in d && y in Neighbors(g, x) ==> y in d
  }

  /** Every node on the search stack is higher than n. */
  ghost predicate Above<T(!new)>(h: T -> nat, stack: set<T>, n: T) {
    forall s :: s in stack ==> h(s) > h(n)
  }

  ghost predicate Earlier<T(!new)>(done: set<T>, p: seq<T>, i: nat, y: T)
    requires i <= |p|
  {
    y in done || y in p[..i]
  }

  /** Each appended node comes after its successors: they were finished
      before the call or appended earlier in p. */
  ghost predicate PushedAfterSuccessors<T(!new)>(g: Graph<T>, done: set<T>, p: seq<T>) {
    forall i, y :: 0 <= i < |p| && y in Neighbors(g, p[i]) ==> Earlier(done, p, i, y)
  }

  lemma FinishedGrows<T(!new)>(g: Graph<T>, done: set<T>, p: seq<T>)
    requires Finished(g, done) && PushedAfterSuccessors(g, done, p)
    ensures Finished(g, done + Elems(p))
  {
    forall x, y | x in done + Elems(p) && y in Neighbors(g, x) ensures y in done + Elems(p) {
      if x !in done {
        var i :| 0 <= i < |p| && p[i] == x;
        assert Earlier(done, p, i, y);
      }
    }
  }

  /** In an acyclic graph a node is appended only after all its successors.
      `stack` is the set of nodes whose search is still open; visited minus
      stack is finished. */
  lemma {:induction false} DfsOrdered<T(!new)>(g: Graph<T>, u: set<T>, h: T -> nat, node: T, visited: set<T>, stack: set<T>)
    requires Closed(g, u) && node in u && visited <= u
    requires Ranked(g, h) && stack <= visited && Above(h, stack, node) && Finished(g, visited - stack)
    ensures PushedAfterSuccessors(g, visited - stack, Dfs(g, u, node, visited).1)
    decreases |u - visited|, 0, 0
  {
    if node !in visited {
      CardShrinks(u, visited, node);
      var ns := Neighbors(g, node);
      var visited' := visited + {node};
      var stack' := stack + {node};
      assert visited' - stack' == visited - stack;
      forall n | n in ns ensures Above(h, stack', n) {
        assert h(node) > h(n);
      }
      DfsListOrdered(g, u, h, ns, visited', stack');
      var (v, p1) := DfsList(g, u, ns, visited');
      var p := p1 + [node];
      assert p == Dfs(g, u, node, visited).1;
      forall i, y | 0 <= i < |p| && y in Neighbors(g, p[i]) ensures Earlier(visited - stack, p, i, y) {
        if i < |p1| {
          assert p[..i] == p1[..i];
          assert Earlier(visited - stack, p1, i, y);
        } else {
          assert y in v && h(node) > h(y);
          assert y !in stack';
          assert y in Elems(p1) || y in visited - stack;
          assert p[..i] == p1;
        }
      }
    }
  }

  lemma {:induction false} DfsListOrdered<T(!new)>(g: Graph<T>, u: set<T>, h: T -> nat, ns: seq<T>, visited: set<T>, stack: set<T>)
    requires Closed(g, u) && visited <= u && forall n :: n in ns ==> n in u
    requires Ranked(g, h) && stack <= visited && Finished(g, visited - stack)
    requires forall n :: n in ns ==> Above(h, stack, n)
    ensures PushedAfterSuccessors(g, visited - stack, DfsList(g, u, ns, visited).1)
    decreases |u - visited|, 1, |ns|
  {
    if |ns| > 0 {
      DfsOrdered(g, u, h, ns[0], visited, stack);
      var (v1, p1) := Dfs(g, u, ns[0], visited);
      CardMono(u, visited, v1);
      FinishedGrows(g, visited - stack, p1);
      assert v1 - stack == (visited - stack) + Elems(p1);
      DfsListOrdered(g, u, h, ns[1..], v1, stack);
      var (v2, p2) := DfsList(g, u, ns[1..], v1);
      var p := p1 + p2;
      assert p == DfsList(g, u, ns, visited).1;
      forall i, y | 0 <= i < |p| && y in Neighbors(g, p[i]) ensures Earlier(visited - stack, p, i, y) {
        if i < |p1| {
          assert p[..i] == p1[..i];
          assert Earlier(visited - stack, p1, i, y);
        } else {
          assert p[i] == p2[i - |p1|];
          assert Earlier(v1 - stack, p2, i - |p1|, y);
          assert p[..i] == p1 + p2[..i - |p1|];
          if y in Elems(p1) {
            assert y in p[..i];
          }
        }
      }
    }
  }

  /** Reversing a finishing order puts every node before its successors. */
  lemma ReversedPostOrder<T(!new)>(g: Graph<T>, p: seq<T>)
    requires Distinct(p) && PushedAfterSuccessors(g, {}, p)
    ensures var r := Reverse(p);
      forall i, j :: 0 <= i < |r| && 0 <= j < |r| && r[j] in Neighbors(g, r[i]) ==> i < j
    ensures var r := Reverse(p);
      forall i, y :: 0 <= i < |r| && y in Neighbors(g, r[i]) ==> y in r
  {
    var r := Reverse(p);
    forall i, j | 0 <= i < |r| && 0 <= j < |r| && r[j] in Neighbors(g, r[i]) ensures i < j {
      var k := |r| - 1 - i;
      assert r[i] == p[k];
      assert Earlier({}, p, k, r[j]);
      var m :| 0 <= m < k && p[m] == r[j];
      assert r[j] == p[|r| - 1 - j];
    }
    forall i, y | 0 <= i < |r| && y in Neighbors(g, r[i]) ensures y in r {
      var k := |r| - 1 - i;
      assert r[i] == p[k];
      assert Earlier({}, p, k, y);
      var m :| 0 <= m < k && p[m] == y;
      assert r[|r| - 1 - m] == y;
    }
  }

  /** For an acyclic edge set, x comes before y in the result for every edge
      x -> y, and the successors of a listed node are listed too. */
  lemma TopoSortOrdered<T(!new)>(nodes: seq<T>, edges: seq<(T, T)>, h: T -> nat)
    requires forall e :: e in edges ==> h(e.0) > h(e.1)
    ensures var r := TopoSort(nodes, edges);
      forall i, j :: 0 <= i < |r| && 0 <= j < |r| && (r[i], r[j]) in edges ==> i < j
    ensures var r := TopoSort(nodes, edges);
      forall i, y :: 0 <= i < |r| && (r[i], y) in edges ==> y in r
  {
    var g := BuildNeighbors(edges);
    var u := Universe(nodes, g);
    assert Ranked(g, h) by {
      forall x, y | y in Neighbors(g, x) ensures h(x) > h(y) {
        assert (x, y) in edges;
      }
    }
    DfsListOrdered(g, u, h, nodes, {}, {});
    var p := DfsList(g, u, nodes, {}).1;
    assert Reverse(p) == TopoSort(nodes, edges);
    ReversedPostOrder(g, p);
  }
}
