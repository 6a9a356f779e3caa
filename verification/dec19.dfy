/** Towel designs (2024/Test0/src/dec19.rs): can a design be written as a
    concatenation of patterns, and in how many ways. */
module Dec19 {
  import opened BasicParsing

  /** The reference meaning: the design is empty, or some non-empty pattern
      is a prefix of it and the rest can be built. */
  predicate CanBuild(patterns: seq<string>, s: string)
    decreases |s|
  {
    s == "" ||
      exists i :: 0 <= i < |patterns| && patterns[i] != "" && StartsWith(s, patterns[i])
        && CanBuild(patterns, s[|patterns[i]|..])
  }

  predicate NoEmptyPattern(patterns: seq<string>) {
    forall i :: 0 <= i < |patterns| ==> patterns[i] != ""
  }

  /** The recurrence of `compute_possible_count` without its cache: one way
      for the empty design, otherwise the sum over the patterns that prefix
      the design of the ways for the rest. An empty pattern would make the
      recursion call itself on the same design forever. */
  function CountOf(patterns: seq<string>, s: string): nat
    requires NoEmptyPattern(patterns)
    decreases |s|, |patterns| + 1
  {
    if s == "" then 1 else SumFrom(patterns, s, 0)
  }

  /** The ways contributed by patterns i, i+1, ... */
  function SumFrom(patterns: seq<string>, s: string, i: nat): nat
    requires NoEmptyPattern(patterns) && i <= |patterns|
    decreases |s|, |patterns| - i
  {
    if i == |patterns| then 0
    else
      (if StartsWith(s, patterns[i]) then CountOf(patterns, s[|patterns[i]|..]) else 0)
        + SumFrom(patterns, s, i + 1)
  }

  /** A design has a way exactly when it can be built. */
  lemma {:induction false} CountPositive(patterns: seq<string>, s: string)
    requires NoEmptyPattern(patterns)
    ensures CountOf(patterns, s) > 0 <==> CanBuild(patterns, s)
    decreases |s|
  {
    if s != "" {
      SumPositive(patterns, s, 0);
      if CanBuild(patterns, s) {
        var i :| 0 <= i < |patterns| && patterns[i] != "" && StartsWith(s, patterns[i])
          && CanBuild(patterns, s[|patterns[i]|..]);
        assert Useful(patterns, s, i);
      }
      if exists j :: 0 <= j < |patterns| && Useful(patterns, s, j) {
        var j :| 0 <= j < |patterns| && Useful(patterns, s, j);
        assert patterns[j] != "";
      }
    }
  }

  /** Pattern j prefixes s and leaves a buildable rest. */
  predicate Useful(patterns: seq<string>, s: string, j: int)
    requires 0 <= j < |patterns|
  {
    StartsWith(s, patterns[j]) && CanBuild(patterns, s[|patterns[j]|..])
  }

  lemma {:induction false} SumPositive(patterns: seq<string>, s: string, i: nat)
    requires NoEmptyPattern(patterns) && i <= |patterns| && s != ""
    ensures SumFrom(patterns, s, i) > 0 <==> exists j :: i <= j < |patterns| && Useful(patterns, s, j)
    decreases |s|, |patterns| - i
  {
    if i < |patterns| {
      SumPositive(patterns, s, i + 1);
      if StartsWith(s, patterns[i]) {
        CountPositive(patterns, s[|patterns[i]|..]);
      }
      assert SumFrom(patterns, s, i) > 0 <==> Useful(patterns, s, i) || SumFrom(patterns, s, i + 1) > 0;
    }
  }

  /** Cached counts are true counts. The cache is keyed by the design text,
      so one cache serves every design. */
  ghost predicate CacheSound(patterns: seq<string>, cache: map<string, int>)
    requires NoEmptyPattern(patterns)
  {
    forall s :: s in cache ==> cache[s] == CountOf(patterns, s)
  }

  /** `compute_possible_count`: the empty design has one way; a cached
      design returns the cached count; otherwise the counts of the rests
      after each matching pattern are summed, and the sum is cached. With a
      sound cache the result is the true count and the cache stays sound. */
  method PossibleCount(patterns: seq<string>, design: string, cache: map<string, int>)
    returns (count: int, cache': map<string, int>)
    requires NoEmptyPattern(patterns) && CacheSound(patterns, cache)
    ensures count == CountOf(patterns, design) && CacheSound(patterns, cache')
    ensures design != "" ==> design in cache'
    decreases |design|
  {
    if design == "" {
      return 1, cache;
    }
    if design in cache {
      return cache[design], cache;
    }
    count := 0;
    cache' := cache;
    var i := 0;
    while i < |patterns|
      invariant i <= |patterns| && CacheSound(patterns, cache')
      invariant count + SumFrom(patterns, design, i) == SumFrom(patterns, design, 0)
    {
      if StartsWith(design, patterns[i]) {
        var c;
        c, cache' := PossibleCount(patterns, design[|patterns[i]|..], cache');
        count := count + c;
      }
      i := i + 1;
    }
    cache' := cache'[design := count];
  }

  /** The suffixes of d, the only strings the search of
      `compute_one_possible` meets. */
  function Suffixes(d: string): set<string> {
    set k | 0 <= k <= |d| :: d[k..]
  }

  /** Reaching s is enough: if s can be built, so can the design. */
  ghost predicate Leads(patterns: seq<string>, design: string, s: string) {
    CanBuild(patterns, s) ==> CanBuild(patterns, design)
  }

  /** Every string the finished strings lead to has been visited. */
  ghost predicate Expanded(patterns: seq<string>, done: set<string>, visited: set<string>) {
    forall x, j :: x in done && 0 <= j < |patterns| && StartsWith(x, patterns[j]) ==> x[|patterns[j]|..] in visited
  }

  /** Stripping a pattern keeps a string among the design's suffixes. */
  lemma StripSuffix(design: string, x: string, p: string)
    requires x in Suffixes(design) && StartsWith(x, p)
    ensures x[|p|..] in Suffixes(design)
  {
    var k :| 0 <= k <= |design| && x == design[k..];
    assert x[|p|..] == design[k + |p|..];
  }

  /** Stripping a pattern can only lose buildability, never gain it. */
  lemma StripLeads(patterns: seq<string>, design: string, x: string, i: int)
    requires 0 <= i < |patterns| && StartsWith(x, patterns[i]) && Leads(patterns, design, x)
    ensures Leads(patterns, design, x[|patterns[i]|..])
  {
    if patterns[i] == "" {
      assert x[|patterns[i]|..] == x;
    }
  }

  /** A set closed under stripping patterns and without the empty string
      holds nothing that can be built. */
  lemma {:induction false} ClosedUnbuildable(patterns: seq<string>, done: set<string>, x: string)
    requires "" !in done && Expanded(patterns, done, done) && x in done
    ensures !CanBuild(patterns, x)
    decreases |x|
  {
    forall i | 0 <= i < |patterns| && patterns[i] != "" && StartsWith(x, patterns[i])
      ensures !CanBuild(patterns, x[|patterns[i]|..])
    {
      ClosedUnbuildable(patterns, done, x[|patterns[i]|..]);
    }
  }

  lemma CardDrop(u: set<string>, v: set<string>, x: string)
    requires x in u && x !in v
    ensures |u - (v + {x})| == |u - v| - 1
  {
    assert (u - (v + {x})) + {x} == u - v;
  }

  /** The loop over the patterns for one popped string: push each rest
      not yet visited. Every rest of the node ends up visited, and each push
      marks a new suffix, which keeps the search's measure fixed. */
  method Expand(patterns: seq<string>, design: string, u: set<string>, node: string,
                nodes: seq<string>, visited: set<string>)
    returns (nodes': seq<string>, visited': set<string>)
    requires u == Suffixes(design) && node in u && Leads(patterns, design, node)
    requires forall x :: x in nodes ==> x in u && Leads(patterns, design, x)
    requires visited <= u
    ensures forall x :: x in nodes' ==> x in u && Leads(patterns, design, x)
    ensures visited <= visited' <= u
    ensures forall x :: x in nodes ==> x in nodes'
    ensures forall x :: x in visited' ==> x in visited || x in nodes'
    ensures forall j :: 0 <= j < |patterns| && StartsWith(node, patterns[j]) ==> node[|patterns[j]|..] in visited'
    ensures |u - visited'| + |nodes'| == |u - visited| + |nodes|
  {
    nodes', visited' := nodes, visited;
    var i := 0;
    while i < |patterns|
      invariant i <= |patterns|
      invariant forall x :: x in nodes' ==> x in u && Leads(patterns, design, x)
      invariant visited <= visited' <= u
      invariant forall x :: x in nodes ==> x in nodes'
      invariant forall x :: x in visited' ==> x in visited || x in nodes'
      invariant forall j :: 0 <= j < i && StartsWith(node, patterns[j]) ==> node[|patterns[j]|..] in visited'
      invariant |u - visited'| + |nodes'| == |u - visited| + |nodes|
    {
      if StartsWith(node, patterns[i]) {
        var stripped := node[|patterns[i]|..];
        if stripped !in visited' {
          StripSuffix(design, node, patterns[i]);
          StripLeads(patterns, design, node, i);
          CardDrop(u, visited', stripped);
          nodes' := nodes' + [stripped];
          visited' := visited' + {stripped};
        }
      }
      i := i + 1;
    }
  }

  /** The invariant of the search: pending strings are suffixes that lead
      to the design; every visited string is finished or pending; the design
      itself is finished or pending; the empty string is never finished; and
      the rests of finished strings have all been visited. */
  ghost predicate SearchInv(patterns: seq<string>, design: string, u: set<string>,
                            nodes: seq<string>, visited: set<string>, done: set<string>)
  {
    (forall x :: x in nodes ==> x in u && Leads(patterns, design, x))
    && visited <= u
    && (forall x :: x in visited ==> x in done || x in nodes)
    && (design in done || design in nodes)
    && "" !in done
    && Expanded(patterns, done, visited)
  }

  /** Popping a non-empty string, finishing it and expanding it keeps the
      invariant. */
  lemma PopKeepsInv(patterns: seq<string>, design: string, u: set<string>, nodes: seq<string>,
                    visited: set<string>, done: set<string>, nodes': seq<string>, visited': set<string>)
    requires |nodes| > 0 && nodes[|nodes| - 1] != ""
    requires SearchInv(patterns, design, u, nodes, visited, done)
    requires var node := nodes[|nodes| - 1];
      && visited <= visited'
      && (forall x :: x in nodes' ==> x in u && Leads(patterns, design, x))
      && visited' <= u
      && (forall x :: x in nodes[..|nodes| - 1] ==> x in nodes')
      && (forall x :: x in visited' ==> x in visited || x in nodes')
      && (forall j :: 0 <= j < |patterns| && StartsWith(node, patterns[j]) ==> node[|patterns[j]|..] in visited')
    ensures SearchInv(patterns, design, u, nodes', visited', done + {nodes[|nodes| - 1]})
  {
    var node := nodes[|nodes| - 1];
    assert forall x :: x in nodes ==> x == node || x in nodes[..|nodes| - 1];
  }

  /** `compute_one_possible`: a depth-first search over the rests left by
      stripping patterns, never pushing a rest twice. It says yes exactly
      when the design can be built. */
  method OnePossible(patterns: seq<string>, design: string) returns (r: bool)
    ensures r == CanBuild(patterns, design)
  {
    var u := Suffixes(design);
    assert design == design[0..];
    var nodes := [design];
    var visited: set<string> := {};
    ghost var done: set<string> := {};
    while true
      invariant SearchInv(patterns, design, u, nodes, visited, done)
      decreases |u - visited| + |nodes|
    {
      if |nodes| == 0 {
        ClosedUnbuildable(patterns, done, design);
        return false;
      }
      var node := nodes[|nodes| - 1];
      if node == "" {
        return true;
      }
      var nodes', visited' := Expand(patterns, design, u, node, nodes[..|nodes| - 1], visited);
      PopKeepsInv(patterns, design, u, nodes, visited, done, nodes', visited');
      nodes, visited, done := nodes', visited', done + {node};
    }
  }

  /** `compute_possible`: how many designs can be built. */
  function NumBuildable(patterns: seq<string>, designs: seq<string>): nat {
    if |designs| == 0 then 0
    else NumBuildable(patterns, designs[..|designs| - 1]) + (if CanBuild(patterns, designs[|designs| - 1]) then 1 else 0)
  }

  /** The sum of the ways over all designs. */
  function TotalCount(patterns: seq<string>, designs: seq<string>): nat
    requires NoEmptyPattern(patterns)
  {
    if |designs| == 0 then 0
    else TotalCount(patterns, designs[..|designs| - 1]) + CountOf(patterns, designs[|designs| - 1])
  }

  method ComputePossible(patterns: seq<string>, designs: seq<string>) returns (result: int)
    ensures result == NumBuildable(patterns, designs)
  {
    result := 0;
    var i := 0;
    while i < |designs|
      invariant i <= |designs| && result == NumBuildable(patterns, designs[..i])
    {
      assert designs[..i + 1][..i] == designs[..i];
      var ok := OnePossible(patterns, designs[i]);
      if ok {
        result := result + 1;
      }
      i := i + 1;
    }
    assert designs[..i] == designs;
  }

  /** `compute_possible2`: the ways summed over the designs, with one cache
      shared by all of them. */
  method ComputePossible2(patterns: seq<string>, designs: seq<string>) returns (result: int)
    requires NoEmptyPattern(patterns)
    ensures result == TotalCount(patterns, designs)
  {
    var cache: map<string, int> := map[];
    result := 0;
    var i := 0;
    while i < |designs|
      invariant i <= |designs| && result == TotalCount(patterns, designs[..i])
      invariant CacheSound(patterns, cache)
    {
      assert designs[..i + 1][..i] == designs[..i];
      var c;
      c, cache := PossibleCount(patterns, designs[i], cache);
      result := result + c;
      i := i + 1;
    }
    assert designs[..i] == designs;
  }

  /** Every buildable design has at least one way, and the total is zero
      exactly when no design can be built. */
  lemma {:induction false} CountsAgree(patterns: seq<string>, designs: seq<string>)
    requires NoEmptyPattern(patterns)
    ensures NumBuildable(patterns, designs) <= TotalCount(patterns, designs)
    ensures TotalCount(patterns, designs) == 0 <==> NumBuildable(patterns, designs) == 0
  {
    if |designs| > 0 {
      CountsAgree(patterns, designs[..|designs| - 1]);
      CountPositive(patterns, designs[|designs| - 1]);
    }
  }
}
