/** The earlier disjoint-set structure. Its tables, registration, path
    compression, `contains`, `find_root` and `get_sets` are those of
    FindUnion; only `ensure` and `join` differ, in that they answer nothing. */
module FindUnion2024 {
  import FU = FindUnion

  /** `ensure`: registers u, leaving every registered element and every set
      as it was. */
  function Ensure<T>(fu: FU.FindUnion<T>, u: T): (fu': FU.FindUnion<T>)
    requires FU.Inv(fu)
    ensures FU.Inv(fu') && FU.AddsSingletons(fu, fu', {u})
    ensures u in fu'.nodes
    ensures u in fu.nodes ==> fu' == fu
  {
    FU.GetNode(fu, u).0
  }

  /** `join`: registers u and v and merges their sets by rank. When they
      are already registered in one set, no set and no root changes. */
  method Join<T>(fu: FU.FindUnion<T>, u: T, v: T) returns (fu': FU.FindUnion<T>)
    requires FU.Inv(fu)
    ensures FU.Inv(fu') && FU.Merged(fu, fu', u, v)
    ensures FU.SameSet(fu', u, v)
    ensures FU.SameSet(fu, u, v) ==> FU.SameRoots(fu, fu')
    ensures |fu.ranks| <= |fu'.ranks|
    ensures forall i :: 0 <= i < |fu.ranks| ==> fu.ranks[i] <= fu'.ranks[i] <= fu.ranks[i] + 1
  {
    var joined;
    fu', joined := FU.Join(fu, u, v);
  }
}
