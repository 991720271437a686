/**
 * The meshes that the bind and draw traversals visit, in visiting order:
 * starting from the default scene's root nodes in declared order, each node
 * contributes its own mesh (when its index is in range) and then, depth
 * first, the meshes of its children in declared order. Both traversals are
 * proved to act on exactly this sequence.
 */
module Traversal {
  import opened Asset

  /** A bound strictly above every rank. */
  function Top(rank: seq<nat>): (t: nat)
    ensures forall i :: 0 <= i < |rank| ==> rank[i] < t
  {
    if rank == [] then 0
    else
      var t := Top(rank[..|rank| - 1]);
      if rank[|rank| - 1] < t then t else rank[|rank| - 1] + 1
  }

  /** The node's own mesh, when its index names an existing mesh. */
  function OwnMesh(m: Model, n: nat): (ks: seq<nat>)
    requires n < |m.nodes|
    ensures |ks| <= 1
    ensures |ks| == 1 <==> 0 <= m.nodes[n].mesh < |m.meshes|
    ensures forall k :: k in ks ==> k == m.nodes[n].mesh
  {
    if 0 <= m.nodes[n].mesh < |m.meshes| then [m.nodes[n].mesh as nat] else []
  }

  /** Meshes visited from node `n`, own mesh first, then each child subtree in order. */
  function NodeMeshes(m: Model, rank: seq<nat>, n: nat): (ks: seq<nat>)
    requires RankedBy(m, rank) && n < |m.nodes|
    decreases rank[n], 1, 0
  {
    assert Below(m, rank, m.nodes[n].children, rank[n]);
    OwnMesh(m, n) + ListMeshes(m, rank, m.nodes[n].children, 0, rank[n])
  }

  /** Every index in `ns` names an existing node whose rank is below `bound`. */
  predicate Below(m: Model, rank: seq<nat>, ns: seq<int>, bound: nat)
    requires |rank| == |m.nodes|
  {
    forall q :: 0 <= q < |ns| ==> 0 <= ns[q] < |m.nodes| && rank[ns[q]] < bound
  }

  /** Meshes visited from the nodes `ns[i..]`, one subtree after the other. */
  function ListMeshes(m: Model, rank: seq<nat>, ns: seq<int>, i: nat, bound: nat): (ks: seq<nat>)
    requires RankedBy(m, rank) && i <= |ns| && Below(m, rank, ns, bound)
    decreases bound, 0, |ns| - i
  {
    if i == |ns| then []
    else NodeMeshes(m, rank, ns[i] as nat) + ListMeshes(m, rank, ns, i + 1, bound)
  }

  /** Meshes visited from the default scene. */
  function SceneMeshes(m: Model, rank: seq<nat>): (ks: seq<nat>)
    requires RankedBy(m, rank) && SceneReady(m)
    ensures forall k :: k in ks ==> k < |m.meshes|
  {
    assert Below(m, rank, m.scenes[m.defaultScene].nodes, Top(rank));
    ListMeshesExist(m, rank, m.scenes[m.defaultScene].nodes, 0, Top(rank));
    ListMeshes(m, rank, m.scenes[m.defaultScene].nodes, 0, Top(rank))
  }

  /** Every mesh visited from node `n` exists: a node whose mesh index is out of range contributes nothing. */
  lemma {:induction false} NodeMeshesExist(m: Model, rank: seq<nat>, n: nat)
    requires RankedBy(m, rank) && n < |m.nodes|
    ensures forall k :: k in NodeMeshes(m, rank, n) ==> k < |m.meshes|
    decreases rank[n], 1, 0
  {
    assert Below(m, rank, m.nodes[n].children, rank[n]);
    ListMeshesExist(m, rank, m.nodes[n].children, 0, rank[n]);
  }

  lemma {:induction false} ListMeshesExist(m: Model, rank: seq<nat>, ns: seq<int>, i: nat, bound: nat)
    requires RankedBy(m, rank) && i <= |ns| && Below(m, rank, ns, bound)
    ensures forall k :: k in ListMeshes(m, rank, ns, i, bound) ==> k < |m.meshes|
    decreases bound, 0, |ns| - i
  {
    if i < |ns| {
      NodeMeshesExist(m, rank, ns[i] as nat);
      ListMeshesExist(m, rank, ns, i + 1, bound);
    }
  }

  /** The subtrees of `ns[i..]` are those of `ns[i..c]` followed by those of `ns[c..]`. */
  lemma {:induction false} ListMeshesSplit(m: Model, rank: seq<nat>, ns: seq<int>, i: nat, bound: nat, c: nat)
    requires RankedBy(m, rank) && i <= c <= |ns| && Below(m, rank, ns, bound)
    ensures Below(m, rank, ns[..c], bound)
    ensures ListMeshes(m, rank, ns, i, bound)
         == ListMeshes(m, rank, ns[..c], i, bound) + ListMeshes(m, rank, ns, c, bound)
    decreases c - i
  {
    var pre := ns[..c];
    assert Below(m, rank, pre, bound) by {
      assert forall q :: 0 <= q < |pre| ==> pre[q] == ns[q];
    }
    if i < c {
      ListMeshesSplit(m, rank, ns, i + 1, bound, c);
      assert pre[i] == ns[i];
      var head := NodeMeshes(m, rank, ns[i] as nat);
      assert ListMeshes(m, rank, pre, i, bound) == head + ListMeshes(m, rank, pre, i + 1, bound);
      assert ListMeshes(m, rank, ns, i, bound) == head + ListMeshes(m, rank, ns, i + 1, bound);
    }
  }

  /** Every subtree of `ns[i..]` is visited, in list order: `ns[c]`'s meshes follow those of `ns[i..c]`. */
  lemma ListMeshesAt(m: Model, rank: seq<nat>, ns: seq<int>, i: nat, bound: nat, c: nat)
    requires RankedBy(m, rank) && i <= c < |ns| && Below(m, rank, ns, bound)
    ensures Below(m, rank, ns[..c], bound)
    ensures ListMeshes(m, rank, ns, i, bound)
         == ListMeshes(m, rank, ns[..c], i, bound) + NodeMeshes(m, rank, ns[c] as nat)
            + ListMeshes(m, rank, ns, c + 1, bound)
  {
    ListMeshesSplit(m, rank, ns, i, bound, c);
  }

  /**
   * Pre-order: the meshes of node `n` are its own mesh, followed by the
   * meshes of the children before child `c`, the whole subtree of child `c`,
   * and the later children, whether or not `n`'s own mesh index is in range.
   */
  lemma ChildSubtreeVisited(m: Model, rank: seq<nat>, n: nat, c: nat)
    requires RankedBy(m, rank) && n < |m.nodes| && c < |m.nodes[n].children|
    ensures NodeMeshes(m, rank, n)
         == OwnMesh(m, n)
            + ListMeshes(m, rank, m.nodes[n].children[..c], 0, rank[n])
            + NodeMeshes(m, rank, m.nodes[n].children[c] as nat)
            + ListMeshes(m, rank, m.nodes[n].children, c + 1, rank[n])
  {
    var ch := m.nodes[n].children;
    ListMeshesAt(m, rank, ch, 0, rank[n], c);
  }
}
