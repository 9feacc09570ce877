/** OPCODE_Model::Build (OPC_Model.cpp): the generic tree is built, flattened into the layout
    asked for, and is then a tree every query module accepts. */
module Models {
  import opened AABBTrees
  import Geometry
  import opened OptimizedTrees
  import opened Search
  import opened Splits
  import opened Trees

  /** What the queries rely on: boxes hold their triangles, one primitive per leaf, and every
      face of the mesh in exactly one leaf. */
  ghost predicate BuiltOver(m: Mesh, t: Tree)
    requires ValidMesh(m)
  {
    Encloses(m, t) && Complete(t) && multiset(Prims(t)) == multiset(Iota(|m.faces|))
  }

  lemma HeldTree(tree: AABBTree, m: Mesh, t: Tree)
    requires ValidMesh(m) && tree.Holds(m, t) && Complete(t)
    ensures BuiltOver(m, t)
  {
    hide AABBTreeNode.Represents, Encloses, ValidMesh;
    TreeShape(tree, m, t);
    TightTreeEncloses(m, t);
  }

  lemma {:induction false} IotaOnce(n: nat, i: nat)
    ensures Occurrences(Iota(n), i) == if i < n then 1 else 0
  {
    if n > 0 {
      assert Iota(n) == Iota(n - 1) + [n - 1];
      IotaOnce(n - 1, i);
    }
  }

  /** Over a built tree a brute-force list holds every hit of the mesh exactly once, so the
      lists the queries return are the full answer. */
  lemma EveryHitOnce(m: Mesh, t: Tree, hits: set<nat>, i: nat)
    requires ValidMesh(m) && BuiltOver(m, t) && forall h :: h in hits ==> h < |m.faces|
    ensures Occurrences(Filter(hits, Prims(t)), i) == if i in hits then 1 else 0
  {
    IotaOnce(|m.faces|, i);
    assert Occurrences(Prims(t), i) == Occurrences(Iota(|m.faces|), i);
    hide Encloses, ValidMesh, Prims, Filter, Iota, Occurrences;
    FilterIsReport(hits, Prims(t));
    AllContacts(hits, hits, Prims(t), Filter(hits, Prims(t)), i);
    OccurrencesMember(Filter(hits, Prims(t)), i);
  }

  class OPCODE_Model {
    const mesh: Mesh
    var mNoLeaf: bool
    var mCollisionTree: AABBCollisionTree
    var mNoLeafTree: AABBNoLeafTree

    constructor (mesh: Mesh)
      ensures this.mesh == mesh
    {
      this.mesh, mNoLeaf := mesh, false;
      mCollisionTree := new AABBCollisionTree();
      mNoLeafTree := new AABBNoLeafTree();
    }

    /** Refuses an empty mesh, rules without SPLIT_COMPLETE, and several triangles without a
        known split rule; stores the tree otherwise, in either layout, except that the no-leaf
        layout of one triangle ends at null children. */
    method Build(rules: Rules, noLeaf: bool) returns (r: Flattening, ghost t: Tree)
      requires ValidMesh(mesh) && |mesh.faces| <= 0x8000_0000
      modifies this
      ensures r != Refused <==> (
        && mesh.faces != [] && rules.complete
        && (rules.largestAxis || rules.splatterPoints || rules.balanced || rules.bestAxis || rules.fifty || |mesh.faces| == 1))
      ensures r == NullChild <==> rules.complete && |mesh.faces| == 1 && noLeaf
      ensures r != Refused ==> mNoLeaf == noLeaf && BuiltOver(mesh, t) && RuleTree(rules, 0, mesh, Iota(|mesh.faces|), 0, t)
      ensures r == Stored && noLeaf ==> EncodesNoLeaf(mNoLeafTree.mNodes[..], 0, t) && mNoLeafTree.mNbNodes == |mesh.faces| - 1
      ensures r == Stored && !noLeaf ==> Encodes(mCollisionTree.mNodes[..], 0, t) && mCollisionTree.mNbNodes == 2 * |mesh.faces| - 1
    {
      hide AABBTreeNode.Represents, AABBTree.Holds, Built, Iota, ValidMesh, Encodes, EncodesNoLeaf, Layout, NoLeafLayout, BuiltOver, Complete, RuleTree;
      var built: bool;
      if |mesh.faces| == 0 || !rules.complete {
        t := Leaf(AABB(Geometry.Point(0.0, 0.0, 0.0), Geometry.Point(0.0, 0.0, 0.0)), []);
        return Refused, t;
      }
      var source := new AABBTree();
      var builder := new AABBTreeBuilder(mesh, rules, 0);
      built, t := source.Build(builder);
      mNoLeaf := noLeaf;
      if noLeaf {
        mNoLeafTree := new AABBNoLeafTree();
        r := mNoLeafTree.Build(source, mesh, t);
      } else {
        mCollisionTree := new AABBCollisionTree();
        var ok := mCollisionTree.Build(source, mesh, t);
        r := if ok then Stored else Refused;
      }
      if r != Refused { HeldTree(source, mesh, t); }
    }
  }
}
