/** Flattened trees (OPC_OptimizedTree.h, OPC_OptimizedTree.cpp): the implicit layout with
    2N-1 nodes and the no-leaf layout with N-1 nodes.

    A pointer to node i is modelled as the even word 2*i; the tag bit is the word's least
    significant bit, as in the source. */
module OptimizedTrees {
  import FloatBits
  import opened Geometry
  import opened Trees
  import opened AABBTrees

  const WORD: nat := 0x1_0000_0000

  /** (PrimitiveIndex << 1) | 1, in 32-bit arithmetic. */
  function LeafWord(primitive: nat): nat {
    (primitive * 2) % WORD + 1
  }

  function NodeWord(index: nat): nat {
    2 * index
  }

  predicate Tagged(word: nat) {
    word % 2 == 1
  }

  /** udword(mData >> 1) */
  function WordPrimitive(word: nat): nat {
    (word / 2) % WORD
  }

  function WordNode(word: nat): nat {
    word / 2
  }

  /** Primitive indices small enough for 2N-1 nodes to be counted in 32 bits keep their
      value through the tagged word. */
  predicate Indexable(primitive: nat) {
    primitive < 0x8000_0000
  }

  lemma LeafWordRoundTrip(primitive: nat)
    requires Indexable(primitive)
    ensures Tagged(LeafWord(primitive)) && WordPrimitive(LeafWord(primitive)) == primitive
  {}

  lemma NodeWordRoundTrip(index: nat)
    ensures !Tagged(NodeWord(index)) && WordNode(NodeWord(index)) == index
  {}

  /** What the tag tells about a word: primitive p is 2p+1 in the low 33 bits, node i is 2i. */
  lemma WordIs(word: nat)
    ensures Tagged(word) ==> word % 0x2_0000_0000 == 2 * WordPrimitive(word) + 1
    ensures !Tagged(word) ==> word == 2 * WordNode(word)
  {
    var half := word / 2;
    assert word == 2 * half + word % 2 && half == WORD * (half / WORD) + half % WORD;
    if Tagged(word) { FloatBits.QuotientUnique(word, 0x2_0000_0000, half / WORD, 2 * (half % WORD) + 1); }
  }

  predicate IndexableAll(ps: seq<nat>) {
    forall i :: i in ps ==> Indexable(i)
  }

  // ------------------------------------------------------------- implicit layout

  datatype AABBCollisionNode = AABBCollisionNode(mAABB: CollisionAABB, mData: nat) {
    predicate IsLeaf() { Tagged(mData) }
    function GetPos(): nat { WordNode(mData) }
    function GetNeg(): nat { WordNode(mData) + 1 }
    function GetPrimitive(): nat { WordPrimitive(mData) }
  }

  /** Following the words from node `id` spells out the complete tree `t`. */
  ghost predicate Encodes(nodes: seq<AABBCollisionNode>, id: nat, t: Tree)
    decreases t
  {
    && id < |nodes| && nodes[id].mAABB == CollisionBox(t.box)
    && match t
       case Leaf(_, ps) => nodes[id].IsLeaf() && ps == [nodes[id].GetPrimitive()]
       case Node(_, p, n) => !nodes[id].IsLeaf() && Encodes(nodes, nodes[id].GetPos(), p) && Encodes(nodes, nodes[id].GetNeg(), n)
  }

  /** The exact placement: the root at `id`, its two children side by side at `lo`, then the
      positive subtree's descendants, then the negative one's. */
  ghost predicate Layout(nodes: seq<AABBCollisionNode>, id: nat, lo: nat, t: Tree)
    decreases t
  {
    && id < |nodes| && lo + Count(t) - 1 <= |nodes| && nodes[id].mAABB == CollisionBox(t.box)
    && match t
       case Leaf(_, ps) => nodes[id].IsLeaf() && ps == [nodes[id].GetPrimitive()]
       case Node(_, p, n) =>
         && !nodes[id].IsLeaf() && nodes[id].GetPos() == lo && nodes[id].GetNeg() == lo + 1
         && Layout(nodes, lo, lo + 2, p) && Layout(nodes, lo + 1, lo + 1 + Count(p), n)
  }

  lemma {:induction false} CountPositive(t: Tree)
    ensures 1 <= Count(t)
  {}

  /** A subtree's placement only depends on its root slot and its range of slots. */
  lemma {:induction false} LayoutFrame(a: seq<AABBCollisionNode>, b: seq<AABBCollisionNode>, id: nat, lo: nat, t: Tree)
    requires Layout(a, id, lo, t) && |a| == |b| && a[id] == b[id]
    requires forall k :: lo <= k < lo + Count(t) - 1 ==> a[k] == b[k]
    ensures Layout(b, id, lo, t)
    decreases t
  {
    if t.Node? {
      CountPositive(t.pos);
      CountPositive(t.neg);
      LayoutFrame(a, b, lo, lo + 2, t.pos);
      LayoutFrame(a, b, lo + 1, lo + 1 + Count(t.pos), t.neg);
    }
  }

  lemma {:induction false} LayoutEncodes(nodes: seq<AABBCollisionNode>, id: nat, lo: nat, t: Tree)
    requires Layout(nodes, id, lo, t)
    ensures Encodes(nodes, id, t)
    decreases t
  {
    if t.Node? {
      LayoutEncodes(nodes, lo, lo + 2, t.pos);
      LayoutEncodes(nodes, lo + 1, lo + 1 + Count(t.pos), t.neg);
    }
  }

  /** Slots occupied by the subtree rooted at `id`. */
  ghost function Slots(nodes: seq<AABBCollisionNode>, id: nat, t: Tree): seq<nat>
    requires Encodes(nodes, id, t)
    decreases t
  {
    match t
    case Leaf(_, _) => [id]
    case Node(_, p, n) => [id] + Slots(nodes, nodes[id].GetPos(), p) + Slots(nodes, nodes[id].GetNeg(), n)
  }

  lemma {:induction false} SlotsCount(nodes: seq<AABBCollisionNode>, id: nat, t: Tree)
    requires Encodes(nodes, id, t)
    ensures |Slots(nodes, id, t)| == Count(t)
    decreases t
  {
    if t.Node? {
      SlotsCount(nodes, nodes[id].GetPos(), t.pos);
      SlotsCount(nodes, nodes[id].GetNeg(), t.neg);
    }
  }

  /** How often a slot occurs among the slots of a subtree. */
  function Uses(slots: seq<nat>, k: nat): nat { multiset(slots)[k] }

  lemma CountJoined(id: nat, a: seq<nat>, b: seq<nat>, k: nat)
    ensures Uses([id] + a + b, k) == (if k == id then 1 else 0) + Uses(a, k) + Uses(b, k)
  {}

  lemma LeafUses(id: nat, k: nat)
    ensures Uses([id], k) == if k == id then 1 else 0
  {}

  /** Every slot of the range is used exactly once: the slots of a placed subtree are its
      root's and each of [lo, lo + Count - 1), without repetition. */
  lemma {:induction false} LayoutSlots(nodes: seq<AABBCollisionNode>, id: nat, lo: nat, t: Tree, k: nat)
    requires Layout(nodes, id, lo, t) && id < lo && Encodes(nodes, id, t)
    ensures Uses(Slots(nodes, id, t), k) == if k == id || lo <= k < lo + Count(t) - 1 then 1 else 0
    decreases t
  {
    hide CollisionBox, Tagged, WordNode, WordPrimitive, Uses;
    if t.Leaf? {
      LeafUses(id, k);
    } else {
      var cp, cn := Count(t.pos), Count(t.neg);
      CountPositive(t.pos);
      CountPositive(t.neg);
      LayoutSlots(nodes, lo, lo + 2, t.pos, k);
      LayoutSlots(nodes, lo + 1, lo + 1 + cp, t.neg, k);
      var a, b := Slots(nodes, lo, t.pos), Slots(nodes, lo + 1, t.neg);
      assert Slots(nodes, id, t) == [id] + a + b;
      CountJoined(id, a, b, k);
      SlotArithmetic(k, id, lo, cp, cn, Uses(a, k), Uses(b, k));
    }
    hide Layout, Encodes, Slots;
  }

  /** The two children's slots, side by side, and their ranges make up the parent's range. */
  lemma SlotArithmetic(k: nat, id: nat, lo: nat, cp: nat, cn: nat, a: nat, b: nat)
    requires id < lo && 1 <= cp && 1 <= cn
    requires a == if k == lo || lo + 2 <= k < lo + 2 + cp - 1 then 1 else 0
    requires b == if k == lo + 1 || lo + 1 + cp <= k < lo + 1 + cp + cn - 1 then 1 else 0
    ensures (if k == id then 1 else 0) + a + b == if k == id || lo <= k < lo + cp + cn then 1 else 0
  {}

  lemma CenterExtentsInjective(a: AABB, b: AABB)
    requires CollisionBox(a) == CollisionBox(b)
    ensures a == b
  {
    HalfInjective(a.mMin.x, a.mMax.x, b.mMin.x, b.mMax.x);
    HalfInjective(a.mMin.y, a.mMax.y, b.mMin.y, b.mMax.y);
    HalfInjective(a.mMin.z, a.mMax.z, b.mMin.z, b.mMax.z);
  }

  lemma HalfInjective(a: real, b: real, c: real, d: real)
    requires 0.5 * (b + a) == 0.5 * (d + c) && 0.5 * (b - a) == 0.5 * (d - c)
    ensures a == c && b == d
  {}

  /** Decoding is unambiguous: the array spells at most one tree, so flattening then
      decoding gives back the source tree. */
  lemma {:induction false} EncodesOneTree(nodes: seq<AABBCollisionNode>, id: nat, t: Tree, u: Tree)
    requires Encodes(nodes, id, t) && Encodes(nodes, id, u)
    ensures t == u
    decreases t
  {
    hide CollisionBox;
    CenterExtentsInjective(t.box, u.box);
    if t.Node? {
      EncodesOneTree(nodes, nodes[id].GetPos(), t.pos, u.pos);
      EncodesOneTree(nodes, nodes[id].GetNeg(), t.neg, u.neg);
    }
  }

  ghost predicate Untouched<T>(a: seq<T>, b: seq<T>, id: nat, lo: nat, hi: nat) {
    |a| == |b| && forall k :: 0 <= k < |a| && k != id && !(lo <= k < hi) ==> a[k] == b[k]
  }

  /** Flattens `node` into linear[boxid], taking new ids from `curid` on. */
  method BuildCollisionTree(linear: array<AABBCollisionNode>, boxid: nat, curid: nat,
                            node: AABBTreeNode, indices: array<nat>, ghost t: Tree) returns (curid': nat)
    requires node.Represents(t, indices[..]) && Complete(t) && IndexableAll(Prims(t))
    requires boxid < curid && curid + Count(t) - 1 <= linear.Length
    modifies linear
    ensures curid' == curid + Count(t) - 1
    ensures Layout(linear[..], boxid, curid, t)
    ensures Untouched(old(linear[..]), linear[..], boxid, curid, curid')
    decreases t
  {
    CountPositive(t);
    node.Parts(t, indices[..]);
    hide AABBTreeNode.Represents, Layout, Untouched, CollisionBox, Tagged, LeafWord, WordPrimitive, WordNode, NodeWord;
    ghost var start := linear[..];
    var box := CollisionBox(node.mBV);
    if node.IsLeaf() {
      assert node.mNbPrimitives == 1;
      var primitiveIndex := indices[node.mFirst];
      assert Prims(t) == [primitiveIndex] && primitiveIndex in Prims(t);
      LeafWordRoundTrip(primitiveIndex);
      linear[boxid] := AABBCollisionNode(box, LeafWord(primitiveIndex));
      curid' := curid;
      LeafLayout(linear[..], boxid, curid, t);
      UntouchedAt(start, linear[..], linear[boxid], boxid, curid, curid');
    } else {
      PrimsSplit(t);
      CountPositive(t.pos);
      CountPositive(t.neg);
      var posID := curid;
      var negID := curid + 1;
      var next := curid + 2;
      linear[boxid] := AABBCollisionNode(box, NodeWord(posID));
      NodeWordRoundTrip(posID);
      ghost var root := linear[..];
      var mid := BuildCollisionTree(linear, posID, next, node.mP, indices, t.pos);
      ghost var half := linear[..];
      curid' := BuildCollisionTree(linear, negID, mid, node.mN, indices, t.neg);
      JoinLayout(start, root, half, linear[..], boxid, curid, t, negID, next, mid, curid');
    }
  }

  lemma PrimsSplit(t: Tree)
    requires t.Node? && Complete(t) && IndexableAll(Prims(t))
    ensures Complete(t.pos) && Complete(t.neg) && IndexableAll(Prims(t.pos)) && IndexableAll(Prims(t.neg))
  {
    forall i | i in Prims(t.pos) ensures i in Prims(t) {}
    forall i | i in Prims(t.neg) ensures i in Prims(t) {}
  }

  lemma LeafLayout(nodes: seq<AABBCollisionNode>, id: nat, lo: nat, t: Tree)
    requires t.Leaf? && id < |nodes| && lo <= |nodes| && nodes[id].mAABB == CollisionBox(t.box)
    requires nodes[id].IsLeaf() && t.prims == [nodes[id].GetPrimitive()]
    ensures Layout(nodes, id, lo, t)
  {}

  lemma UntouchedAt(a: seq<AABBCollisionNode>, b: seq<AABBCollisionNode>, x: AABBCollisionNode, id: nat, lo: nat, hi: nat)
    requires id < |a| && b == a[id := x]
    ensures Untouched(a, b, id, lo, hi)
  {}

  lemma JoinLayout(start: seq<AABBCollisionNode>, root: seq<AABBCollisionNode>, half: seq<AABBCollisionNode>,
                   done: seq<AABBCollisionNode>, id: nat, lo: nat, t: Tree, neg: nat, next: nat, mid: nat, hi: nat)
    requires t.Node? && id < lo && hi <= |start|
    requires neg == lo + 1 && next == lo + 2 && mid == next + Count(t.pos) - 1 && hi == mid + Count(t.neg) - 1
    requires |root| == |start| && id < |start| && root == start[id := root[id]] && root[id].mAABB == CollisionBox(t.box)
    requires !root[id].IsLeaf() && root[id].GetPos() == lo && root[id].GetNeg() == neg
    requires Untouched(root, half, lo, next, mid) && Layout(half, lo, next, t.pos)
    requires Untouched(half, done, neg, mid, hi) && Layout(done, neg, mid, t.neg)
    ensures Layout(done, id, lo, t) && Untouched(start, done, id, lo, hi)
  {
    hide CollisionBox, Tagged, WordPrimitive, WordNode, Count;
    CountPositive(t.pos);
    CountPositive(t.neg);
    assert Layout(done, lo, next, t.pos) by {
      LayoutFrame(half, done, lo, next, t.pos);
    }
    Composed(start, root, half, done, id, lo, neg, next, mid, hi);
    NodeLayout(done, id, lo, t, neg, next, mid, hi);
  }

  lemma Composed<T>(start: seq<T>, root: seq<T>, half: seq<T>, done: seq<T>, id: nat, lo: nat, neg: nat, next: nat, mid: nat, hi: nat)
    requires id < lo && neg == lo + 1 && next == lo + 2 && next <= mid <= hi
    requires |root| == |start| && id < |start| && root == start[id := root[id]]
    requires Untouched(root, half, lo, next, mid) && Untouched(half, done, neg, mid, hi)
    ensures Untouched(start, done, id, lo, hi) && done[id] == root[id]
  {}

  lemma NodeLayout(done: seq<AABBCollisionNode>, id: nat, lo: nat, t: Tree, neg: nat, next: nat, mid: nat, hi: nat)
    requires t.Node? && id < |done| && hi <= |done|
    requires neg == lo + 1 && next == lo + 2 && mid == next + Count(t.pos) - 1 && hi == mid + Count(t.neg) - 1
    requires done[id].mAABB == CollisionBox(t.box)
    requires !done[id].IsLeaf() && done[id].GetPos() == lo && done[id].GetNeg() == neg
    requires Layout(done, lo, next, t.pos) && Layout(done, neg, mid, t.neg)
    ensures Layout(done, id, lo, t)
  {}

  lemma TreeShape(tree: AABBTree, m: Mesh, t: Tree)
    requires ValidMesh(m) && tree.Holds(m, t)
    ensures tree.root.Represents(t, tree.mIndices[..]) && multiset(Prims(t)) == multiset(Iota(|m.faces|))
    ensures tree.root.mNbPrimitives == |m.faces| == |Prims(t)| && tree.mTotalNbNodes == Count(t)
    ensures Complete(t) <==> Count(t) == 2 * |m.faces| - 1
  {
    hide AABBTreeNode.Represents, TightTree;
    CompleteIffCount(t);
  }

  class AABBCollisionTree {
    var mNodes: array<AABBCollisionNode>
    var mNbNodes: nat

    constructor ()
    {
      mNodes := new AABBCollisionNode[0];
      mNbNodes := 0;
    }

    /** Accepts exactly complete trees; the array then spells the source tree from node 0,
        and each of its 2N-1 slots is one node of it. */
    method Build(tree: AABBTree, ghost m: Mesh, ghost t: Tree) returns (ok: bool)
      requires ValidMesh(m) && tree.Holds(m, t) && |m.faces| <= 0x8000_0000
      modifies this
      ensures ok <==> Complete(t)
      ensures ok ==> mNbNodes == mNodes.Length == 2 * |m.faces| - 1 && fresh(mNodes)
      ensures ok ==> Layout(mNodes[..], 0, 1, t) && Encodes(mNodes[..], 0, t)
    {
      hide TightTree, ValidMesh, AABBTreeNode.Represents, CollisionBox, Layout, Encodes, IndexableAll, Built;
      TreeShape(tree, m, t);
      hide Complete;
      hide AABBTree.Holds;
      var nbTriangles: int, nbNodes: int := tree.root.mNbPrimitives, tree.mTotalNbNodes;
      if nbNodes != nbTriangles * 2 - 1 {
        return false;
      }
      mNbNodes := nbNodes;
      var zero := Point(0.0, 0.0, 0.0);
      mNodes := new AABBCollisionNode[mNbNodes](_ => AABBCollisionNode(CollisionAABB(zero, zero), 0));
      SmallIndices(m, t);
      var curID := BuildCollisionTree(mNodes, 0, 1, tree.root, tree.mIndices, t);
      LayoutEncodes(mNodes[..], 0, 1, t);
      return true;
    }
  }

  lemma SmallIndices(m: Mesh, t: Tree)
    requires |m.faces| <= 0x8000_0000 && multiset(Prims(t)) == multiset(Iota(|m.faces|))
    ensures IndexableAll(Prims(t))
  {
    forall i | i in Prims(t) ensures Indexable(i) {
      assert i in multiset(Prims(t));
      assert i in Iota(|m.faces|);
    }
  }

  // -------------------------------------------------------------- no-leaf layout

  /** Each word is a tagged primitive or a node: HasLeaf and HasLeaf2 are Tagged of the two. */
  datatype AABBNoLeafNode = AABBNoLeafNode(mAABB: CollisionAABB, mData: nat, mData2: nat)

  /** Number of internal nodes. */
  function Inner(t: Tree): nat {
    match t
    case Leaf(_, _) => 0
    case Node(_, p, n) => 1 + Inner(p) + Inner(n)
  }

  lemma {:induction false} InnerOfComplete(t: Tree)
    requires Complete(t)
    ensures Inner(t) == |Prims(t)| - 1
  {
    if t.Node? {
      InnerOfComplete(t.pos);
      InnerOfComplete(t.neg);
    }
  }

  /** A word encodes a child: a tagged primitive for a leaf, a node otherwise. The leaf's own
      box is dropped by this layout. */
  ghost predicate EncodesChild(nodes: seq<AABBNoLeafNode>, word: nat, t: Tree)
    decreases t, 1
  {
    match t
    case Leaf(_, ps) => Tagged(word) && ps == [WordPrimitive(word)]
    case Node(_, _, _) => !Tagged(word) && EncodesNoLeaf(nodes, WordNode(word), t)
  }

  ghost predicate EncodesNoLeaf(nodes: seq<AABBNoLeafNode>, id: nat, t: Tree)
    decreases t, 0
  {
    t.Node? && id < |nodes| && nodes[id].mAABB == CollisionBox(t.box) &&
    EncodesChild(nodes, nodes[id].mData, t.pos) && EncodesChild(nodes, nodes[id].mData2, t.neg)
  }

  /** Source tree with its leaves folded into their parents. */
  datatype Folded = Primitive(index: nat) | Branch(box: AABB, pos: Folded, neg: Folded)

  ghost function Fold(t: Tree): Folded
    requires Complete(t)
  {
    match t
    case Leaf(_, ps) => Primitive(ps[0])
    case Node(b, p, n) => Branch(b, Fold(p), Fold(n))
  }

  /** Decoding is unambiguous up to the dropped leaf boxes. */
  lemma {:induction false} NoLeafEncodesOneTree(nodes: seq<AABBNoLeafNode>, word: nat, t: Tree, u: Tree)
    requires Complete(t) && Complete(u) && EncodesChild(nodes, word, t) && EncodesChild(nodes, word, u)
    ensures Fold(t) == Fold(u)
    decreases t
  {
    hide CollisionBox, Tagged, WordPrimitive, WordNode;
    if t.Node? {
      CenterExtentsInjective(t.box, u.box);
      NoLeafEncodesOneTree(nodes, nodes[WordNode(word)].mData, t.pos, u.pos);
      NoLeafEncodesOneTree(nodes, nodes[WordNode(word)].mData2, t.neg, u.neg);
    }
  }

  /** The exact placement of a child: nothing for a leaf, else its node at `lo` followed by
      the node's own descendants. */
  ghost predicate ChildLayout(nodes: seq<AABBNoLeafNode>, word: nat, lo: nat, t: Tree)
    decreases t, 1
  {
    match t
    case Leaf(_, ps) => Tagged(word) && ps == [WordPrimitive(word)]
    case Node(_, _, _) => !Tagged(word) && WordNode(word) == lo && NoLeafLayout(nodes, lo, lo + 1, t)
  }

  ghost predicate NoLeafLayout(nodes: seq<AABBNoLeafNode>, id: nat, lo: nat, t: Tree)
    decreases t, 0
  {
    t.Node? && id < |nodes| && lo + Inner(t) - 1 <= |nodes| && nodes[id].mAABB == CollisionBox(t.box) &&
    ChildLayout(nodes, nodes[id].mData, lo, t.pos) && ChildLayout(nodes, nodes[id].mData2, lo + Inner(t.pos), t.neg)
  }

  lemma {:induction false} NoLeafFrame(a: seq<AABBNoLeafNode>, b: seq<AABBNoLeafNode>, word: nat, lo: nat, t: Tree)
    requires ChildLayout(a, word, lo, t) && |a| == |b|
    requires forall k :: 0 <= k < |a| && lo <= k < lo + Inner(t) ==> a[k] == b[k]
    ensures ChildLayout(b, word, lo, t)
    decreases t
  {
    if t.Node? {
      NoLeafFrame(a, b, a[lo].mData, lo + 1, t.pos);
      NoLeafFrame(a, b, a[lo].mData2, lo + 1 + Inner(t.pos), t.neg);
    }
  }

  lemma {:induction false} ChildLayoutEncodes(nodes: seq<AABBNoLeafNode>, word: nat, lo: nat, t: Tree)
    requires ChildLayout(nodes, word, lo, t)
    ensures EncodesChild(nodes, word, t)
    decreases t
  {
    if t.Node? {
      ChildLayoutEncodes(nodes, nodes[lo].mData, lo + 1, t.pos);
      ChildLayoutEncodes(nodes, nodes[lo].mData2, lo + 1 + Inner(t.pos), t.neg);
    }
  }

  /** Slots occupied by the nodes below a child word. */
  ghost function ChildSlots(nodes: seq<AABBNoLeafNode>, word: nat, t: Tree): seq<nat>
    requires EncodesChild(nodes, word, t)
    decreases t
  {
    match t
    case Leaf(_, _) => []
    case Node(_, p, n) =>
      var id := WordNode(word);
      assert EncodesNoLeaf(nodes, id, t);
      [id] + ChildSlots(nodes, nodes[id].mData, p) + ChildSlots(nodes, nodes[id].mData2, n)
  }

  /** Every slot of a placed child's range is used exactly once, and no other slot. */
  lemma {:induction false} ChildLayoutSlots(nodes: seq<AABBNoLeafNode>, word: nat, lo: nat, t: Tree, k: nat)
    requires ChildLayout(nodes, word, lo, t) && EncodesChild(nodes, word, t)
    ensures Uses(ChildSlots(nodes, word, t), k) == if lo <= k < lo + Inner(t) then 1 else 0
    decreases t
  {
    if t.Node? {
      ChildLayoutSlots(nodes, nodes[lo].mData, lo + 1, t.pos, k);
      ChildLayoutSlots(nodes, nodes[lo].mData2, lo + 1 + Inner(t.pos), t.neg, k);
      CountJoined(lo, ChildSlots(nodes, nodes[lo].mData, t.pos), ChildSlots(nodes, nodes[lo].mData2, t.neg), k);
    }
  }

  lemma NoLeafLayoutEncodes(nodes: seq<AABBNoLeafNode>, id: nat, lo: nat, t: Tree)
    requires NoLeafLayout(nodes, id, lo, t)
    ensures EncodesNoLeaf(nodes, id, t)
  {
    hide CollisionBox;
    ChildLayoutEncodes(nodes, nodes[id].mData, lo, t.pos);
    ChildLayoutEncodes(nodes, nodes[id].mData2, lo + Inner(t.pos), t.neg);
  }

  /** Flattens the internal node `node` into linear[boxid]. */
  method BuildNoLeafTree(linear: array<AABBNoLeafNode>, boxid: nat, curid: nat,
                         node: AABBTreeNode, indices: array<nat>, ghost t: Tree) returns (curid': nat)
    requires t.Node? && node.Represents(t, indices[..]) && Complete(t) && IndexableAll(Prims(t))
    requires boxid < curid && curid + Inner(t) - 1 <= linear.Length
    modifies linear
    ensures curid' == curid + Inner(t) - 1
    ensures NoLeafLayout(linear[..], boxid, curid, t)
    ensures Untouched(old(linear[..]), linear[..], boxid, curid, curid')
    decreases t, 1
  {
    PrimsSplit(t);
    node.Parts(t, indices[..]);
    hide AABBTreeNode.Represents, NoLeafLayout, CollisionBox, Tagged, LeafWord, WordPrimitive, WordNode, NodeWord, ChildLayout, Untouched;
    ghost var start := linear[..];
    var P, N := node.mP, node.mN;
    linear[boxid] := linear[boxid].(mAABB := CollisionBox(node.mBV));
    ghost var boxed := linear[..];
    var word: nat;
    var mid: nat;
    mid, word := FlattenChild(linear, boxid, curid, P, indices, t.pos, false);
    ghost var half := linear[..];
    var word2: nat;
    curid', word2 := FlattenChild(linear, boxid, mid, N, indices, t.neg, true);
    JoinNoLeaf(start, boxed, half, linear[..], boxid, curid, t, word, word2, mid, curid');
  }

  /** One child: its word is stored in the parent before the recursion, as in the source. */
  method FlattenChild(linear: array<AABBNoLeafNode>, boxid: nat, curid: nat,
                      node: AABBTreeNode, indices: array<nat>, ghost t: Tree, second: bool) returns (curid': nat, word: nat)
    requires node.Represents(t, indices[..]) && Complete(t) && IndexableAll(Prims(t))
    requires boxid < curid && curid + Inner(t) <= linear.Length
    modifies linear
    ensures curid' == curid + Inner(t) && ChildLayout(linear[..], word, curid, t)
    ensures linear[boxid] == if second then old(linear[boxid]).(mData2 := word) else old(linear[boxid]).(mData := word)
    ensures Untouched(old(linear[..]), linear[..], boxid, curid, curid')
    decreases t, 2
  {
    hide AABBTreeNode.Represents, CollisionBox, Tagged, LeafWord, WordPrimitive, WordNode, NodeWord, NoLeafLayout;
    node.Parts(t, indices[..]);
    if node.IsLeaf() {
      assert node.mNbPrimitives == 1;
      var primitiveIndex := indices[node.mFirst];
      assert Prims(t) == [primitiveIndex] && primitiveIndex in Prims(t);
      LeafWordRoundTrip(primitiveIndex);
      word := LeafWord(primitiveIndex);
      linear[boxid] := if second then linear[boxid].(mData2 := word) else linear[boxid].(mData := word);
      curid' := curid;
    } else {
      word := NodeWord(curid);
      NodeWordRoundTrip(curid);
      linear[boxid] := if second then linear[boxid].(mData2 := word) else linear[boxid].(mData := word);
      curid' := BuildNoLeafTree(linear, curid, curid + 1, node, indices, t);
    }
  }

  lemma JoinNoLeaf(start: seq<AABBNoLeafNode>, boxed: seq<AABBNoLeafNode>, half: seq<AABBNoLeafNode>, done: seq<AABBNoLeafNode>,
                   id: nat, lo: nat, t: Tree, word: nat, word2: nat, mid: nat, hi: nat)
    requires t.Node? && id < lo && mid == lo + Inner(t.pos) && hi == mid + Inner(t.neg) && hi <= |start|
    requires id < |start| == |boxed| == |half| == |done|
    requires boxed == start[id := start[id].(mAABB := CollisionBox(t.box))]
    requires Untouched(boxed, half, id, lo, mid) && half[id] == boxed[id].(mData := word)
    requires Untouched(half, done, id, mid, hi) && done[id] == half[id].(mData2 := word2)
    requires ChildLayout(half, word, lo, t.pos) && ChildLayout(done, word2, mid, t.neg)
    ensures NoLeafLayout(done, id, lo, t) && Untouched(start, done, id, lo, hi)
  {
    hide CollisionBox, ChildLayout, Inner;
    NoLeafFrame(half, done, word, lo, t.pos);
    NodeNoLeafLayout(done, id, lo, t, word, word2, mid, hi);
  }

  lemma NodeNoLeafLayout(done: seq<AABBNoLeafNode>, id: nat, lo: nat, t: Tree, word: nat, word2: nat, mid: nat, hi: nat)
    requires t.Node? && id < |done| && mid == lo + Inner(t.pos) && hi == mid + Inner(t.neg) && hi <= |done|
    requires done[id] == AABBNoLeafNode(CollisionBox(t.box), word, word2)
    requires ChildLayout(done, word, lo, t.pos) && ChildLayout(done, word2, mid, t.neg)
    ensures NoLeafLayout(done, id, lo, t)
  {
    hide CollisionBox, ChildLayout;
  }

  /** How a flattening ends: refused by its check, stored, or at the null children of a root
      that is a leaf. */
  datatype Flattening = Refused | Stored | NullChild

  class AABBNoLeafTree {
    var mNodes: array<AABBNoLeafNode>
    var mNbNodes: nat

    constructor ()
    {
      mNodes := new AABBNoLeafNode[0];
      mNbNodes := 0;
    }

    /** Its check accepts exactly complete trees. One of a single triangle passes too, gets no
        slot, and the recursion is called on a root without children. */
    method Build(tree: AABBTree, ghost m: Mesh, ghost t: Tree) returns (r: Flattening)
      requires ValidMesh(m) && tree.Holds(m, t) && |m.faces| <= 0x8000_0000
      modifies this
      ensures r == Refused <==> !Complete(t)
      ensures r == NullChild <==> Complete(t) && |m.faces| == 1
      ensures r == NullChild ==> mNbNodes == mNodes.Length == 0 && tree.root.mP == null && tree.root.mN == null && t.Leaf?
      ensures r == Stored ==> mNbNodes == mNodes.Length == |m.faces| - 1 && fresh(mNodes)
      ensures r == Stored ==> NoLeafLayout(mNodes[..], 0, 1, t) && EncodesNoLeaf(mNodes[..], 0, t)
    {
      hide TightTree, ValidMesh, AABBTreeNode.Represents, CollisionBox, NoLeafLayout, EncodesNoLeaf, IndexableAll, Built;
      TreeShape(tree, m, t);
      hide Complete;
      hide AABBTree.Holds;
      var nbTriangles: int, nbNodes: int := tree.root.mNbPrimitives, tree.mTotalNbNodes;
      if nbNodes != nbTriangles * 2 - 1 {
        return Refused;
      }
      InnerOfComplete(t);
      mNbNodes := nbTriangles - 1;
      var zero := Point(0.0, 0.0, 0.0);
      mNodes := new AABBNoLeafNode[mNbNodes](_ => AABBNoLeafNode(CollisionAABB(zero, zero), 0, 0));
      SmallIndices(m, t);
      RootChildren(tree.root, tree.mIndices[..], t);
      if tree.root.mP == null {
        return NullChild;
      }
      var curID := BuildNoLeafTree(mNodes, 0, 1, tree.root, tree.mIndices, t);
      NoLeafLayoutEncodes(mNodes[..], 0, 1, t);
      return Stored;
    }
  }

  lemma RootChildren(root: AABBTreeNode, ix: seq<nat>, t: Tree)
    requires root.Represents(t, ix) && Complete(t)
    ensures if t.Leaf? then root.mP == null && root.mN == null && Inner(t) == 0 else root.mP != null && Inner(t) > 0
  {}
}
