/** OPCODE_Model::Save and Load for no-leaf trees (OPC_Model.cpp): child pointers are made
    relative to the first node on the way out and absolute again at the new address. */
module ModelStream {
  import opened Geometry
  import opened OptimizedTrees
  import opened Trees

  const NODE_SIZE: nat := 40
  const ADDRESSES: nat := 0x1_0000_0000_0000_0000

  /** A child word as stored in memory when the node array starts at `base`: leaves are
      tagged primitives, nodes are addresses. */
  function Place(base: nat, word: nat): nat {
    if Tagged(word) then word else (base + NODE_SIZE * WordNode(word)) % ADDRESSES
  }

  function PlaceNode(base: nat, n: AABBNoLeafNode): AABBNoLeafNode {
    n.(mData := Place(base, n.mData), mData2 := Place(base, n.mData2))
  }

  /** The memory image at `base` of an array of nodes. */
  function Image(base: nat, nodes: seq<AABBNoLeafNode>): seq<AABBNoLeafNode> {
    seq(|nodes|, i requires 0 <= i < |nodes| => PlaceNode(base, nodes[i]))
  }

  predicate WordInRange(word: nat, n: nat) {
    !Tagged(word) ==> WordNode(word) < n
  }

  /** Every child pointer stays inside the array. */
  predicate InRange(nodes: seq<AABBNoLeafNode>) {
    forall i :: 0 <= i < |nodes| ==> WordInRange(nodes[i].mData, |nodes|) && WordInRange(nodes[i].mData2, |nodes|)
  }

  /** An allocation of `n` nodes: aligned, and within the address space. */
  predicate Allocated(base: nat, n: nat) {
    base % 2 == 0 && base + NODE_SIZE * n <= ADDRESSES
  }

  /** mData -= rootPtr, in the word size of a pointer. */
  function Subtract(word: nat, base: nat): nat {
    if Tagged(word) then word else (word - base) % ADDRESSES
  }

  /** mData += rootPtr. */
  function AddBase(word: nat, base: nat): nat {
    if Tagged(word) then word else (word + base) % ADDRESSES
  }

  lemma SmallRemainder(x: nat, m: nat)
    requires x < m
    ensures x % m == x
  {}

  /** Pointers keep a clear tag bit and point at the node they are meant to. */
  lemma PlacedPointer(base: nat, word: nat, n: nat)
    requires Allocated(base, n) && WordInRange(word, n)
    ensures Tagged(Place(base, word)) <==> Tagged(word)
    ensures !Tagged(word) ==> Place(base, word) == base + NODE_SIZE * WordNode(word)
  {
    if !Tagged(word) { SmallRemainder(base + NODE_SIZE * WordNode(word), ADDRESSES); }
  }

  lemma RelocationSteps(base: nat, base': nat, word: nat, n: nat)
    requires Allocated(base, n) && Allocated(base', n) && WordInRange(word, n)
    ensures Subtract(Place(base, word), base) == Place(0, word)
    ensures AddBase(Place(0, word), base') == Place(base', word)
  {
    assert Allocated(0, n);
    PlacedPointer(base, word, n);
    PlacedPointer(base', word, n);
    PlacedPointer(0, word, n);
    hide Tagged;
    if !Tagged(word) {
      SmallRemainder(NODE_SIZE * WordNode(word), ADDRESSES);
      SmallRemainder(base' + NODE_SIZE * WordNode(word), ADDRESSES);
    }
  }

  /** Reading a memory image back as node indices. */
  function Unplace(base: nat, word: nat): nat {
    if Tagged(word) || word < base then word else NodeWord((word - base) / NODE_SIZE)
  }

  function Decode(base: nat, memory: seq<AABBNoLeafNode>): seq<AABBNoLeafNode> {
    seq(|memory|, i requires 0 <= i < |memory| =>
      memory[i].(mData := Unplace(base, memory[i].mData), mData2 := Unplace(base, memory[i].mData2)))
  }

  lemma UnplacePlace(base: nat, word: nat, n: nat)
    requires Allocated(base, n) && WordInRange(word, n)
    ensures Unplace(base, Place(base, word)) == word
  {
    PlacedPointer(base, word, n);
    if !Tagged(word) {
      assert word == NodeWord(WordNode(word));
    }
  }

  /** An image decodes to the nodes it was made from, wherever it was placed. */
  lemma DecodeImage(base: nat, nodes: seq<AABBNoLeafNode>)
    requires Allocated(base, |nodes|) && InRange(nodes)
    ensures Decode(base, Image(base, nodes)) == nodes
  {
    hide Unplace, Place, Allocated, WordInRange;
    forall i | 0 <= i < |nodes| ensures Decode(base, Image(base, nodes))[i] == nodes[i] {
      UnplacePlace(base, nodes[i].mData, |nodes|);
      UnplacePlace(base, nodes[i].mData2, |nodes|);
    }
  }

  /** Built arrays are in range: the layout only points at its own slots. */
  lemma {:induction false} LayoutInRange(nodes: seq<AABBNoLeafNode>, id: nat, lo: nat, t: Tree, k: nat)
    requires NoLeafLayout(nodes, id, lo, t) && (k == id || lo <= k < lo + Inner(t) - 1)
    ensures k < |nodes| && WordInRange(nodes[k].mData, |nodes|) && WordInRange(nodes[k].mData2, |nodes|)
    decreases t
  {
    var mid := lo + Inner(t.pos);
    assert t.pos.Node? ==> NoLeafLayout(nodes, lo, lo + 1, t.pos);
    assert t.neg.Node? ==> NoLeafLayout(nodes, mid, mid + 1, t.neg);
    if k != id {
      if k < mid {
        LayoutInRange(nodes, lo, lo + 1, t.pos, k);
      } else {
        LayoutInRange(nodes, mid, mid + 1, t.neg, k);
      }
    }
  }

  lemma BuiltInRange(nodes: seq<AABBNoLeafNode>, t: Tree)
    requires NoLeafLayout(nodes, 0, 1, t) && |nodes| == Inner(t)
    ensures InRange(nodes)
  {
    forall k | 0 <= k < |nodes|
      ensures WordInRange(nodes[k].mData, |nodes|) && WordInRange(nodes[k].mData2, |nodes|)
    {
      LayoutInRange(nodes, 0, 1, t, k);
    }
  }

  /** A stream being read: three 32-bit header words, how many bytes are left after them, the
      word that comes next, and what memory holds, node by node, from where the node block
      starts. Only the bytes left belong to the stream; memory goes on behind them. */
  datatype Stream = Stream(words: seq<nat>, elapsed: nat, crc: nat, slot: nat -> AABBNoLeafNode)

  const WORD_SIZE: nat := 4

  /** The first n nodes read from the block. */
  function Block(stream: Stream, n: nat): (nodes: seq<AABBNoLeafNode>)
    ensures |nodes| == n
  {
    seq(n, i requires 0 <= i < n => stream.slot(i))
  }

  /** A supported kind, enough bytes by the source's count, and a matching checksum. */
  predicate Accepted(stream: Stream, crc32: seq<AABBNoLeafNode> -> nat, skipCrc32Check: bool, readCrc32: bool)
    requires |stream.words| == 3
  {
    && stream.words[0] != 0 && stream.words[1] == 0 && NODE_SIZE * stream.words[2] <= stream.elapsed
    && (readCrc32 && !skipCrc32Check ==> stream.crc == crc32(Block(stream, stream.words[2])))
  }

  /** The checksum word and all the nodes lie inside the stream. */
  predicate Whole(stream: Stream, readCrc32: bool)
    requires |stream.words| == 3
  {
    (if readCrc32 then WORD_SIZE else 0) + NODE_SIZE * stream.words[2] <= stream.elapsed
  }

  /** One node announced and 40 bytes left, four of them the checksum: accepted unchecked,
      with the last four bytes of the node taken from behind the stream. */
  lemma ShortStreamAccepted(crc: nat, slot: nat -> AABBNoLeafNode, crc32: seq<AABBNoLeafNode> -> nat)
    ensures var stream := Stream([1, 0, 1], NODE_SIZE, crc, slot);
      Accepted(stream, crc32, true, true) && !Whole(stream, true) && Block(stream, 1) == [slot(0)]
  {}

  /** No accepted stream is accepted with another checksum word, when checksums are checked. */
  lemma ChangedWordRefused(stream: Stream, crc: nat, crc32: seq<AABBNoLeafNode> -> nat)
    requires |stream.words| == 3 && Accepted(stream, crc32, false, true) && crc != stream.crc
    ensures !Accepted(stream.(crc := crc), crc32, false, true)
  {
    assert Block(stream.(crc := crc), stream.words[2]) == Block(stream, stream.words[2]);
  }

  function Relocated(nodes: seq<AABBNoLeafNode>, base: nat): seq<AABBNoLeafNode> {
    seq(|nodes|, i requires 0 <= i < |nodes| => RelocatedNode(nodes[i], base))
  }

  function RelocatedNode(n: AABBNoLeafNode, base: nat): AABBNoLeafNode {
    n.(mData := AddBase(n.mData, base), mData2 := AddBase(n.mData2, base))
  }

  /** A stream holding the given words and nodes, and nothing behind them. */
  function Written(words: seq<nat>, crc: nat, nodes: seq<AABBNoLeafNode>): (stream: Stream)
    ensures Block(stream, |nodes|) == nodes
  {
    Stream(words, WORD_SIZE + NODE_SIZE * |nodes|, crc, (i: nat) => if i < |nodes| then nodes[i] else EMPTY_NODE)
  }

  const EMPTY_NODE := AABBNoLeafNode(CollisionAABB(Point(0.0, 0.0, 0.0), Point(0.0, 0.0, 0.0)), 0, 0)

  function Flag(b: bool): nat { if b then 1 else 0 }

  class ModelImage {
    var mNoLeaf: bool
    var mQuantized: bool
    var mNodes: array<AABBNoLeafNode>
    var mBase: nat
    const crc32: seq<AABBNoLeafNode> -> nat

    constructor (crc32: seq<AABBNoLeafNode> -> nat)
      ensures this.crc32 == crc32 && fresh(mNodes)
    {
      this.crc32, mNoLeaf, mQuantized, mBase := crc32, false, false, 0;
      mNodes := new AABBNoLeafNode[0];
    }

    /** The model owns a no-leaf tree placed at mBase. */
    ghost predicate Owns(nodes: seq<AABBNoLeafNode>)
      reads this, mNodes
    {
      && mNoLeaf && !mQuantized && Allocated(mBase, |nodes|) && InRange(nodes) && |nodes| < WORD
      && mNodes[..] == Image(mBase, nodes)
    }

    /** Only no-leaf, unquantized trees are supported. Works on a copy: the model's own nodes
        keep their addresses, the stream gets position-independent ones. */
    method Save(ghost nodes: seq<AABBNoLeafNode>) returns (stream: Stream)
      requires Owns(nodes)
      ensures stream.words == [1, 0, |nodes|] && stream.elapsed == 4 + 40 * |nodes|
      ensures stream.crc == crc32(Image(0, nodes)) && Block(stream, |nodes|) == Image(0, nodes)
    {
      var nodesNum := mNodes.Length;
      var source := mNodes;
      var ptr := new AABBNoLeafNode[nodesNum](i requires 0 <= i < source.Length reads source => source[i]);
      assert ptr[..] == mNodes[..] == Image(mBase, nodes);
      hide Image, Subtract, Place, Allocated, WordInRange;
      for i := 0 to nodesNum
        invariant forall k :: 0 <= k < i ==> ptr[k] == Image(0, nodes)[k]
        invariant forall k :: i <= k < nodesNum ==> ptr[k] == Image(mBase, nodes)[k]
      {
        ImageAt(mBase, nodes, i);
        ImageAt(0, nodes, i);
        RelocationSteps(mBase, mBase, nodes[i].mData, |nodes|);
        RelocationSteps(mBase, mBase, nodes[i].mData2, |nodes|);
        ptr[i] := ptr[i].(mData := Subtract(ptr[i].mData, mBase));
        ptr[i] := ptr[i].(mData2 := Subtract(ptr[i].mData2, mBase));
      }
      assert ptr[..] == Image(0, nodes);
      var crc := crc32(ptr[..]);
      stream := Written([Flag(mNoLeaf), Flag(mQuantized), nodesNum], crc, ptr[..]);
    }

    /** Loads at address `base`, where the allocator puts the new nodes. Every refusal of the
        source: an unsupported kind, too few bytes, a wrong checksum. The bytes are counted
        before the checksum is read, so a stream whose node block is short by one to four bytes
        is accepted all the same, provided the bytes found behind the end have the right
        checksum or it is not checked. A refusal keeps the nodes, and has changed the kind. */
    method Load(stream: Stream, base: nat, skipCrc32Check: bool, readCrc32: bool) returns (ok: bool)
      requires |stream.words| == 3
      modifies this
      ensures ok <==> (
        && stream.words[0] != 0 && stream.words[1] == 0 && 40 * stream.words[2] <= stream.elapsed
        && (readCrc32 && !skipCrc32Check ==> stream.crc == crc32(Block(stream, stream.words[2]))))
      ensures ok <==> Accepted(stream, crc32, skipCrc32Check, readCrc32)
      ensures ok ==> (Whole(stream, readCrc32) <==> (readCrc32 ==> 40 * stream.words[2] + 4 <= stream.elapsed))
      ensures mNoLeaf == (stream.words[0] != 0) && mQuantized == (stream.words[1] != 0)
      ensures !ok ==> mNodes == old(mNodes) && mBase == old(mBase)
      ensures ok ==> mBase == base && fresh(mNodes)
      ensures ok ==> mNodes[..] == Relocated(Block(stream, stream.words[2]), base)
    {
      mNoLeaf, mQuantized := stream.words[0] != 0, stream.words[1] != 0;
      var nodesNum := stream.words[2];
      if !mNoLeaf || mQuantized { return false; }
      var size := nodesNum * NODE_SIZE;
      if size > stream.elapsed { return false; }
      if readCrc32 {
        var crc := stream.crc;
        var actualCrc := if skipCrc32Check then crc else crc32(Block(stream, nodesNum));
        if crc != actualCrc { return false; }
      }
      var ptr := new AABBNoLeafNode[nodesNum](i requires 0 <= i => stream.slot(i));
      hide AddBase;
      for i := 0 to nodesNum
        modifies ptr
        invariant forall k :: 0 <= k < i ==> ptr[k] == RelocatedNode(stream.slot(k), base)
        invariant forall k :: i <= k < nodesNum ==> ptr[k] == stream.slot(k)
      {
        ptr[i] := ptr[i].(mData := AddBase(ptr[i].mData, base));
        ptr[i] := ptr[i].(mData2 := AddBase(ptr[i].mData2, base));
      }
      assert ptr[..] == Relocated(Block(stream, nodesNum), base);
      mNodes, mBase := ptr, base;
      return true;
    }
  }

  lemma ImageAt(base: nat, nodes: seq<AABBNoLeafNode>, i: nat)
    requires i < |nodes|
    ensures |Image(base, nodes)| == |nodes| && Image(base, nodes)[i] == PlaceNode(base, nodes[i])
  {}

  /** Relocating a saved stream gives the image at the new address. */
  lemma LoadedImage(nodes: seq<AABBNoLeafNode>, base: nat)
    requires Allocated(base, |nodes|) && InRange(nodes)
    ensures Relocated(Image(0, nodes), base) == Image(base, nodes)
  {
    hide AddBase, Place, Allocated, WordInRange;
    forall i | 0 <= i < |nodes| ensures Relocated(Image(0, nodes), base)[i] == Image(base, nodes)[i] {
      RelocationSteps(base, base, nodes[i].mData, |nodes|);
      RelocationSteps(base, base, nodes[i].mData2, |nodes|);
    }
  }

  /** Save, then Load into another model at any address: the checks pass and the loaded array
      decodes to the same nodes, hence to the same tree. */
  method SaveThenLoad(source: ModelImage, target: ModelImage, base: nat, ghost nodes: seq<AABBNoLeafNode>, ghost t: Tree)
    returns (ok: bool)
    requires source.Owns(nodes) && EncodesNoLeaf(nodes, 0, t) && source.crc32 == target.crc32 && source != target
    requires Allocated(base, |nodes|)
    modifies target
    ensures ok && target.Owns(nodes) && target.mBase == base
    ensures Decode(base, target.mNodes[..]) == nodes && EncodesNoLeaf(Decode(base, target.mNodes[..]), 0, t)
  {
    hide Image, Relocated, Decode, EncodesNoLeaf, InRange, Allocated;
    var stream := source.Save(nodes);
    assert |Image(0, nodes)| == |nodes| by { ImageLength(0, nodes); }
    ok := target.Load(stream, base, false, true);
    LoadedImage(nodes, base);
    DecodeImage(base, nodes);
  }

  /** A saved stream whose checksum word was changed is loaded if and only if the check is
      skipped. */
  method ChangeThenLoad(source: ModelImage, target: ModelImage, base: nat, crc: nat, skipCrc32Check: bool, ghost nodes: seq<AABBNoLeafNode>)
    returns (ok: bool)
    requires source.Owns(nodes) && source.crc32 == target.crc32 && source != target
    modifies target
    ensures ok <==> skipCrc32Check || crc == source.crc32(Image(0, nodes))
  {
    hide Image;
    var saved := source.Save(nodes);
    assert |Image(0, nodes)| == |nodes| by { ImageLength(0, nodes); }
    var stream := saved.(crc := crc);
    assert Block(stream, |nodes|) == Block(saved, |nodes|);
    ok := target.Load(stream, base, skipCrc32Check, true);
  }

  lemma ImageLength(base: nat, nodes: seq<AABBNoLeafNode>)
    ensures |Image(base, nodes)| == |nodes|
  {}
}
