/** The extent walk is the flattening of the tree that the nodes store. */
module ExtentTree {
  import opened Bytes
  import opened Device
  import opened Super
  import opened Inode
  import opened Extent
  import Arithmetic

  datatype LeafExtent = LeafExtent(logical: nat, start: nat, length: nat)

  datatype Tree = Leaf(extents: seq<LeafExtent>) | Index(children: seq<Tree>)

  /** The extents at the leaves, from left to right. */
  function Leaves(t: Tree): seq<LeafExtent>
    decreases t, 0
  {
    match t
    case Leaf(extents) => extents
    case Index(children) => LeavesOf(children)
  }

  function LeavesOf(ts: seq<Tree>): seq<LeafExtent>
    decreases ts, 1
  {
    if ts == [] then [] else Leaves(ts[0]) + LeavesOf(ts[1..])
  }

  /** Every block of every extent, in order. */
  function Expand(extents: seq<LeafExtent>): seq<Mapping> {
    if extents == [] then []
    else Run(extents[0].logical, extents[0].start, extents[0].length) + Expand(extents[1..])
  }

  lemma {:induction false} ExpandAppend(a: seq<LeafExtent>, b: seq<LeafExtent>)
    ensures Expand(a + b) == Expand(a) + Expand(b)
    decreases a
  {
    if a == [] {
      assert a + b == b;
    } else {
      assert (a + b)[1..] == a[1..] + b && (a + b)[0] == a[0];
      ExpandAppend(a[1..], b);
    }
  }

  lemma ExpandNothing()
    ensures Expand([]) == []
  {
  }

  ghost predicate StoredExtent(fs: Fs, node: seq<byte>, i: nat, e: LeafExtent) {
    && EntryInside(node, i) && e.length > 0 && e.start + e.length <= fs.blocksCount
    && e == LeafExtent(LeafLogical(node, i), LeafStart(node, i), LeafLength(node, i))
  }

  /** Entry `i` of the node points at a readable block that stores tree `t`, of height `depth`. */
  ghost predicate StoredChild(fs: Fs, node: seq<byte>, i: nat, depth: nat, t: Tree)
    requires Geometry(fs)
    decreases t, 1
  {
    && EntryInside(node, i) && BlockIndexValid(fs, ChildBlock(node, i))
    && ReadBlock(fs.dev, fs.blockSize, ChildBlock(node, i)).Some?
    && Stored(fs, ReadBlock(fs.dev, fs.blockSize, ChildBlock(node, i)).value, depth, t)
  }

  /** The node stores tree `t`, of height `depth`, with every extent and every child block in range. */
  ghost predicate Stored(fs: Fs, node: seq<byte>, depth: nat, t: Tree)
    requires Geometry(fs) && |node| >= 12
    decreases t, 0
  {
    && Le16(node, 0) == 0xF30A && Le16(node, 2) <= Le16(node, 4) && Le16(node, 6) == depth && Le16(node, 2) <= 340
    && match t
       case Leaf(extents) =>
         && depth == 0 && |extents| == Le16(node, 2)
         && forall i | 0 <= i < |extents| :: StoredExtent(fs, node, i, extents[i])
       case Index(children) =>
         && depth > 0 && |children| == Le16(node, 2)
         && forall i | 0 <= i < |children| :: StoredChild(fs, node, i, depth - 1, children[i])
  }

  lemma {:induction false} StoredLeafWalk(fs: Fs, node: seq<byte>, extents: seq<LeafExtent>, i: nat)
    requires |node| >= 12 && |extents| == Entries(node) && i <= |extents|
    requires forall j | 0 <= j < |extents| :: StoredExtent(fs, node, j, extents[j])
    ensures WalkLeaf(fs, node, i) == Walk(Expand(extents[i..]), Finished)
    decreases |extents| - i
  {
    hide Run, LeafStart, LeafLength, LeafLogical;
    if i < |extents| {
      StoredLeafWalk(fs, node, extents, i + 1);
      assert StoredExtent(fs, node, i, extents[i]);
      assert extents[i..][0] == extents[i] && extents[i..][1..] == extents[i + 1..];
    }
  }

  lemma {:induction false} StoredIndexWalk(fs: Fs, node: seq<byte>, depth: nat, children: seq<Tree>, i: nat)
    requires Geometry(fs) && |node| >= 12 && depth > 0
    requires |children| == Entries(node) && i <= |children|
    requires forall j | 0 <= j < |children| :: StoredChild(fs, node, j, depth - 1, children[j])
    ensures WalkIndex(fs, node, depth, i) == Walk(Expand(LeavesOf(children[i..])), Finished)
    decreases depth, 0, |children| - i
  {
    hide ChildBlock, Expand, Leaves, StoredChild;
    if i < |children| {
      StoredIndexWalk(fs, node, depth, children, i + 1);
      StoredChildWalk(fs, node, i, depth - 1, children[i]);
      assert children[i..][0] == children[i] && children[i..][1..] == children[i + 1..];
      ExpandAppend(Leaves(children[i]), LeavesOf(children[i + 1..]));
    } else {
      ExpandNothing();
    }
  }

  lemma {:induction false} StoredChildWalk(fs: Fs, node: seq<byte>, i: nat, depth: nat, t: Tree)
    requires Geometry(fs) && StoredChild(fs, node, i, depth, t)
    ensures EntryInside(node, i) && WalkChild(fs, ChildBlock(node, i), depth) == Walk(Expand(Leaves(t)), Finished)
    decreases depth, 2, 0
  {
    StoredWalk(fs, ReadBlock(fs.dev, fs.blockSize, ChildBlock(node, i)).value, depth, t);
  }

  /** Walking a stored tree visits exactly the blocks of its leaves, from left to right. */
  lemma {:induction false} StoredWalk(fs: Fs, node: seq<byte>, depth: nat, t: Tree)
    requires Geometry(fs) && |node| >= 12 && Stored(fs, node, depth, t)
    ensures WalkNode(fs, node, depth) == Walk(Expand(Leaves(t)), Finished)
    decreases depth, 1, 0
  {
    match t
    case Leaf(extents) =>
      StoredLeafWalk(fs, node, extents, 0);
      assert extents[0..] == extents;
    case Index(children) =>
      StoredIndexWalk(fs, node, depth, children, 0);
      assert children[0..] == children;
  }

  /** A successful walk of the entries from `i` on finds the extents they store. */
  lemma {:induction false} WalkedLeaf(fs: Fs, node: seq<byte>, i: nat) returns (extents: seq<LeafExtent>)
    requires |node| >= 12 && i <= Entries(node) && WalkLeaf(fs, node, i).end == Finished
    ensures |extents| == Entries(node) - i
    ensures forall j | 0 <= j < |extents| :: StoredExtent(fs, node, i + j, extents[j])
    decreases Entries(node) - i
  {
    if i == Entries(node) {
      return [];
    }
    var rest := WalkedLeaf(fs, node, i + 1);
    extents := [LeafExtent(LeafLogical(node, i), LeafStart(node, i), LeafLength(node, i))] + rest;
    forall j | 0 <= j < |extents|
      ensures StoredExtent(fs, node, i + j, extents[j])
    {
      if j > 0 {
        assert StoredExtent(fs, node, i + 1 + (j - 1), rest[j - 1]);
      }
    }
  }

  lemma {:induction false} WalkedIndex(fs: Fs, node: seq<byte>, depth: nat, i: nat) returns (children: seq<Tree>)
    requires Geometry(fs) && |node| >= 12 && depth > 0
    requires i <= Entries(node) && WalkIndex(fs, node, depth, i).end == Finished
    ensures |children| == Entries(node) - i
    ensures forall j | 0 <= j < |children| :: StoredChild(fs, node, i + j, depth - 1, children[j])
    decreases depth, 0, Entries(node) - i
  {
    hide ChildBlock, StoredChild, WalkChild;
    if i == Entries(node) {
      return [];
    }
    var first := WalkedChild(fs, node, i, depth - 1);
    var rest := WalkedIndex(fs, node, depth, i + 1);
    children := [first] + rest;
    forall j | 0 <= j < |children|
      ensures StoredChild(fs, node, i + j, depth - 1, children[j])
    {
      if j > 0 {
        assert StoredChild(fs, node, i + 1 + (j - 1), depth - 1, rest[j - 1]);
      }
    }
  }

  lemma {:induction false} WalkedChild(fs: Fs, node: seq<byte>, i: nat, depth: nat) returns (t: Tree)
    requires Geometry(fs) && EntryInside(node, i) && WalkChild(fs, ChildBlock(node, i), depth).end == Finished
    ensures StoredChild(fs, node, i, depth, t)
    decreases depth, 2, 0
  {
    t := WalkedNode(fs, ReadBlock(fs.dev, fs.blockSize, ChildBlock(node, i)).value, depth);
  }

  lemma {:induction false} WalkedNode(fs: Fs, node: seq<byte>, depth: nat) returns (t: Tree)
    requires Geometry(fs) && |node| >= 12 && WalkNode(fs, node, depth).end == Finished
    ensures Stored(fs, node, depth, t)
    decreases depth, 1, 0
  {
    hide StoredExtent, StoredChild;
    if depth == 0 {
      var extents := WalkedLeaf(fs, node, 0);
      forall i | 0 <= i < |extents|
        ensures StoredExtent(fs, node, i, extents[i])
      {
        assert StoredExtent(fs, node, 0 + i, extents[i]);
      }
      t := Leaf(extents);
    } else {
      var children := WalkedIndex(fs, node, depth, 0);
      forall i | 0 <= i < |children|
        ensures StoredChild(fs, node, i, depth - 1, children[i])
      {
        assert StoredChild(fs, node, 0 + i, depth - 1, children[i]);
      }
      t := Index(children);
    }
  }

  /**
   * On every image, a walk succeeds exactly when the node stores a tree, each of whose entries lies
   * inside its node, and it then visits the left-to-right expansion of that tree's extents.
   */
  lemma WalkFlattens(fs: Fs, node: seq<byte>, depth: nat)
    requires Geometry(fs) && |node| >= 12
    ensures WalkNode(fs, node, depth).end == Finished <==> exists t :: Stored(fs, node, depth, t)
    ensures forall t | Stored(fs, node, depth, t) :: WalkNode(fs, node, depth).blocks == Expand(Leaves(t))
  {
    hide WalkNode, HeaderAccepted;
    if WalkNode(fs, node, depth).end == Finished {
      var t := WalkedNode(fs, node, depth);
      assert Stored(fs, node, depth, t);
    }
    forall t | Stored(fs, node, depth, t)
      ensures WalkNode(fs, node, depth).end == Finished && WalkNode(fs, node, depth).blocks == Expand(Leaves(t))
    {
      StoredWalk(fs, node, depth, t);
    }
  }

  // Whether it succeeds or not, a walk only visits blocks of the filesystem.

  ghost predicate InRange(fs: Fs, blocks: seq<Mapping>) {
    forall i | 0 <= i < |blocks| :: blocks[i].physical < fs.blocksCount && blocks[i].logical < U32 + 0x8000
  }

  lemma {:induction false} LeafInRange(fs: Fs, node: seq<byte>, i: nat)
    requires |node| >= 12
    ensures InRange(fs, WalkLeaf(fs, node, i).blocks)
    decreases Entries(node) - i
  {
    if i < Entries(node) && EntryInside(node, i) && LeafValid(fs, node, i) {
      LeafInRange(fs, node, i + 1);
    }
  }

  lemma {:induction false} IndexInRange(fs: Fs, node: seq<byte>, depth: nat, i: nat)
    requires Geometry(fs) && |node| >= 12 && depth > 0
    ensures InRange(fs, WalkIndex(fs, node, depth, i).blocks)
    decreases depth, 0, Entries(node) - i
  {
    hide ChildBlock, WalkChild;
    if i < Entries(node) && EntryInside(node, i) {
      ChildInRange(fs, ChildBlock(node, i), depth - 1);
      IndexInRange(fs, node, depth, i + 1);
    }
  }

  lemma {:induction false} ChildInRange(fs: Fs, index: nat, depth: nat)
    requires Geometry(fs)
    ensures InRange(fs, WalkChild(fs, index, depth).blocks)
    decreases depth, 2, 0
  {
    if BlockIndexValid(fs, index) && ReadBlock(fs.dev, fs.blockSize, index).Some? {
      WalkInRange(fs, ReadBlock(fs.dev, fs.blockSize, index).value, depth);
    }
  }

  /** Every block a walk hands to its callback exists. */
  lemma {:induction false} WalkInRange(fs: Fs, node: seq<byte>, depth: nat)
    requires Geometry(fs) && |node| >= 12
    ensures InRange(fs, WalkNode(fs, node, depth).blocks)
    decreases depth, 1, 0
  {
    if HeaderAccepted(node, depth) {
      if depth == 0 {
        LeafInRange(fs, node, 0);
      } else {
        IndexInRange(fs, node, depth, 0);
      }
    }
  }

  lemma {:induction false} DirectInRange(fs: Fs, block: seq<nat>, i: nat)
    requires |block| == N_BLOCKS && i <= 12
    requires forall j | 0 <= j < N_BLOCKS :: block[j] == 0 || BlockIndexValid(fs, block[j])
    ensures InRange(fs, DirectBlocks(block, i))
    decreases 12 - i
  {
    if i < 12 {
      DirectInRange(fs, block, i + 1);
    }
  }

  /**
   * Every block that listing a directory looks at exists, and the byte offset of its logical
   * position does not wrap around.
   */
  lemma DirectoryBlocksInRange(fs: Fs, number: nat)
    requires Geometry(fs) && ReadInode(fs, number).Some? && ReadInode(fs, number).value.kind == Directory
    ensures var blocks := WalkInode(fs, ReadInode(fs, number).value).blocks;
            && InRange(fs, blocks)
            && forall i | 0 <= i < |blocks| ::
                 Wrap64(blocks[i].logical * fs.blockSize) == blocks[i].logical * fs.blockSize
  {
    hide WalkNode;
    var inode := ReadInode(fs, number).value;
    var blocks := WalkInode(fs, inode).blocks;
    if UsesExtents(inode) {
      var root := RootBytes(inode.block);
      WalkInRange(fs, root, Le16(root, 6));
    } else {
      PointersValid(fs, number);
      DirectInRange(fs, inode.block, 0);
    }
    hide InRange;
    forall i | 0 <= i < |blocks|
      ensures Wrap64(blocks[i].logical * fs.blockSize) == blocks[i].logical * fs.blockSize
    {
      MappingInRange(fs, blocks, i);
      NoWrap(blocks[i].logical, fs.blockSize);
    }
  }

  lemma MappingInRange(fs: Fs, blocks: seq<Mapping>, i: nat)
    requires InRange(fs, blocks) && i < |blocks|
    ensures blocks[i].logical < U32 + 0x8000
  {
  }

  lemma NoWrap(logical: nat, blockSize: nat)
    requires logical < U32 + 0x8000 && blockSize <= 65536
    ensures Wrap64(logical * blockSize) == logical * blockSize
  {
    Arithmetic.MulMonotone(logical, U32 + 0x8000, blockSize);
    assert logical * blockSize <= (U32 + 0x8000) * 65536;
  }

  lemma PointersValid(fs: Fs, number: nat)
    requires Geometry(fs) && ReadInode(fs, number).Some?
    requires var inode := ReadInode(fs, number).value; inode.kind != Symlink && !UsesExtents(inode)
    ensures forall j | 0 <= j < N_BLOCKS ::
              var b := ReadInode(fs, number).value.block[j]; b == 0 || BlockIndexValid(fs, b)
  {
  }
}
