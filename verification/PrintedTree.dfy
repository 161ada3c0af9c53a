/** Extent trees written out byte by byte are walked as the trees they were written from. */
module PrintedTree {
  import opened Bytes
  import opened Arithmetic
  import opened Device
  import opened Super
  import opened Inode
  import opened Extent
  import opened ExtentTree

  /** The twelve bytes of a node's header. */
  ghost predicate Header(node: seq<byte>, entries: nat, depth: nat) {
    && |node| >= 12 && node[0] == 0x0A && node[1] == 0xF3
    && entries < U16 && node[2..4] == Put16(entries)
    && depth < U16 && node[6..8] == Put16(depth)
    && entries <= Le16(node, 4)
  }

  /** Entry `i` of a leaf: logical block, length, and the start in its upper 16 and lower 32 bits. */
  ghost predicate LeafEntry(node: seq<byte>, i: nat, e: LeafExtent) {
    var o := 12 + 12 * i;
    && o + 12 <= |node| && e.logical < U32 && e.length < 0x8000 && e.start < U32 * U16
    && node[o..o + 4] == Put32(e.logical) && node[o + 4..o + 6] == Put16(e.length)
    && node[o + 6..o + 8] == Put16(e.start / U32) && node[o + 8..o + 12] == Put32(e.start % U32)
  }

  /** Entry `i` of an index node: the child block in its lower 32 and upper 16 bits. */
  ghost predicate IndexEntry(node: seq<byte>, i: nat, child: nat) {
    var o := 12 + 12 * i;
    && o + 12 <= |node| && child < U32 * U16
    && node[o + 4..o + 8] == Put32(child % U32) && node[o + 8 + 2..o + 12] == Put16(child / U32)
  }

  lemma HeaderReads(node: seq<byte>, entries: nat, depth: nat)
    requires Header(node, entries, depth)
    ensures Le16(node, 0) == 0xF30A && Le16(node, 2) == entries && Le16(node, 6) == depth
  {
    Le16Put(node, 2, entries);
    Le16Put(node, 6, depth);
  }

  lemma LeafEntryReads(node: seq<byte>, i: nat, e: LeafExtent)
    requires LeafEntry(node, i, e)
    ensures EntryInside(node, i)
    ensures LeafLogical(node, i) == e.logical && LeafStart(node, i) == e.start && LeafLength(node, i) == e.length
  {
    var o := 12 + 12 * i;
    assert e.start / U32 < U16 && e.start / U32 * U32 + e.start % U32 == e.start;
    Le32Put(node, o, e.logical);
    Le16Put(node, o + 4, e.length);
    Le16Put(node, o + 6, e.start / U32);
    Le32Put(node, o + 8, e.start % U32);
  }

  lemma IndexEntryReads(node: seq<byte>, i: nat, child: nat)
    requires IndexEntry(node, i, child)
    ensures EntryInside(node, i) && ChildBlock(node, i) == child
  {
    var o := 12 + 12 * i;
    assert child / U32 < U16 && child / U32 * U32 + child % U32 == child;
    Le32Put(node, o + 4, child % U32);
    Le16Put(node, o + 10, child / U32);
  }

  /** The block `child` can be read and holds tree `t`. */
  ghost predicate ChildHolds(fs: Fs, child: nat, depth: nat, t: Tree)
    requires Geometry(fs)
    decreases t, 1
  {
    && child < fs.blocksCount && ReadBlock(fs.dev, fs.blockSize, child).Some?
    && NodeHolds(fs, ReadBlock(fs.dev, fs.blockSize, child).value, depth, t)
  }

  /** Tree `t`, of height `depth`, was written to the node and to the blocks below it. */
  ghost predicate NodeHolds(fs: Fs, node: seq<byte>, depth: nat, t: Tree)
    requires Geometry(fs)
    decreases t, 0
  {
    match t
    case Leaf(extents) =>
      && depth == 0 && |extents| <= 340 && Header(node, |extents|, 0)
      && forall i | 0 <= i < |extents| ::
           LeafEntry(node, i, extents[i]) && extents[i].length > 0
           && extents[i].start + extents[i].length <= fs.blocksCount
    case Index(children) =>
      && depth > 0 && |children| <= 340 && Header(node, |children|, depth)
      && forall i | 0 <= i < |children| :: EntryHolds(fs, node, i, depth - 1, children[i])
  }

  /** Entry `i` of the node leads to tree `t`. */
  ghost predicate EntryHolds(fs: Fs, node: seq<byte>, i: nat, depth: nat, t: Tree)
    requires Geometry(fs)
    decreases t, 2
  {
    exists child: nat :: IndexEntry(node, i, child) && ChildHolds(fs, child, depth, t)
  }

  lemma {:induction false} HeldIsStored(fs: Fs, node: seq<byte>, depth: nat, t: Tree)
    requires Geometry(fs) && NodeHolds(fs, node, depth, t)
    ensures |node| >= 12 && Stored(fs, node, depth, t)
    decreases t, 0
  {
    hide Le16, Geometry, LeafEntry, IndexEntry;
    match t
    case Leaf(extents) =>
      HeaderReads(node, |extents|, 0);
      forall i | 0 <= i < |extents|
        ensures StoredExtent(fs, node, i, extents[i])
      {
        LeafEntryReads(node, i, extents[i]);
      }
    case Index(children) =>
      HeaderReads(node, |children|, depth);
      forall i | 0 <= i < |children|
        ensures StoredChild(fs, node, i, depth - 1, children[i])
      {
        assert EntryHolds(fs, node, i, depth - 1, children[i]);
        var child: nat :| IndexEntry(node, i, child) && ChildHolds(fs, child, depth - 1, children[i]);
        IndexEntryReads(node, i, child);
        HeldIsStored(fs, ReadBlock(fs.dev, fs.blockSize, child).value, depth - 1, children[i]);
      }
  }

  /** The walk of a written tree visits exactly the blocks of its extents, from left to right. */
  lemma WrittenTreeWalks(fs: Fs, node: seq<byte>, depth: nat, t: Tree)
    requires Geometry(fs) && NodeHolds(fs, node, depth, t)
    ensures |node| >= 12 && WalkNode(fs, node, depth) == Walk(Expand(Leaves(t)), Finished)
  {
    HeldIsStored(fs, node, depth, t);
    StoredWalk(fs, node, depth, t);
  }

  /** Extent `e` maps the logical block of `m` to its physical one. */
  predicate Maps(e: LeafExtent, m: Mapping) {
    e.logical <= m.logical < e.logical + e.length && m.physical == e.start + (m.logical - e.logical)
  }

  lemma RunMaps(e: LeafExtent, m: Mapping)
    ensures m in Run(e.logical, e.start, e.length) <==> Maps(e, m)
  {
    var run := Run(e.logical, e.start, e.length);
    if Maps(e, m) {
      assert run[m.logical - e.logical] == m;
    }
  }

  /** What is visited are exactly the mappings of the extents. */
  lemma {:induction false} ExpandMaps(extents: seq<LeafExtent>, m: Mapping)
    ensures m in Expand(extents) <==> exists e :: e in extents && Maps(e, m)
  {
    hide Run, Maps;
    if extents != [] {
      RunMaps(extents[0], m);
      ExpandMaps(extents[1..], m);
      assert extents == [extents[0]] + extents[1..];
    }
  }

  // Whole inodes.

  /** An inode whose extent root holds a tree of height at most 5 is walked as that tree. */
  lemma InodeTreeWalks(fs: Fs, number: nat, t: Tree)
    requires Geometry(fs) && ReadInode(fs, number).Some? && ReadInode(fs, number).value.flags / 0x8_0000 % 2 == 1
    requires var raw := RawInode(fs, number).value; Le16(raw, 46) <= 5 && NodeHolds(fs, raw[40..100], Le16(raw, 46), t)
    ensures WalkInode(fs, ReadInode(fs, number).value) == Walk(Expand(Leaves(t)), Finished)
  {
    var raw := RawInode(fs, number).value;
    Masks(ReadInode(fs, number).value.flags);
    RootBytesRoundTrip(number, raw);
    RootShort(raw, 6);
    WrittenTreeWalks(fs, raw[40..100], Le16(raw, 46), t);
    hide BitAnd, NodeHolds, WalkNode, RootBytes, DecodeInode, Le16;
  }

  /** Trees of more than 5 levels are refused, and so are directories with indirect blocks. */
  lemma InodeWalkRefused(fs: Fs, number: nat)
    requires Geometry(fs) && ReadInode(fs, number).Some?
    ensures var inode, raw := ReadInode(fs, number).value, RawInode(fs, number).value;
            && (inode.flags / 0x8_0000 % 2 == 1 && Le16(raw, 46) > 5 ==> WalkInode(fs, inode) == Walk([], Rejected))
            && (inode.flags / 0x8_0000 % 2 == 0 ==>
                  (WalkInode(fs, inode).end == Finished <==>
                   inode.block[12] == 0 && inode.block[13] == 0 && inode.block[14] == 0))
  {
    var raw := RawInode(fs, number).value;
    Masks(ReadInode(fs, number).value.flags);
    RootBytesRoundTrip(number, raw);
    RootShort(raw, 6);
    hide BitAnd, WalkNode, RootBytes, DecodeInode, Le16, DirectBlocks;
  }
}
