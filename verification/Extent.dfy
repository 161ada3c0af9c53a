/** ext4_dir.c: walking an inode's data blocks through its extent tree or block map. */
module Extent {
  import opened Bytes
  import opened Device
  import opened Super
  import opened Inode
  import opened Dir

  /** One callback of the walk: a logical block and where it lies. */
  datatype Mapping = Mapping(logical: nat, physical: nat)

  /**
   * How a walk ends: it returns 0, it returns 1, or it reaches an entry that lies past the end of
   * its node, where the C program would read beyond its buffer.
   */
  datatype End = Finished | Rejected | Overrun

  /** The callbacks a walk makes, and how it ends. */
  datatype Walk = Walk(blocks: seq<Mapping>, end: End)

  function Entries(node: seq<byte>): nat
    requires |node| >= 8
  {
    Le16(node, 2)
  }

  /** The header check of `visit_extent_node`, with its constant bound of 340 entries. */
  predicate HeaderAccepted(node: seq<byte>, depth: nat)
    requires |node| >= 8
  {
    && Le16(node, 0) == EXTENT_HEADER_MAGIC
    && Entries(node) <= Le16(node, 4)
    && Le16(node, 6) == depth
    && Entries(node) <= 340
  }

  predicate EntriesFit(node: seq<byte>)
    requires |node| >= 8
  {
    EntryAt(Entries(node)) <= |node|
  }

  predicate NodeFits(node: seq<byte>, depth: nat)
    requires |node| >= 8
  {
    HeaderAccepted(node, depth) ==> EntriesFit(node)
  }

  /** In a node of 4092 bytes or more the header check keeps the entries inside. */
  lemma HeaderCheckSuffices(node: seq<byte>, depth: nat)
    requires |node| >= 4092
    ensures NodeFits(node, depth)
  {
  }

  function Run(logical: nat, start: nat, length: nat): (r: seq<Mapping>)
    ensures |r| == length
  {
    seq(length, j requires 0 <= j < length => Mapping(logical + j, start + j))
  }

  function Then(first: Walk, second: Walk): Walk {
    if first.end == Finished then Walk(first.blocks + second.blocks, second.end) else first
  }

  /** Entry `i` lies within the bytes of the node. */
  predicate EntryInside(node: seq<byte>, i: nat) {
    EntryAt(i + 1) <= |node|
  }

  predicate LeafValid(fs: Fs, node: seq<byte>, i: nat)
    requires EntryInside(node, i)
  {
    LeafLength(node, i) != 0 && BlockRangeValid(fs, LeafStart(node, i), LeafLength(node, i))
  }

  /** `visit_extent_node`. */
  function WalkNode(fs: Fs, node: seq<byte>, depth: nat): Walk
    requires Geometry(fs) && |node| >= 12
    decreases depth, 1, 0
  {
    if !HeaderAccepted(node, depth) then Walk([], Rejected)
    else if depth == 0 then WalkLeaf(fs, node, 0)
    else WalkIndex(fs, node, depth, 0)
  }

  function WalkLeaf(fs: Fs, node: seq<byte>, i: nat): Walk
    requires |node| >= 12
    decreases Entries(node) - i
  {
    if i >= Entries(node) then Walk([], Finished)
    else if !EntryInside(node, i) then Walk([], Overrun)
    else if !LeafValid(fs, node, i) then Walk([], Rejected)
    else
      Then(Walk(Run(LeafLogical(node, i), LeafStart(node, i), LeafLength(node, i)), Finished),
           WalkLeaf(fs, node, i + 1))
  }

  function WalkIndex(fs: Fs, node: seq<byte>, depth: nat, i: nat): Walk
    requires Geometry(fs) && |node| >= 12 && depth > 0
    decreases depth, 0, Entries(node) - i
  {
    if i >= Entries(node) then Walk([], Finished)
    else if !EntryInside(node, i) then Walk([], Overrun)
    else Then(WalkChild(fs, ChildBlock(node, i), depth - 1), WalkIndex(fs, node, depth, i + 1))
  }

  function WalkChild(fs: Fs, index: nat, depth: nat): Walk
    requires Geometry(fs)
    decreases depth, 2, 0
  {
    if !BlockIndexValid(fs, index) then Walk([], Rejected)
    else
      match ReadBlock(fs.dev, fs.blockSize, index)
      case None => Walk([], Rejected)
      case Some(child) => WalkNode(fs, child, depth)
  }

  /** The twelve direct pointers from `i` on, zeros skipped. */
  function DirectBlocks(block: seq<nat>, i: nat): seq<Mapping>
    requires |block| == N_BLOCKS && i <= 12
    decreases 12 - i
  {
    if i == 12 then []
    else (if block[i] != 0 then [Mapping(i, block[i])] else []) + DirectBlocks(block, i + 1)
  }

  /** The block array is as decoding leaves it. */
  ghost predicate Decoded(inode: Inode) {
    |inode.block| == N_BLOCKS && forall i | 0 <= i < N_BLOCKS :: inode.block[i] < U32
  }

  /** `visit_inode_data_blocks`. */
  function WalkInode(fs: Fs, inode: Inode): Walk
    requires Geometry(fs) && Decoded(inode)
  {
    if UsesExtents(inode) then
      var root := RootBytes(inode.block);
      if Le16(root, 6) > 5 then Walk([], Rejected) else WalkNode(fs, root, Le16(root, 6))
    else
      Walk(DirectBlocks(inode.block, 0),
           if inode.block[12] == 0 && inode.block[13] == 0 && inode.block[14] == 0 then Finished else Rejected)
  }

  /** Listing directory `number` reads no extent node past its end. */
  predicate Contained(fs: Fs, number: nat)
    requires Geometry(fs)
  {
    match ReadInode(fs, number)
    case None => true
    case Some(inode) => inode.kind == Directory ==> WalkInode(fs, inode).end != Overrun
  }

  // When a walk stays inside its nodes.

  /**
   * The walk of a leaf runs past its end exactly when the entries do not fit and every entry that
   * does fit is valid, so that none of them stops the walk before.
   */
  lemma {:induction false} LeafOverruns(fs: Fs, node: seq<byte>, i: nat)
    requires |node| >= 12
    ensures WalkLeaf(fs, node, i).end == Overrun <==>
            && i < Entries(node) && !EntriesFit(node)
            && forall j | i <= j < Entries(node) && EntryInside(node, j) :: LeafValid(fs, node, j)
    decreases Entries(node) - i
  {
    hide LeafValid, Run;
    if i < Entries(node) && EntryInside(node, i) {
      LeafOverruns(fs, node, i + 1);
    }
  }

  function FullByte(p: nat): byte {
    if p == 0 then 0x0A else if p == 1 then 0xF3
    else if p == 2 || p == 4 then 0x54 else if p == 3 || p == 5 then 0x01
    else if p >= 12 && p % 12 == 4 then 1 else 0
  }

  /** As much of a leaf node of 340 one-block extents as fits the block, each starting at block 0. */
  function FullLeaf(blockSize: nat): (r: seq<byte>)
    ensures |r| == blockSize
  {
    seq(blockSize, p requires 0 <= p < blockSize => FullByte(p))
  }

  lemma FullHeader(blockSize: nat)
    requires blockSize >= 12
    ensures HeaderAccepted(FullLeaf(blockSize), 0) && Entries(FullLeaf(blockSize)) == 340
  {
  }

  lemma FullEntryBytes(i: nat)
    ensures var o := EntryAt(i);
            && FullByte(o + 4) == 1 && FullByte(o + 5) == FullByte(o + 6) == FullByte(o + 7) == 0
            && FullByte(o + 8) == FullByte(o + 9) == FullByte(o + 10) == FullByte(o + 11) == 0
  {
  }

  lemma FullEntry(fs: Fs, blockSize: nat, i: nat)
    requires EntryInside(FullLeaf(blockSize), i) && fs.blocksCount > 0
    ensures LeafValid(fs, FullLeaf(blockSize), i)
  {
    var node, o := FullLeaf(blockSize), EntryAt(i);
    FullEntryBytes(i);
    hide FullByte;
    assert node[o + 4] == 1 && node[o + 5] == 0 && node[o + 6] == 0 && node[o + 7] == 0;
    assert node[o + 8] == 0 && node[o + 9] == 0 && node[o + 10] == 0 && node[o + 11] == 0;
  }

  /** In a block too small for 340 entries the walk of the full leaf leaves the block. */
  lemma FullLeafOverruns(fs: Fs)
    requires Geometry(fs) && fs.blockSize < 4092
    ensures WalkNode(fs, FullLeaf(fs.blockSize), 0).end == Overrun
  {
    hide HeaderAccepted, LeafValid, WalkLeaf, FullLeaf;
    var node := FullLeaf(fs.blockSize);
    FullHeader(fs.blockSize);
    forall j | 0 <= j < Entries(node) && EntryInside(node, j)
      ensures LeafValid(fs, node, j)
    {
      FullEntry(fs, fs.blockSize, j);
    }
    LeafOverruns(fs, node, 0);
  }

  /**
   * The constant 340 is what fits a block of 4096 bytes: with blocks of that size or more no walk
   * ever leaves its node, and with smaller ones some walk does.
   */
  lemma ConstantSuffices(fs: Fs)
    requires Geometry(fs)
    ensures (forall node: seq<byte>, depth: nat | |node| == fs.blockSize :: WalkNode(fs, node, depth).end != Overrun)
            <==> fs.blockSize >= 4092
  {
    hide WalkNode, NodeFits, FullLeaf;
    if fs.blockSize >= 4092 {
      forall node: seq<byte>, depth: nat | |node| == fs.blockSize
        ensures WalkNode(fs, node, depth).end != Overrun
      {
        HeaderCheckSuffices(node, depth);
        NodeContained(fs, node, depth);
      }
    } else {
      FullLeafOverruns(fs);
    }
  }

  lemma {:induction false} LeafContained(fs: Fs, node: seq<byte>, i: nat)
    requires |node| >= 12 && EntriesFit(node)
    ensures WalkLeaf(fs, node, i).end != Overrun
    decreases Entries(node) - i
  {
    if i < Entries(node) {
      LeafContained(fs, node, i + 1);
    }
  }

  lemma {:induction false} IndexContained(fs: Fs, node: seq<byte>, depth: nat, i: nat)
    requires Geometry(fs) && fs.blockSize >= 4092 && |node| >= 12 && EntriesFit(node) && depth > 0
    ensures WalkIndex(fs, node, depth, i).end != Overrun
    decreases depth, 0, Entries(node) - i
  {
    hide WalkNode, HeaderAccepted;
    if i < Entries(node) {
      IndexContained(fs, node, depth, i + 1);
      var index := ChildBlock(node, i);
      if BlockIndexValid(fs, index) && ReadBlock(fs.dev, fs.blockSize, index).Some? {
        var child := ReadBlock(fs.dev, fs.blockSize, index).value;
        HeaderCheckSuffices(child, depth - 1);
        NodeContained(fs, child, depth - 1);
      }
    }
  }

  lemma {:induction false} NodeContained(fs: Fs, node: seq<byte>, depth: nat)
    requires Geometry(fs) && (fs.blockSize >= 4092 || depth == 0) && |node| >= 12 && NodeFits(node, depth)
    ensures WalkNode(fs, node, depth).end != Overrun
    decreases depth, 1, 0
  {
    if HeaderAccepted(node, depth) {
      if depth == 0 {
        LeafContained(fs, node, 0);
      } else {
        IndexContained(fs, node, depth, 0);
      }
    }
  }

  /**
   * Listing a directory stays inside its nodes when blocks have 4096 bytes or more, and whatever
   * their size when the directory uses direct pointers or keeps all its extents in the inode.
   */
  lemma DirectoryContained(fs: Fs, number: nat)
    requires Geometry(fs)
    requires match ReadInode(fs, number)
             case None => true
             case Some(inode) =>
               fs.blockSize >= 4096 || !UsesExtents(inode) || Le16(RootBytes(inode.block), 6) == 0
    ensures Contained(fs, number)
  {
    hide WalkNode, HeaderAccepted, RootBytes;
    if ReadInode(fs, number).Some? && ReadInode(fs, number).value.kind == Directory {
      var inode := ReadInode(fs, number).value;
      if UsesExtents(inode) {
        RootIsValidated(fs, number);
        var root := RootBytes(inode.block);
        NodeContained(fs, root, Le16(root, 6));
      }
    }
  }

  // The directory blocks of a walk, scanned one after the other.

  function ScanBlocks(fs: Fs, size: nat, blocks: seq<Mapping>, cb: Callback): Scan {
    if blocks == [] then Scan([], true)
    else
      var first := BlockScan(fs, size, blocks[0].logical, blocks[0].physical, cb);
      var rest := ScanBlocks(fs, size, blocks[1..], cb);
      Scan(first.entries + rest.entries, first.ok && rest.ok)
  }

  lemma {:induction false} ScanBlocksAppend(fs: Fs, size: nat, a: seq<Mapping>, b: seq<Mapping>, cb: Callback)
    ensures ScanBlocks(fs, size, a + b, cb) ==
            Scan(ScanBlocks(fs, size, a, cb).entries + ScanBlocks(fs, size, b, cb).entries,
                 ScanBlocks(fs, size, a, cb).ok && ScanBlocks(fs, size, b, cb).ok)
    decreases a
  {
    hide BlockScan;
    if a == [] {
      assert a + b == b;
    } else {
      assert (a + b)[1..] == a[1..] + b && (a + b)[0] == a[0];
      ScanBlocksAppend(fs, size, a[1..], b, cb);
    }
  }

  /** The outcome of `ext4_list_directory_inode`. */
  function ListDirectory(fs: Fs, number: nat, cb: Callback): Scan
    requires Geometry(fs)
  {
    match ReadInode(fs, number)
    case None => Scan([], false)
    case Some(inode) =>
      if inode.kind != Directory then Scan([], false)
      else
        var walk := WalkInode(fs, inode);
        var scan := ScanBlocks(fs, inode.size, walk.blocks, cb);
        Scan(scan.entries, scan.ok && walk.end == Finished)
  }

  // The walk itself.

  /** The visitor has seen exactly the blocks `done` since it held `before`. */
  ghost predicate Visited(fs: Fs, size: nat, done: seq<Mapping>, visitor: Visitor, before: seq<DirEntry>)
    reads visitor
  {
    && visitor.delivered == before + ScanBlocks(fs, size, done, visitor.callback).entries
    && visitor.failed == !ScanBlocks(fs, size, done, visitor.callback).ok
  }

  /** `visit_data_block`: a failing block is remembered, and the walk goes on. */
  method VisitDataBlock(fs: Fs, inode: Inode, m: Mapping, visitor: Visitor,
                        ghost done: seq<Mapping>, ghost before: seq<DirEntry>)
    requires fs.blockSize > 0 && Visited(fs, inode.size, done, visitor, before)
    modifies visitor
    ensures Visited(fs, inode.size, done + [m], visitor, before)
  {
    hide BlockScan;
    ScanBlocksAppend(fs, inode.size, done, [m], visitor.callback);
    assert [m][1..] == [];
    var ok := ParseDirectoryBlock(fs, inode, m.logical, m.physical, visitor);
    if !ok {
      visitor.failed := true;
    }
  }

  /** The inner loop of `visit_extent_node` over the blocks of one extent. */
  method VisitRun(fs: Fs, inode: Inode, logical: nat, start: nat, length: nat, visitor: Visitor,
                  ghost done: seq<Mapping>, ghost before: seq<DirEntry>)
    requires fs.blockSize > 0 && Visited(fs, inode.size, done, visitor, before)
    modifies visitor
    ensures Visited(fs, inode.size, done + Run(logical, start, length), visitor, before)
  {
    hide Visited;
    ghost var run := Run(logical, start, length);
    assert done + run[..0] == done;
    for j := 0 to length
      invariant Visited(fs, inode.size, done + run[..j], visitor, before)
    {
      assert done + run[..j + 1] == done + run[..j] + [run[j]];
      VisitDataBlock(fs, inode, Mapping(logical + j, start + j), visitor, done + run[..j], before);
    }
    assert run[..length] == run;
  }

  lemma LeafStep(fs: Fs, node: seq<byte>, i: nat, sofar: seq<Mapping>)
    requires |node| >= 12 && i < Entries(node)
    ensures Then(Walk(sofar, Finished), WalkLeaf(fs, node, i)) ==
            if !EntryInside(node, i) then Walk(sofar, Overrun)
            else if LeafValid(fs, node, i)
            then Then(Walk(sofar + Run(LeafLogical(node, i), LeafStart(node, i), LeafLength(node, i)), Finished),
                      WalkLeaf(fs, node, i + 1))
            else Walk(sofar, Rejected)
  {
    hide LeafValid, Run;
    assert sofar + [] == sofar;
    if EntryInside(node, i) {
      var run, rest := Run(LeafLogical(node, i), LeafStart(node, i), LeafLength(node, i)), WalkLeaf(fs, node, i + 1);
      assert sofar + (run + rest.blocks) == sofar + run + rest.blocks;
    }
  }

  lemma LeafEnd(fs: Fs, node: seq<byte>, i: nat, sofar: seq<Mapping>)
    requires |node| >= 12 && i >= Entries(node)
    ensures Then(Walk(sofar, Finished), WalkLeaf(fs, node, i)) == Walk(sofar, Finished)
  {
    assert sofar + [] == sofar;
  }

  /** The leaf loop of `visit_extent_node`. */
  method VisitLeaf(fs: Fs, inode: Inode, node: seq<byte>, visitor: Visitor,
                   ghost done: seq<Mapping>, ghost before: seq<DirEntry>)
    returns (ok: bool)
    requires fs.blockSize > 0 && |node| >= 12 && WalkLeaf(fs, node, 0).end != Overrun
    requires Visited(fs, inode.size, done, visitor, before)
    modifies visitor
    ensures Visited(fs, inode.size, done + WalkLeaf(fs, node, 0).blocks, visitor, before)
    ensures ok <==> WalkLeaf(fs, node, 0).end == Finished
  {
    hide Visited, WalkLeaf, LeafValid, Run, LeafLogical, LeafStart, LeafLength;
    ghost var all := WalkLeaf(fs, node, 0);
    ghost var sofar: seq<Mapping> := [];
    assert done + [] == done && [] + all.blocks == all.blocks;
    var i := 0;
    while i < Entries(node)
      invariant i <= Entries(node)
      invariant all == Then(Walk(sofar, Finished), WalkLeaf(fs, node, i))
      invariant Visited(fs, inode.size, done + sofar, visitor, before)
    {
      LeafStep(fs, node, i, sofar);
      if !LeafValid(fs, node, i) {
        return false;
      }
      var logical, start, length := LeafLogical(node, i), LeafStart(node, i), LeafLength(node, i);
      VisitRun(fs, inode, logical, start, length, visitor, done + sofar, before);
      assert done + sofar + Run(logical, start, length) == done + (sofar + Run(logical, start, length));
      sofar := sofar + Run(logical, start, length);
      i := i + 1;
    }
    LeafEnd(fs, node, i, sofar);
    return true;
  }

  /** `visit_extent_node`. */
  method VisitExtentNode(fs: Fs, inode: Inode, node: seq<byte>, depth: nat, visitor: Visitor,
                         ghost done: seq<Mapping>, ghost before: seq<DirEntry>)
    returns (ok: bool)
    requires Geometry(fs) && |node| >= 12 && WalkNode(fs, node, depth).end != Overrun
    requires Visited(fs, inode.size, done, visitor, before)
    modifies visitor
    ensures Visited(fs, inode.size, done + WalkNode(fs, node, depth).blocks, visitor, before)
    ensures ok <==> WalkNode(fs, node, depth).end == Finished
    decreases depth, 0
  {
    hide ScanBlocks, Visited, WalkLeaf, WalkIndex, WalkChild, HeaderAccepted;
    if !HeaderAccepted(node, depth) {
      assert done + [] == done;
      return false;
    }
    if depth == 0 {
      ok := VisitLeaf(fs, inode, node, visitor, done, before);
      return;
    }
    ghost var all := WalkIndex(fs, node, depth, 0);
    ghost var sofar: seq<Mapping> := [];
    assert done + [] == done && [] + all.blocks == all.blocks;
    var i := 0;
    while i < Entries(node)
      invariant i <= Entries(node)
      invariant all == Then(Walk(sofar, Finished), WalkIndex(fs, node, depth, i))
      invariant Visited(fs, inode.size, done + sofar, visitor, before)
    {
      IndexStep(fs, node, depth, i, sofar);
      ghost var sub := WalkChild(fs, ChildBlock(node, i), depth - 1);
      ok := VisitChild(fs, inode, ChildBlock(node, i), depth - 1, visitor, done + sofar, before);
      assert done + sofar + sub.blocks == done + (sofar + sub.blocks);
      if !ok {
        return false;
      }
      sofar := sofar + sub.blocks;
      i := i + 1;
    }
    IndexEnd(fs, node, depth, i, sofar);
    return true;
  }

  lemma IndexStep(fs: Fs, node: seq<byte>, depth: nat, i: nat, sofar: seq<Mapping>)
    requires Geometry(fs) && |node| >= 12 && depth > 0 && i < Entries(node)
    ensures Then(Walk(sofar, Finished), WalkIndex(fs, node, depth, i)) ==
            if !EntryInside(node, i) then Walk(sofar, Overrun)
            else
              var sub := WalkChild(fs, ChildBlock(node, i), depth - 1);
              if sub.end == Finished
              then Then(Walk(sofar + sub.blocks, Finished), WalkIndex(fs, node, depth, i + 1))
              else Walk(sofar + sub.blocks, sub.end)
  {
    hide WalkChild;
    assert sofar + [] == sofar;
    if EntryInside(node, i) {
      var sub, rest := WalkChild(fs, ChildBlock(node, i), depth - 1), WalkIndex(fs, node, depth, i + 1);
      assert sofar + (sub.blocks + rest.blocks) == sofar + sub.blocks + rest.blocks;
    }
  }

  lemma IndexEnd(fs: Fs, node: seq<byte>, depth: nat, i: nat, sofar: seq<Mapping>)
    requires Geometry(fs) && |node| >= 12 && depth > 0 && i >= Entries(node)
    ensures Then(Walk(sofar, Finished), WalkIndex(fs, node, depth, i)) == Walk(sofar, Finished)
  {
    assert sofar + [] == sofar;
  }

  /** One turn of the index loop of `visit_extent_node`. */
  method VisitChild(fs: Fs, inode: Inode, index: nat, depth: nat, visitor: Visitor,
                    ghost done: seq<Mapping>, ghost before: seq<DirEntry>)
    returns (ok: bool)
    requires Geometry(fs) && WalkChild(fs, index, depth).end != Overrun
    requires Visited(fs, inode.size, done, visitor, before)
    modifies visitor
    ensures Visited(fs, inode.size, done + WalkChild(fs, index, depth).blocks, visitor, before)
    ensures ok <==> WalkChild(fs, index, depth).end == Finished
    decreases depth, 1
  {
    hide Visited, WalkNode;
    assert done + [] == done;
    if !BlockIndexValid(fs, index) {
      return false;
    }
    var child := ReadBlock(fs.dev, fs.blockSize, index);
    if child == None {
      return false;
    }
    ok := VisitExtentNode(fs, inode, child.value, depth, visitor, done, before);
  }

  lemma NothingVisited(fs: Fs, size: nat, visitor: Visitor, before: seq<DirEntry>)
    requires visitor.delivered == before && !visitor.failed
    ensures Visited(fs, size, [], visitor, before)
  {
    assert before + [] == before;
  }

  /** `visit_inode_data_blocks`. */
  method VisitInodeDataBlocks(fs: Fs, inode: Inode, visitor: Visitor, ghost before: seq<DirEntry>) returns (ok: bool)
    requires Geometry(fs) && Decoded(inode) && WalkInode(fs, inode).end != Overrun
    requires visitor.delivered == before && !visitor.failed
    modifies visitor
    ensures Visited(fs, inode.size, WalkInode(fs, inode).blocks, visitor, before)
    ensures ok <==> WalkInode(fs, inode).end == Finished
  {
    hide Visited, WalkNode, ScanBlocks, RootBytes, HeaderAccepted, DirectBlocks;
    NothingVisited(fs, inode.size, visitor, before);
    if UsesExtents(inode) {
      var root := RootBytes(inode.block);
      var depth := Le16(root, 6);
      if depth > 5 {
        return false;
      }
      ok := VisitExtentNode(fs, inode, root, depth, visitor, [], before);
      assert [] + WalkNode(fs, root, depth).blocks == WalkNode(fs, root, depth).blocks;
      return;
    }
    VisitDirect(fs, inode, visitor, before);
    return inode.block[12] == 0 && inode.block[13] == 0 && inode.block[14] == 0;
  }

  /** The loop of `visit_inode_data_blocks` over the direct pointers. */
  method VisitDirect(fs: Fs, inode: Inode, visitor: Visitor, ghost before: seq<DirEntry>)
    requires fs.blockSize > 0 && |inode.block| == N_BLOCKS
    requires Visited(fs, inode.size, [], visitor, before)
    modifies visitor
    ensures Visited(fs, inode.size, DirectBlocks(inode.block, 0), visitor, before)
  {
    hide Visited, DirectBlocks;
    ghost var all := DirectBlocks(inode.block, 0);
    ghost var sofar: seq<Mapping> := [];
    for i := 0 to 12
      invariant all == sofar + DirectBlocks(inode.block, i)
      invariant Visited(fs, inode.size, sofar, visitor, before)
    {
      DirectStep(inode.block, i, sofar);
      if inode.block[i] != 0 {
        VisitDataBlock(fs, inode, Mapping(i, inode.block[i]), visitor, sofar, before);
        sofar := sofar + [Mapping(i, inode.block[i])];
      }
    }
    DirectEnd(inode.block, sofar);
  }

  lemma DirectStep(block: seq<nat>, i: nat, sofar: seq<Mapping>)
    requires |block| == N_BLOCKS && i < 12
    ensures sofar + DirectBlocks(block, i) ==
            (if block[i] != 0 then sofar + [Mapping(i, block[i])] else sofar) + DirectBlocks(block, i + 1)
  {
  }

  lemma DirectEnd(block: seq<nat>, sofar: seq<Mapping>)
    requires |block| == N_BLOCKS
    ensures sofar + DirectBlocks(block, 12) == sofar
  {
  }

  /** `ext4_list_directory_inode`. */
  method ListDirectoryInode(fs: Fs, number: nat, cb: Callback) returns (scan: Scan)
    requires Geometry(fs) && Contained(fs, number)
    ensures scan == ListDirectory(fs, number, cb)
  {
    var inode := LoadInode(fs, number);
    if inode == None || inode.value.kind != Directory {
      return Scan([], false);
    }
    var visitor := new Visitor(cb);
    var ok := VisitInodeDataBlocks(fs, inode.value, visitor, []);
    return Scan(visitor.delivered, !visitor.failed && ok);
  }
}
