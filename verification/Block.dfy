/** ext4_block.c: the traversal of an inode's direct and single-indirect block references. */
module Block {
  import opened Bytes
  import opened Device
  import opened Super
  import opened Inode
  import opened Growth

  datatype RefKind = Direct | SingleIndirect | SingleIndirectTable

  datatype BlockRef = BlockRef(logical: nat, block: nat, kind: RefKind)

  /** The record a callback fills in: `struct ext4_inode_chain`. */
  class InodeChain {
    const number: nat
    const kind: InodeKind
    var refs: seq<BlockRef>
    var capacity: nat
    var corruptionCount: nat

    ghost predicate Valid()
      reads this
    {
      |refs| <= capacity
    }

    constructor (number: nat, kind: InodeKind)
      ensures Valid() && this.number == number && this.kind == kind
      ensures refs == [] && corruptionCount == 0
    {
      this.number := number;
      this.kind := kind;
      refs := [];
      capacity := 0;
      corruptionCount := 0;
    }

    /** `add_ref`. */
    method AddRef(heap: Heap, ref: BlockRef) returns (status: Status)
      requires Valid()
      modifies this`refs, this`capacity, heap
      ensures Valid()
      ensures old(heap.requests) <= heap.requests
      ensures status == if heap.RefusedSince(old(heap.requests)) then NoMemory else Done
      ensures status == Done ==> refs == old(refs) + [ref]
      ensures status == NoMemory ==> refs == old(refs) && |refs| == capacity == old(capacity)
    {
      var room, grown := Reserve(heap, |refs|, capacity, 16);
      if !room {
        return NoMemory;
      }
      capacity := grown;
      refs := refs + [ref];
      return Done;
    }
  }

  // What the traversal is meant to deliver, over the list of references in scan order.

  function BlocksOf(refs: seq<BlockRef>): (r: seq<nat>)
    ensures |r| == |refs|
  {
    seq(|refs|, i requires 0 <= i < |refs| => refs[i].block)
  }

  lemma BlocksOfAppend(refs: seq<BlockRef>, c: BlockRef)
    ensures BlocksOf(refs + [c]) == BlocksOf(refs) + [c.block]
  {
  }

  /** `c` names an existing block that no reference in `before` names. */
  predicate Fresh(fs: Fs, before: seq<BlockRef>, c: BlockRef) {
    0 < c.block && BlockIndexValid(fs, c.block) && c.block !in BlocksOf(before)
  }

  /** The references kept: in order, those that are fresh where they stand. */
  function Kept(fs: Fs, cs: seq<BlockRef>): (r: seq<BlockRef>)
    ensures |r| <= |cs|
  {
    if cs == [] then []
    else
      var init, last := cs[..|cs| - 1], cs[|cs| - 1];
      if Fresh(fs, init, last) then Kept(fs, init) + [last] else Kept(fs, init)
  }

  /** How many references are reported as corrupt: the nonzero ones that are not fresh. */
  function Refused(fs: Fs, cs: seq<BlockRef>): nat {
    if cs == [] then 0
    else
      var init, last := cs[..|cs| - 1], cs[|cs| - 1];
      Refused(fs, init) + if last.block != 0 && !Fresh(fs, init, last) then 1 else 0
  }

  function NonZero(cs: seq<BlockRef>): nat {
    if cs == [] then 0
    else NonZero(cs[..|cs| - 1]) + if cs[|cs| - 1].block != 0 then 1 else 0
  }

  function DirectRefs(inode: Inode): (r: seq<BlockRef>)
    requires |inode.block| == N_BLOCKS
    ensures |r| == 12
  {
    seq(12, i requires 0 <= i < 12 => BlockRef(i, inode.block[i], Direct))
  }

  function TableRefs(table: seq<byte>): (r: seq<BlockRef>)
    ensures |r| == |table| / 4
  {
    seq(|table| / 4, i requires 0 <= i < |table| / 4 => BlockRef(12 + i, Le32(table, 4 * i), SingleIndirect))
  }

  function TableRef(inode: Inode): BlockRef
    requires |inode.block| == N_BLOCKS
  {
    BlockRef(12, inode.block[12], SingleIndirectTable)
  }

  /** All references of a block-mapped inode in scan order; none if the indirect table is unreadable. */
  function Candidates(fs: Fs, inode: Inode): Option<seq<BlockRef>>
    requires |inode.block| == N_BLOCKS
  {
    if inode.block[12] == 0 then Some(DirectRefs(inode))
    else
      match ReadBlock(fs.dev, fs.blockSize, inode.block[12])
      case None => None
      case Some(table) => Some(DirectRefs(inode) + [TableRef(inode)] + TableRefs(table))
  }

  predicate Traversable(inode: Inode) {
    inode.kind == Regular || inode.kind == Directory
  }

  predicate DeepIndirection(inode: Inode)
    requires |inode.block| == N_BLOCKS
  {
    inode.block[13] != 0 || inode.block[14] != 0
  }

  datatype Traversal = Traversal(refs: seq<BlockRef>, corruptions: nat)

  /** The outcome of `ext4_traverse_inode_blocks` when memory suffices. */
  function Traverse(fs: Fs, inode: Inode): Option<Traversal>
    requires |inode.block| == N_BLOCKS
  {
    if !Traversable(inode) then Some(Traversal([], 0))
    else if UsesExtents(inode) then Some(Traversal([], 1))
    else
      match Candidates(fs, inode)
      case None => None
      case Some(cs) => Some(Traversal(Kept(fs, cs), Refused(fs, cs) + if DeepIndirection(inode) then 1 else 0))
  }

  // Properties of the kept references.

  /** A block is kept exactly when it exists and some reference names it. */
  lemma {:induction false} KeptBlocks(fs: Fs, cs: seq<BlockRef>, block: nat)
    ensures block in BlocksOf(Kept(fs, cs)) <==> 0 < block < fs.blocksCount && block in BlocksOf(cs)
  {
    if cs != [] {
      var init, last := cs[..|cs| - 1], cs[|cs| - 1];
      KeptBlocks(fs, init, block);
      assert cs == init + [last];
      BlocksOfAppend(init, last);
      BlocksOfAppend(Kept(fs, init), last);
    }
  }

  /** Kept references name pairwise different blocks. */
  lemma {:induction false} KeptDistinct(fs: Fs, cs: seq<BlockRef>)
    ensures DuplicateFree(BlocksOf(Kept(fs, cs)))
  {
    if cs != [] {
      var init, last := cs[..|cs| - 1], cs[|cs| - 1];
      KeptDistinct(fs, init);
      KeptBlocks(fs, init, last.block);
      BlocksOfAppend(Kept(fs, init), last);
      if Fresh(fs, init, last) {
        DuplicateFreeAppend(BlocksOf(Kept(fs, init)), last.block);
      }
    }
  }

  /** The kept references are exactly the first occurrences of existing blocks. */
  lemma {:induction false} KeptAreFirstOccurrences(fs: Fs, cs: seq<BlockRef>, c: BlockRef)
    ensures c in Kept(fs, cs) <==> exists k :: 0 <= k < |cs| && cs[k] == c && Fresh(fs, cs[..k], c)
  {
    if cs != [] {
      var init, last := cs[..|cs| - 1], cs[|cs| - 1];
      KeptAreFirstOccurrences(fs, init, c);
      assert forall k | 0 <= k < |init| :: cs[k] == init[k] && cs[..k] == init[..k];
      assert cs[..|init|] == init;
    }
  }

  /** Conservation: every nonzero reference is kept or reported, never both. */
  lemma {:induction false} Accounting(fs: Fs, cs: seq<BlockRef>)
    ensures |Kept(fs, cs)| + Refused(fs, cs) == NonZero(cs)
  {
    if cs != [] {
      Accounting(fs, cs[..|cs| - 1]);
    }
  }

  lemma {:induction false} NonZeroAppend(a: seq<BlockRef>, b: seq<BlockRef>)
    ensures NonZero(a + b) == NonZero(a) + NonZero(b)
  {
    if b == [] {
      assert a + b == a;
    } else {
      NonZeroAppend(a, b[..|b| - 1]);
      assert (a + b)[..|a + b| - 1] == a + b[..|b| - 1];
    }
  }

  // The traversal itself.

  /** After scanning `done`, the chain and the seen set hold what the specification says. */
  ghost predicate Scanned(fs: Fs, done: seq<BlockRef>, seen: ItemSet, chain: InodeChain)
    reads seen, chain
  {
    && seen.Valid() && chain.Valid()
    && chain.refs == Kept(fs, done)
    && chain.corruptionCount == Refused(fs, done)
    && seen.items == BlocksOf(chain.refs)
  }

  lemma ScannedOne(fs: Fs, done: seq<BlockRef>, c: BlockRef)
    ensures Kept(fs, done + [c]) == if Fresh(fs, done, c) then Kept(fs, done) + [c] else Kept(fs, done)
    ensures Refused(fs, done + [c]) == Refused(fs, done) + if c.block != 0 && !Fresh(fs, done, c) then 1 else 0
    ensures BlocksOf(Kept(fs, done) + [c]) == BlocksOf(Kept(fs, done)) + [c.block]
    ensures 0 < c.block < fs.blocksCount ==> (Fresh(fs, done, c) <==> c.block !in BlocksOf(Kept(fs, done)))
  {
    assert (done + [c])[..|done|] == done;
    KeptBlocks(fs, done, c.block);
    BlocksOfAppend(Kept(fs, done), c);
  }

  /** `emit_block`, with the callback that collects into a chain. */
  method EmitBlock(heap: Heap, fs: Fs, seen: ItemSet, chain: InodeChain, ref: BlockRef, ghost done: seq<BlockRef>)
    returns (status: Status)
    requires Scanned(fs, done, seen, chain)
    modifies seen, chain, heap
    ensures old(heap.requests) <= heap.requests
    ensures status == if heap.RefusedSince(old(heap.requests)) then NoMemory else Done
    ensures status == Done ==> Scanned(fs, done + [ref], seen, chain)
    ensures status == NoMemory ==>
              && chain.refs == old(chain.refs) && chain.corruptionCount == old(chain.corruptionCount)
              && Fresh(fs, done, ref)
    ensures chain.Valid()
  {
    ScannedOne(fs, done, ref);
    if ref.block == 0 {
      return Done;
    }
    if !BlockIndexValid(fs, ref.block) {
      chain.corruptionCount := chain.corruptionCount + 1;
      return Done;
    }
    var repeated := seen.Contains(ref.block);
    if repeated {
      chain.corruptionCount := chain.corruptionCount + 1;
      return Done;
    }
    var room := seen.Add(heap, ref.block);
    if !room {
      return NoMemory;
    }
    status := chain.AddRef(heap, ref);
  }

  /** `traverse_single_indirect`. */
  method TraverseSingleIndirect(heap: Heap, fs: Fs, inode: Inode, seen: ItemSet, chain: InodeChain)
    returns (status: Status)
    requires |inode.block| == N_BLOCKS && fs.blockSize > 0
    requires Scanned(fs, DirectRefs(inode), seen, chain)
    modifies seen, chain, heap
    ensures old(heap.requests) <= heap.requests
    ensures status == NoMemory <==> heap.RefusedSince(old(heap.requests))
    ensures status == Done ==>
              Candidates(fs, inode).Some? && Scanned(fs, Candidates(fs, inode).value, seen, chain)
    ensures status == BadImage ==> Candidates(fs, inode).None?
    ensures chain.Valid()
  {
    var indirect := inode.block[12];
    if indirect == 0 {
      return Done;
    }
    ghost var done := DirectRefs(inode);
    status := EmitBlock(heap, fs, seen, chain, TableRef(inode), done);
    if status != Done {
      return;
    }
    done := done + [TableRef(inode)];
    assert BlocksOf(done)[12] == indirect;
    var granted := heap.Request();
    if !granted {
      return NoMemory;
    }
    var table := ReadBlock(fs.dev, fs.blockSize, indirect);
    if table == None {
      return BadImage;
    }
    status := ScanTable(heap, fs, table.value, indirect, seen, chain, done);
  }

  /** The loop of `traverse_single_indirect` over the entries of the table. */
  method ScanTable(heap: Heap, fs: Fs, table: seq<byte>, indirect: nat, seen: ItemSet, chain: InodeChain,
                   ghost done: seq<BlockRef>)
    returns (status: Status)
    requires Scanned(fs, done, seen, chain) && indirect in BlocksOf(done)
    modifies seen, chain, heap
    ensures old(heap.requests) <= heap.requests
    ensures status == if heap.RefusedSince(old(heap.requests)) then NoMemory else Done
    ensures status == Done ==> Scanned(fs, done + TableRefs(table), seen, chain)
    ensures chain.Valid()
  {
    ghost var refs := TableRefs(table);
    assert done + refs[..0] == done;
    for i := 0 to |table| / 4
      invariant Scanned(fs, done + refs[..i], seen, chain)
      invariant old(heap.requests) <= heap.requests && !heap.RefusedSince(old(heap.requests))
    {
      var target := Le32(table, 4 * i);
      var ref := BlockRef(12 + i, target, SingleIndirect);
      assert done + refs[..i + 1] == done + refs[..i] + [ref];
      ScannedOne(fs, done + refs[..i], ref);
      if target == 0 {
        continue;
      }
      if target == indirect {
        NamedBefore(done, refs[..i], indirect);
        chain.corruptionCount := chain.corruptionCount + 1;
        continue;
      }
      status := EmitBlock(heap, fs, seen, chain, ref, done + refs[..i]);
      if status != Done {
        return;
      }
    }
    assert refs[..|table| / 4] == refs;
    return Done;
  }

  lemma NamedBefore(a: seq<BlockRef>, b: seq<BlockRef>, block: nat)
    requires block in BlocksOf(a)
    ensures block in BlocksOf(a + b)
  {
    var i :| 0 <= i < |a| && BlocksOf(a)[i] == block;
    assert BlocksOf(a + b)[i] == block;
  }

  /** `ext4_traverse_inode_blocks` collecting into a fresh chain. */
  method TraverseInodeBlocks(heap: Heap, fs: Fs, inode: Inode, chain: InodeChain) returns (status: Status)
    requires |inode.block| == N_BLOCKS && fs.blockSize > 0
    requires chain.Valid() && chain.refs == [] && chain.corruptionCount == 0
    modifies chain, heap
    ensures chain.Valid()
    ensures old(heap.requests) <= heap.requests
    ensures status == NoMemory <==> heap.RefusedSince(old(heap.requests))
    ensures status == Done ==> Traverse(fs, inode) == Some(Traversal(chain.refs, chain.corruptionCount))
    ensures status == BadImage ==> Traverse(fs, inode).None?
  {
    if inode.kind != Regular && inode.kind != Directory {
      return Done;
    }
    if UsesExtents(inode) {
      chain.corruptionCount := chain.corruptionCount + 1;
      return Done;
    }
    var seen := new ItemSet();
    ghost var direct := DirectRefs(inode);
    status := Done;
    for i := 0 to 12
      invariant status == Done && Scanned(fs, direct[..i], seen, chain) && fresh(seen)
      invariant old(heap.requests) <= heap.requests && !heap.RefusedSince(old(heap.requests))
    {
      assert direct[..i + 1] == direct[..i] + [direct[i]];
      status := EmitBlock(heap, fs, seen, chain, BlockRef(i, inode.block[i], Direct), direct[..i]);
      if status != Done {
        break;
      }
    }
    if status == Done {
      assert direct[..12] == direct;
      status := TraverseSingleIndirect(heap, fs, inode, seen, chain);
    }
    if DeepIndirection(inode) {
      chain.corruptionCount := chain.corruptionCount + 1;
    }
  }
}
