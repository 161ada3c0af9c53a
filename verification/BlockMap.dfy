/** What the traversal of ext4_block.c delivers, in terms of the inode's pointers and the bytes of its table. */
module BlockMap {
  import opened Bytes
  import opened Arithmetic
  import opened Device
  import opened Super
  import opened Inode
  import opened Block

  /** The pointer at position `p` of a block map: fifteen less two in the inode, the rest in the table. */
  function PointerAt(inode: Inode, table: seq<byte>, p: nat): nat
    requires |inode.block| == 15 && p < 13 + |table| / 4
  {
    if p < 13 then inode.block[p] else Le32(table, 4 * (p - 13))
  }

  /** Its logical index, and what kind of reference it is reported as. */
  function LogicalAt(p: nat): nat {
    if p < 13 then p else p - 1
  }

  function KindAt(p: nat): RefKind {
    if p < 12 then Direct else if p == 12 then SingleIndirectTable else SingleIndirect
  }

  /** The bytes of the indirect table: none if there is no table. */
  ghost predicate HasTable(fs: Fs, inode: Inode, table: seq<byte>)
    requires |inode.block| == 15
  {
    if inode.block[12] == 0 then table == [] else ReadBlock(fs.dev, fs.blockSize, inode.block[12]) == Some(table)
  }

  /** The positions that a traversal looks at. */
  function Positions(inode: Inode, table: seq<byte>): nat
    requires |inode.block| == 15
  {
    if inode.block[12] == 0 then 12 else 13 + |table| / 4
  }

  lemma CandidatesAre(fs: Fs, inode: Inode, table: seq<byte>)
    requires |inode.block| == 15 && HasTable(fs, inode, table)
    ensures Candidates(fs, inode).Some? && |Candidates(fs, inode).value| == Positions(inode, table)
    ensures forall p | 0 <= p < Positions(inode, table) ::
              Candidates(fs, inode).value[p] == BlockRef(LogicalAt(p), PointerAt(inode, table, p), KindAt(p))
  {
  }

  lemma TraversedHasTable(fs: Fs, inode: Inode) returns (table: seq<byte>)
    requires |inode.block| == 15 && Candidates(fs, inode).Some?
    ensures HasTable(fs, inode, table)
  {
    return if inode.block[12] == 0 then [] else ReadBlock(fs.dev, fs.blockSize, inode.block[12]).value;
  }

  /**
   * A traversal keeps a reference exactly if it stands at some position of the block map, names an
   * existing block, and is the first to name it.
   */
  lemma KeptAtPositions(fs: Fs, inode: Inode, table: seq<byte>, r: BlockRef)
    requires |inode.block| == 15 && HasTable(fs, inode, table)
    requires (inode.kind == Regular || inode.kind == Directory) && inode.flags / 0x8_0000 % 2 == 0
    ensures Traverse(fs, inode).Some?
    ensures r in Traverse(fs, inode).value.refs <==>
            exists p :: 0 <= p < Positions(inode, table)
              && r == BlockRef(LogicalAt(p), PointerAt(inode, table, p), KindAt(p))
              && 0 < r.block < fs.blocksCount
              && forall q | 0 <= q < p :: PointerAt(inode, table, q) != r.block
  {
    Masks(inode.flags);
    hide BitAnd, Candidates, HasTable, PointerAt, LogicalAt, KindAt;
    CandidatesAre(fs, inode, table);
    var cs := Candidates(fs, inode).value;
    KeptAreFirstOccurrences(fs, cs, r);
    forall p | 0 <= p < |cs|
      ensures Fresh(fs, cs[..p], r) <==>
              0 < r.block < fs.blocksCount && forall q | 0 <= q < p :: PointerAt(inode, table, q) != r.block
    {
      FreshAt(fs, cs, p, r);
    }
  }

  lemma FreshAt(fs: Fs, cs: seq<BlockRef>, p: nat, r: BlockRef)
    requires p <= |cs|
    ensures Fresh(fs, cs[..p], r) <==> 0 < r.block < fs.blocksCount && forall q | 0 <= q < p :: cs[q].block != r.block
  {
    var before := BlocksOf(cs[..p]);
    assert forall q | 0 <= q < p :: before[q] == cs[q].block;
  }

  /** The blocks of a traversal are exactly the existing ones that a pointer of the inode or its table names. */
  lemma TraversedBlocks(fs: Fs, inode: Inode, table: seq<byte>, block: nat)
    requires |inode.block| == 15 && HasTable(fs, inode, table)
    requires (inode.kind == Regular || inode.kind == Directory) && inode.flags / 0x8_0000 % 2 == 0
    ensures Traverse(fs, inode).Some?
    ensures block in BlocksOf(Traverse(fs, inode).value.refs) <==>
            && 0 < block < fs.blocksCount
            && ((exists i :: 0 <= i < 13 && inode.block[i] == block)
                || (inode.block[12] != 0 && exists i :: 0 <= i < |table| / 4 && Le32(table, 4 * i) == block))
  {
    Masks(inode.flags);
    hide BitAnd, Candidates, HasTable;
    CandidatesAre(fs, inode, table);
    var cs := Candidates(fs, inode).value;
    KeptBlocks(fs, cs, block);
    BlocksAt(cs, block);
    if i :| 0 <= i < 13 && inode.block[i] == block && block != 0 {
      assert cs[i].block == block;
    }
    if inode.block[12] != 0 {
      if i :| 0 <= i < |table| / 4 && Le32(table, 4 * i) == block {
        assert cs[13 + i].block == block;
      }
    }
    if p :| 0 <= p < |cs| && cs[p].block == block && p >= 13 {
      assert Le32(table, 4 * (p - 13)) == block;
    }
  }

  lemma BlocksAt(cs: seq<BlockRef>, block: nat)
    ensures block in BlocksOf(cs) <==> exists p :: 0 <= p < |cs| && cs[p].block == block
  {
    assert forall p | 0 <= p < |cs| :: BlocksOf(cs)[p] == cs[p].block;
  }

  /** Files with extents are reported once and contribute nothing; other kinds of inodes are passed over. */
  lemma OtherInodes(fs: Fs, inode: Inode)
    requires |inode.block| == 15
    ensures inode.kind != Regular && inode.kind != Directory ==> Traverse(fs, inode) == Some(Traversal([], 0))
    ensures (inode.kind == Regular || inode.kind == Directory) && inode.flags / 0x8_0000 % 2 == 1 ==>
              Traverse(fs, inode) == Some(Traversal([], 1))
  {
    Masks(inode.flags);
    hide BitAnd;
  }

  // Counting.

  function NonZeroPlaces(cs: seq<BlockRef>): set<int> {
    set p | 0 <= p < |cs| && cs[p].block != 0
  }

  lemma {:induction false} NonZeroCounts(cs: seq<BlockRef>)
    ensures NonZero(cs) == |NonZeroPlaces(cs)|
  {
    if cs != [] {
      var n := |cs| - 1;
      NonZeroCounts(cs[..n]);
      var before := NonZeroPlaces(cs[..n]);
      assert NonZeroPlaces(cs) == if cs[n].block != 0 then before + {n} else before;
    }
  }

  lemma DirectCount(inode: Inode)
    requires |inode.block| == 15
    ensures NonZero(DirectRefs(inode)) == |set i | 0 <= i < 12 && inode.block[i] != 0|
  {
    NonZeroCounts(DirectRefs(inode));
    assert NonZeroPlaces(DirectRefs(inode)) == set i | 0 <= i < 12 && inode.block[i] != 0;
  }

  lemma TableCount(table: seq<byte>)
    ensures NonZero(TableRefs(table)) == |set i | 0 <= i < |table| / 4 && Le32(table, 4 * i) != 0|
  {
    NonZeroCounts(TableRefs(table));
    assert NonZeroPlaces(TableRefs(table)) == set i | 0 <= i < |table| / 4 && Le32(table, 4 * i) != 0;
  }

  /**
   * The accounting of a whole traversal: references kept plus corruptions reported are the nonzero
   * direct pointers, the indirect table and its nonzero entries, and one for deeper indirection.
   */
  lemma TraversalAccounting(fs: Fs, inode: Inode, table: seq<byte>)
    requires |inode.block| == 15 && HasTable(fs, inode, table)
    requires (inode.kind == Regular || inode.kind == Directory) && inode.flags / 0x8_0000 % 2 == 0
    ensures Traverse(fs, inode).Some?
    ensures var t := Traverse(fs, inode).value;
            |t.refs| + t.corruptions ==
            |set i | 0 <= i < 12 && inode.block[i] != 0|
            + (if inode.block[12] == 0 then 0 else 1 + |set i | 0 <= i < |table| / 4 && Le32(table, 4 * i) != 0|)
            + (if inode.block[13] != 0 || inode.block[14] != 0 then 1 else 0)
  {
    Masks(inode.flags);
    hide BitAnd, Kept, Refused, NonZero, DirectRefs, TableRefs;
    Accounting(fs, Candidates(fs, inode).value);
    DirectCount(inode);
    TableCount(table);
    if inode.block[12] != 0 {
      NonZeroAppend(DirectRefs(inode) + [TableRef(inode)], TableRefs(table));
      NonZeroAppend(DirectRefs(inode), [TableRef(inode)]);
      OneNonZero(TableRef(inode));
    }
  }

  lemma OneNonZero(c: BlockRef)
    requires c.block != 0
    ensures NonZero([c]) == 1
  {
    assert [c][..0] == [];
  }
}
