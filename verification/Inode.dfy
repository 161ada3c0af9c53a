/** ext4_inode.c: locating, decoding and validating inodes. */
module Inode {
  import opened Bytes
  import opened Arithmetic
  import opened Device
  import opened Super
  import opened Group

  const N_BLOCKS: nat := 15
  const EXTENTS_FL: nat := 0x0008_0000
  const EXTENT_HEADER_MAGIC: nat := 0xF30A

  datatype InodeKind = Unknown | Regular | Directory | Symlink

  /** The decoded fields that later stages look at. */
  datatype Inode = Inode(number: nat, mode: nat, kind: InodeKind, size: nat, sectors: nat,
                         flags: nat, block: seq<nat>)

  predicate UsesExtents(inode: Inode) {
    BitAnd(inode.flags, EXTENTS_FL) != 0
  }

  /** `detect_inode_type`: the top four bits of the mode (mask 0170000). */
  function DetectKind(mode: nat): InodeKind {
    var fmt := mode / 0x1000 % 0x10;
    if fmt == 8 then Regular else if fmt == 4 then Directory else if fmt == 10 then Symlink else Unknown
  }

  /** `inode_number - 1U` in 32 bits. */
  function ZeroBased(number: nat): (r: nat)
    ensures 1 <= number <= U32 ==> r == number - 1
  {
    (number + U32_MAX) % U32
  }

  /** `ext4_inode_offset`, with its 32-bit and 64-bit unsigned operations. */
  function InodeOffset(fs: Fs, number: nat): Option<nat>
    requires fs.descSize >= 32 && fs.sb.inodesPerGroup > 0 && fs.blockSize > 0 && fs.inodeSize > 0
  {
    var group := ZeroBased(number) / fs.sb.inodesPerGroup;
    var index := ZeroBased(number) % fs.sb.inodesPerGroup;
    if group >= fs.groupsCount then None
    else
      match ReadGroupDesc(fs, group)
      case None => None
      case Some(desc) =>
        if desc.inodeTable > U64_MAX / fs.blockSize || index > U64_MAX / fs.inodeSize then None
        else
          var tableOffset := Wrap64(desc.inodeTable * fs.blockSize);
          var inTable := Wrap64(index * fs.inodeSize);
          if tableOffset > U64_MAX - inTable then None
          else
            var offset := Wrap64(tableOffset + inTable);
            if OffsetRangeValid(offset, fs.inodeSize) then Some(offset) else None
  }

  function EntryAt(i: nat): nat {
    12 + 12 * i
  }

  function LeafLogical(node: seq<byte>, i: nat): (r: nat)
    requires EntryAt(i + 1) <= |node|
    ensures r < U32
  {
    Le32(node, EntryAt(i))
  }

  /** The extent length with the "uninitialised" bit masked off. */
  function LeafLength(node: seq<byte>, i: nat): (r: nat)
    requires EntryAt(i + 1) <= |node|
    ensures r < 0x8000
  {
    Le16(node, EntryAt(i) + 4) % 0x8000
  }

  function LeafStart(node: seq<byte>, i: nat): nat
    requires EntryAt(i + 1) <= |node|
  {
    Le16(node, EntryAt(i) + 6) * U32 + Le32(node, EntryAt(i) + 8)
  }

  function ChildBlock(node: seq<byte>, i: nat): nat
    requires EntryAt(i + 1) <= |node|
  {
    Le16(node, EntryAt(i) + 10) * U32 + Le32(node, EntryAt(i) + 4)
  }

  predicate ExtentBlockValid(fs: Fs, start: nat, length: nat) {
    start == 0 || length == 0 || BlockRangeValid(fs, start, length)
  }

  predicate RootEntryValid(fs: Fs, root: seq<byte>, i: nat)
    requires 8 <= |root| && EntryAt(i + 1) <= |root|
  {
    if Le16(root, 6) == 0 then ExtentBlockValid(fs, LeafStart(root, i), LeafLength(root, i))
    else BlockIndexValid(fs, ChildBlock(root, i))
  }

  /** `validate_extent_tree` returns 0 for the 60 bytes of the extent root. */
  predicate ExtentRootValid(fs: Fs, root: seq<byte>)
    requires |root| == 4 * N_BLOCKS
  {
    && Le16(root, 0) == EXTENT_HEADER_MAGIC
    && Le16(root, 2) <= Le16(root, 4)
    && EntryAt(Le16(root, 2)) <= 4 * N_BLOCKS
    && forall i | 0 <= i < Le16(root, 2) :: RootEntryValid(fs, root, i)
  }

  /** `validate_inode_blocks` returns 0. */
  predicate InodeBlocksValid(fs: Fs, inode: Inode, raw: seq<byte>)
    requires |inode.block| == N_BLOCKS && |raw| >= 128
  {
    && inode.mode != 0
    && ((inode.kind == Symlink && inode.size <= 60 && inode.sectors == 0)
        || (if UsesExtents(inode) then ExtentRootValid(fs, raw[40..100])
            else forall i | 0 <= i < N_BLOCKS :: inode.block[i] == 0 || BlockIndexValid(fs, inode.block[i])))
  }

  function DecodeInode(number: nat, raw: seq<byte>): (r: Inode)
    requires |raw| >= 128
    ensures |r.block| == N_BLOCKS && forall i | 0 <= i < N_BLOCKS :: r.block[i] < U32
    ensures r.number == number
  {
    var mode := Le16(raw, 0);
    var kind := DetectKind(mode);
    var high := if kind == Unknown then 0 else Le32(raw, 108);
    Inode(number, mode, kind, Le32(raw, 4) + U32 * high, Le32(raw, 28), Le32(raw, 32),
          seq(N_BLOCKS, i requires 0 <= i < N_BLOCKS => Le32(raw, 40 + 4 * i)))
  }

  /** The bytes of an inode record, when its number and address are accepted and it can be read. */
  function RawInode(fs: Fs, number: nat): (r: Option<seq<byte>>)
    requires Geometry(fs)
    ensures r.Some? ==> |r.value| == fs.inodeSize
  {
    if number == 0 || number > fs.sb.inodesCount then None
    else
      match InodeOffset(fs, number)
      case None => None
      case Some(offset) => ReadAt(fs.dev, offset, fs.inodeSize)
  }

  /** `ext4_read_inode`. */
  function ReadInode(fs: Fs, number: nat): (r: Option<Inode>)
    requires Geometry(fs)
    ensures r.Some? ==> r.value.number == number && |r.value.block| == N_BLOCKS
    ensures r.Some? ==> forall i | 0 <= i < N_BLOCKS :: r.value.block[i] < U32
  {
    match RawInode(fs, number)
    case None => None
    case Some(raw) =>
      var inode := DecodeInode(number, raw);
      if InodeBlocksValid(fs, inode, raw) then Some(inode) else None
  }

  method ValidateExtentTree(fs: Fs, root: seq<byte>) returns (ok: bool)
    requires |root| == 4 * N_BLOCKS
    ensures ok == ExtentRootValid(fs, root)
  {
    var entries := Le16(root, 2);
    if Le16(root, 0) != EXTENT_HEADER_MAGIC || entries > Le16(root, 4) || EntryAt(entries) > 4 * N_BLOCKS {
      return false;
    }
    for i := 0 to entries
      invariant forall j | 0 <= j < i :: RootEntryValid(fs, root, j)
    {
      if !RootEntryValid(fs, root, i) {
        return false;
      }
    }
    return true;
  }

  method ValidateInodeBlocks(fs: Fs, inode: Inode, raw: seq<byte>) returns (ok: bool)
    requires |inode.block| == N_BLOCKS && |raw| >= 128
    ensures ok == InodeBlocksValid(fs, inode, raw)
  {
    if inode.mode == 0 {
      return false;
    }
    if inode.kind == Symlink && inode.size <= 60 && inode.sectors == 0 {
      return true;
    }
    if UsesExtents(inode) {
      ok := ValidateExtentTree(fs, raw[40..100]);
      return;
    }
    for i := 0 to N_BLOCKS
      invariant forall j | 0 <= j < i :: inode.block[j] == 0 || BlockIndexValid(fs, inode.block[j])
    {
      if inode.block[i] != 0 && !BlockIndexValid(fs, inode.block[i]) {
        return false;
      }
    }
    return true;
  }

  method LoadInode(fs: Fs, number: nat) returns (r: Option<Inode>)
    requires Geometry(fs)
    ensures r == ReadInode(fs, number)
  {
    var raw := RawInode(fs, number);
    if raw == None {
      return None;
    }
    var inode := DecodeInode(number, raw.value);
    var ok := ValidateInodeBlocks(fs, inode, raw.value);
    return if ok then Some(inode) else None;
  }

  /** The 60 bytes rebuilt from `inode->block[]`, least significant byte first. */
  function RootBytes(block: seq<nat>): (r: seq<byte>)
    requires forall i | 0 <= i < |block| :: block[i] < U32
    ensures |r| == 4 * |block|
  {
    seq(4 * |block|, p requires 0 <= p < 4 * |block| => Put32(block[p / 4])[p % 4])
  }

  /** Rebuilding the extent root undoes the decoding of the block array. */
  lemma RootBytesRoundTrip(number: nat, raw: seq<byte>)
    requires |raw| >= 128
    ensures RootBytes(DecodeInode(number, raw).block) == raw[40..100]
  {
    var block := DecodeInode(number, raw).block;
    forall p | 0 <= p < 60
      ensures RootBytes(block)[p] == raw[40..100][p]
    {
      var o := 40 + 4 * (p / 4);
      Put32Le(raw, o);
      assert raw[o..o + 4][p % 4] == raw[40 + p];
    }
  }

  /** The extent root handed to the walk is the one that validation checked: at most 4 entries. */
  lemma RootIsValidated(fs: Fs, number: nat)
    requires Geometry(fs) && ReadInode(fs, number).Some?
    requires var inode := ReadInode(fs, number).value; UsesExtents(inode) && inode.kind != Symlink
    ensures ExtentRootValid(fs, RootBytes(ReadInode(fs, number).value.block))
    ensures Le16(RootBytes(ReadInode(fs, number).value.block), 2) <= 4
  {
    RootBytesRoundTrip(number, RawInode(fs, number).value);
  }

  // What is read, in terms of the bytes of the record.

  /** The fields of an inode, by their places in the record. */
  lemma InodeFields(number: nat, raw: seq<byte>)
    requires |raw| >= 128
    ensures var inode := DecodeInode(number, raw);
            && inode.mode == Le16(raw, 0) && inode.flags == Le32(raw, 32) && inode.sectors == Le32(raw, 28)
            && (forall i | 0 <= i < 15 :: inode.block[i] == Le32(raw, 40 + 4 * i))
            && (inode.kind == Regular <==> inode.mode / 0x1000 == 8)
            && (inode.kind == Directory <==> inode.mode / 0x1000 == 4)
            && (inode.kind == Symlink <==> inode.mode / 0x1000 == 10)
            && inode.size == Le32(raw, 4) + (if inode.kind == Unknown then 0 else 0x1_0000_0000 * Le32(raw, 108))
  {
    KindOfMode(Le16(raw, 0));
    hide DetectKind;
  }

  lemma KindOfMode(mode: nat)
    requires mode < U16
    ensures DetectKind(mode) == Regular <==> mode / 0x1000 == 8
    ensures DetectKind(mode) == Directory <==> mode / 0x1000 == 4
    ensures DetectKind(mode) == Symlink <==> mode / 0x1000 == 10
  {
    assert mode / 0x1000 < 0x10;
  }

  /**
   * Entry `i` of the extent root in a record: a leaf entry names existing blocks, unless it starts at
   * 0 or is empty and validation passes over it; an index entry names an existing block.
   */
  predicate RootEntryInside(raw: seq<byte>, i: nat, blocksCount: nat)
    requires |raw| >= 128 && i < 4
  {
    if Le16(raw, 46) == 0 then
      var start, length := Le16(raw, 58 + 12 * i) * 0x1_0000_0000 + Le32(raw, 60 + 12 * i),
                           Le16(raw, 56 + 12 * i) % 0x8000;
      start == 0 || length == 0 || start + length <= blocksCount
    else Le16(raw, 62 + 12 * i) * 0x1_0000_0000 + Le32(raw, 56 + 12 * i) < blocksCount
  }

  /** Pointer `i` of the record is zero or names an existing block. */
  predicate PointerInside(raw: seq<byte>, i: nat, blocksCount: nat)
    requires |raw| >= 128 && i < 15
  {
    Le32(raw, 40 + 4 * i) == 0 || Le32(raw, 40 + 4 * i) < blocksCount
  }

  /**
   * An inode record is accepted exactly if it is in use and is a short symbolic link, or has a sound
   * extent root, or has only pointers to existing blocks.
   */
  lemma AcceptedInodes(fs: Fs, number: nat, raw: seq<byte>)
    requires |raw| >= 128
    ensures var inode := DecodeInode(number, raw);
            InodeBlocksValid(fs, inode, raw) <==>
            && Le16(raw, 0) != 0
            && ((inode.mode / 0x1000 == 10 && inode.size <= 60 && Le32(raw, 28) == 0)
                || (if Le32(raw, 32) / 0x8_0000 % 2 == 1
                    then
                      && Le16(raw, 40) == 0xF30A && Le16(raw, 42) <= Le16(raw, 44) && Le16(raw, 42) <= 4
                      && forall i | 0 <= i < Le16(raw, 42) :: RootEntryInside(raw, i, fs.blocksCount)
                    else forall i | 0 <= i < 15 :: PointerInside(raw, i, fs.blocksCount)))
  {
    InodeFields(number, raw);
    Masks(Le32(raw, 32));
    hide BitAnd, DecodeInode, Le16, Le32, RootEntryInside, ExtentRootValid;
    var inode := DecodeInode(number, raw);
    RootFields(fs, raw);
    forall i | 0 <= i < 15
      ensures inode.block[i] == 0 || BlockIndexValid(fs, inode.block[i]) <==> PointerInside(raw, i, fs.blocksCount)
    {
      assert inode.block[i] == Le32(raw, 40 + 4 * i);
    }
    hide PointerInside;
  }

  lemma RootFields(fs: Fs, raw: seq<byte>)
    requires |raw| >= 128
    ensures ExtentRootValid(fs, raw[40..100]) <==>
            && Le16(raw, 40) == 0xF30A && Le16(raw, 42) <= Le16(raw, 44) && Le16(raw, 42) <= 4
            && forall i | 0 <= i < Le16(raw, 42) :: RootEntryInside(raw, i, fs.blocksCount)
  {
    hide Le16, RootEntryValid, RootEntryInside;
    var root := raw[40..100];
    RootShort(raw, 0);
    RootShort(raw, 2);
    RootShort(raw, 4);
    if Le16(raw, 42) <= 4 {
      forall i | 0 <= i < Le16(raw, 42)
        ensures RootEntryValid(fs, root, i) <==> RootEntryInside(raw, i, fs.blocksCount)
      {
        RootEntryFields(fs, raw, i);
      }
    }
  }

  lemma RootShort(raw: seq<byte>, o: nat)
    requires |raw| >= 128 && o + 2 <= 60
    ensures Le16(raw[40..100], o) == Le16(raw, 40 + o)
  {
  }

  lemma RootWord(raw: seq<byte>, o: nat)
    requires |raw| >= 128 && o + 4 <= 60
    ensures Le32(raw[40..100], o) == Le32(raw, 40 + o)
  {
  }

  lemma RootEntryFields(fs: Fs, raw: seq<byte>, i: nat)
    requires |raw| >= 128 && i < 4
    ensures RootEntryValid(fs, raw[40..100], i) <==> RootEntryInside(raw, i, fs.blocksCount)
  {
    hide Le16, Le32;
    var o := 12 + 12 * i;
    RootShort(raw, 6);
    RootShort(raw, o + 4);
    RootShort(raw, o + 6);
    RootShort(raw, o + 10);
    RootWord(raw, o + 4);
    RootWord(raw, o + 8);
  }
}
