/**
 * Images with blocks of 1024 and 2048 bytes whose root directory makes the extent walk leave its
 * node: the exact limit of what `ext4_fs_open` and the validation of inodes guarantee.
 */
module OverrunImage {
  import opened Bytes
  import opened Arithmetic
  import opened Device
  import opened Super
  import opened Group
  import opened Inode
  import opened Extent

  // Blocks of 1024 * (1 + k) bytes: descriptors in block 2, inodes in block 3, the full leaf in block 4.

  function SuperByte(k: nat, p: nat): byte
    requires k < 2
  {
    if p == 0 || p == 40 then 2 else if p == 4 || p == 32 then 5 else if p == 20 then 1
    else if p == 24 then k else if p == 56 then 0x53 else if p == 57 then 0xEF else 0
  }

  function DescByte(p: nat): byte {
    if p == 0 || p == 4 then 1 else if p == 8 then 3 else 0
  }

  /** A directory of one block whose extent root has height 1 and points at block 4. */
  function InodeByte(p: nat): byte {
    if p == 1 then 0x40 else if p == 5 || p == 44 || p == 56 then 4 else if p == 34 then 8
    else if p == 40 then 0x0A else if p == 41 then 0xF3 else if p == 42 || p == 46 then 1 else 0
  }

  function ImageByte(k: nat, p: nat): byte
    requires k < 2
  {
    var size := 1024 * (1 + k);
    if 1024 <= p < 2048 then SuperByte(k, p - 1024)
    else if 2 * size <= p < 2 * size + 32 then DescByte(p - 2 * size)
    else if 3 * size + 128 <= p < 3 * size + 256 then InodeByte(p - (3 * size + 128))
    else if 4 * size <= p then FullByte(p - 4 * size)
    else 0
  }

  function Image(k: nat): (r: Device)
    requires k < 2
    ensures |r.bytes| == 5 * 1024 * (1 + k)
  {
    Device(seq(5 * 1024 * (1 + k), p requires 0 <= p < 5 * 1024 * (1 + k) => ImageByte(k, p)), {})
  }

  lemma ImageAt(k: nat, offset: nat, size: nat)
    requires k < 2 && offset + size <= 5 * 1024 * (1 + k)
    ensures ReadAt(Image(k), offset, size).Some?
    ensures forall p | 0 <= p < size :: ReadAt(Image(k), offset, size).value[p] == ImageByte(k, offset + p)
  {
    hide ImageByte;
  }

  function SuperBytes(k: nat): (r: seq<byte>)
    requires k < 2
    ensures |r| == SUPERBLOCK_SIZE
  {
    seq(SUPERBLOCK_SIZE, p requires 0 <= p < SUPERBLOCK_SIZE => SuperByte(k, p))
  }

  lemma SuperFields(k: nat)
    requires k < 2
    ensures var sb := Decode(SuperBytes(k));
            && sb.inodesCount == 2 && sb.blocksCountLo == 5 && sb.firstDataBlock == 1 && sb.logBlockSize == k
            && sb.blocksPerGroup == 5 && sb.inodesPerGroup == 2 && sb.magic == SUPER_MAGIC && sb.inodeSize == 0
            && sb.featureIncompat == 0 && sb.descSize == 0 && sb.blocksCountHi == 0
  {
  }

  function Small(k: nat): Fs
    requires k < 2
  {
    Fs(Image(k), Decode(SuperBytes(k)), 1024 * (1 + k), 5, 1, 128, 32)
  }

  lemma SmallOpens(k: nat)
    requires k < 2
    ensures Opened(Small(k)) && Geometry(Small(k))
  {
    hide Decode, ImageByte;
    SuperFields(k);
    SuperRead(k);
    assert 128 == Pow(2, 7);
    BitTrick(128);
    assert OpenFs(Image(k)) == Some(Small(k));
    OpenedGeometry(Small(k));
  }

  lemma SuperRead(k: nat)
    requires k < 2
    ensures ReadSuperblock(Image(k), SUPERBLOCK_OFFSET) == Some(SuperBytes(k))
  {
    hide Image, SuperByte;
    ImageAt(k, SUPERBLOCK_OFFSET, SUPERBLOCK_SIZE);
    assert ReadAt(Image(k), SUPERBLOCK_OFFSET, SUPERBLOCK_SIZE).value == SuperBytes(k);
  }

  lemma SmallDescriptor(k: nat)
    requires k < 2
    ensures ReadGroupDesc(Small(k), 0).Some? && ReadGroupDesc(Small(k), 0).value.inodeTable == 3
  {
    hide Decode, DecodeDesc, DescriptorOffset, InodeTableBlocks, ReadAt, Image;
    var fs := Small(k);
    DescriptorRead(k);
    DescriptorFields(fs, DescBytes());
    SmallTable(k);
  }

  function DescBytes(): (r: seq<byte>)
    ensures |r| == 32
  {
    seq(32, p requires 0 <= p < 32 => DescByte(p))
  }

  lemma SmallTable(k: nat)
    requires k < 2
    ensures DescriptorOffset(Small(k), 0) == Some(2 * 1024 * (1 + k)) && InodeTableBlocks(Small(k)) == 1
  {
    hide Decode, Image;
    SuperFields(k);
  }

  lemma DescriptorFields(fs: Fs, raw: seq<byte>)
    requires fs.descSize == 32 && raw == DescBytes()
    ensures var desc := DecodeDesc(fs, raw);
            desc.blockBitmap == 1 && desc.inodeBitmap == 1 && desc.inodeTable == 3
  {
  }

  lemma DescriptorRead(k: nat)
    requires k < 2
    ensures ReadAt(Image(k), 2 * 1024 * (1 + k), 32) == Some(DescBytes())
  {
    hide Image, DescByte;
    var offset := 2 * 1024 * (1 + k);
    ImageAt(k, offset, 32);
    assert ReadAt(Image(k), offset, 32).value == DescBytes();
  }

  lemma RootAddress(k: nat)
    requires k < 2
    ensures Geometry(Small(k)) && InodeOffset(Small(k), 2) == Some(3 * 1024 * (1 + k) + 128)
  {
    hide Decode, ReadGroupDesc, Image, Opened, Geometry, InodeOffset;
    SmallOpens(k);
    SuperFields(k);
    SmallDescriptor(k);
    SecondInode(Small(k));
  }

  lemma SecondInode(fs: Fs)
    requires fs.descSize == 32 && fs.inodeSize == 128 && fs.sb.inodesPerGroup == 2 && 1024 <= fs.blockSize <= 2048
    requires fs.groupsCount == 1 && ReadGroupDesc(fs, 0).Some? && ReadGroupDesc(fs, 0).value.inodeTable == 3
    ensures InodeOffset(fs, 2) == Some(3 * fs.blockSize + 128)
  {
    hide ReadGroupDesc;
  }

  function RootInode(): (r: seq<byte>)
    ensures |r| == 128
  {
    seq(128, p requires 0 <= p < 128 => InodeByte(p))
  }

  lemma RootRead(k: nat)
    requires k < 2
    ensures Geometry(Small(k)) && RawInode(Small(k), 2) == Some(RootInode())
  {
    hide Decode, InodeOffset, Image, InodeByte;
    SuperFields(k);
    RootAddress(k);
    var offset := 3 * 1024 * (1 + k) + 128;
    ImageAt(k, offset, 128);
    assert ReadAt(Image(k), offset, 128).value == RootInode();
  }

  lemma RootFields()
    ensures var inode := DecodeInode(2, RootInode());
            inode.kind == Directory && inode.mode != 0 && inode.size == 1024 && UsesExtents(inode)
  {
    hide BitAnd, InodeByte;
    BitAndSelf(EXTENTS_FL);
    assert forall p | 0 <= p < 128 :: RootInode()[p] == InodeByte(p);
    RootFieldBytes();
  }

  lemma RootFieldBytes()
    ensures InodeByte(0) == 0 && InodeByte(1) == 0x40 && InodeByte(4) == 0 && InodeByte(5) == 4
    ensures InodeByte(6) == InodeByte(7) == InodeByte(32) == InodeByte(33) == 0 && InodeByte(34) == 8
    ensures InodeByte(35) == InodeByte(108) == InodeByte(109) == InodeByte(110) == InodeByte(111) == 0
  {
  }

  lemma RootHeader()
    ensures var root := RootInode()[40..100];
            && Le16(root, 0) == EXTENT_HEADER_MAGIC && Le16(root, 2) == 1 && Le16(root, 4) == 4 && Le16(root, 6) == 1
            && ChildBlock(root, 0) == 4
  {
    hide InodeByte;
    var root := RootInode()[40..100];
    assert forall p | 0 <= p < 24 :: root[p] == InodeByte(40 + p);
    RootHeaderBytes();
  }

  lemma RootHeaderBytes()
    ensures InodeByte(40) == 0x0A && InodeByte(41) == 0xF3 && InodeByte(42) == 1 && InodeByte(43) == 0
    ensures InodeByte(44) == 4 && InodeByte(45) == 0 && InodeByte(46) == 1 && InodeByte(47) == 0
    ensures InodeByte(56) == 4 && InodeByte(57) == InodeByte(58) == InodeByte(59) == 0
    ensures InodeByte(62) == InodeByte(63) == 0
  {
  }

  /** The root directory of the image can be read. */
  lemma RootReads(k: nat)
    requires k < 2
    ensures Geometry(Small(k)) && ReadInode(Small(k), 2) == Some(DecodeInode(2, RootInode()))
  {
    hide RawInode, DecodeInode, RootInode, ChildBlock, Decode, UsesExtents;
    RootRead(k);
    RootFields();
    RootHeader();
  }

  lemma LeafRead(k: nat)
    requires k < 2
    ensures ReadBlock(Image(k), 1024 * (1 + k), 4) == Some(FullLeaf(1024 * (1 + k)))
  {
    hide Image, ImageByte, FullByte;
    var size := 1024 * (1 + k);
    ReadBlockIsReadAt(Image(k), size, 4);
    ImageAt(k, 4 * size, size);
    LeafBytes(k);
    assert ReadAt(Image(k), 4 * size, size).value == FullLeaf(size);
  }

  lemma LeafBytes(k: nat)
    requires k < 2
    ensures forall p | 0 <= p < 1024 * (1 + k) :: ImageByte(k, 4 * 1024 * (1 + k) + p) == FullByte(p)
  {
    hide FullByte;
  }

  /** Listing the root directory makes the walk leave the leaf in block 4. */
  lemma RootOverruns(k: nat)
    requires k < 2
    ensures Opened(Small(k)) && Geometry(Small(k)) && !Contained(Small(k), 2)
  {
    hide DecodeInode, RootInode, ReadInode, Decode, Image, FullLeaf, WalkLeaf, ChildBlock, RootBytes;
    var fs := Small(k);
    SmallOpens(k);
    RootReads(k);
    RootFields();
    RootHeader();
    RootBytesRoundTrip(2, RootInode());
    LeafRead(k);
    FullLeafOverruns(fs);
    assert WalkChild(fs, 4, 0).end == Overrun;
  }

  /**
   * Opening a filesystem and validating its inodes keeps every directory walk inside its nodes
   * exactly when blocks have at least 4096 bytes.
   */
  lemma SmallBlocksOverrun(blockSize: nat)
    requires 1024 <= blockSize <= 65536 && IsPowerOfTwo(blockSize)
    ensures (forall fs: Fs, n: nat | Opened(fs) && Geometry(fs) && fs.blockSize == blockSize :: Contained(fs, n)) <==>
            blockSize >= 4096
  {
    hide Contained, Opened, Geometry, ReadInode;
    if blockSize >= 4096 {
      forall fs: Fs, n: nat | Opened(fs) && Geometry(fs) && fs.blockSize == blockSize
        ensures Contained(fs, n)
      {
        DirectoryContained(fs, n);
      }
    } else {
      BelowFourThousand(blockSize);
      RootOverruns(if blockSize == 1024 then 0 else 1);
    }
  }

  lemma BelowFourThousand(blockSize: nat)
    requires 1024 <= blockSize < 4096 && IsPowerOfTwo(blockSize)
    ensures blockSize == 1024 || blockSize == 2048
  {
    var j: nat :| blockSize == Pow(2, j);
    PowersOfTwo();
    assert Pow(2, 11) == 2048 && Pow(2, 12) == 4096;
    if j < 10 {
      PowGrows(2, j, 10);
    } else if j > 12 {
      PowGrows(2, 12, j);
    }
  }
}
