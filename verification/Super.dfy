/** ext4_super.c: decoding and validating the superblock, and the geometry derived from it. */
module Super {
  import opened Bytes
  import opened Arithmetic
  import opened Device

  const SUPERBLOCK_OFFSET: nat := 1024
  const SUPERBLOCK_SIZE: nat := 1024
  const SUPER_MAGIC: nat := 0xEF53
  const MIN_BLOCK_SIZE: nat := 1024
  const MAX_BLOCK_SIZE: nat := 65536
  const GOOD_OLD_INODE_SIZE: nat := 128
  const GOOD_OLD_DESC_SIZE: nat := 32
  const INCOMPAT_FILETYPE: nat := 0x0002
  const INCOMPAT_64BIT: nat := 0x0080
  const RO_COMPAT_METADATA_CSUM: nat := 0x0400

  datatype Superblock = Superblock(
    inodesCount: nat, blocksCountLo: nat, rBlocksCountLo: nat, freeBlocksCountLo: nat,
    freeInodesCount: nat, firstDataBlock: nat, logBlockSize: nat, logClusterSize: nat,
    blocksPerGroup: nat, clustersPerGroup: nat, inodesPerGroup: nat, mtime: nat, wtime: nat,
    magic: nat, lastcheck: nat, revLevel: nat, firstIno: nat, inodeSize: nat,
    featureCompat: nat, featureIncompat: nat, featureRoCompat: nat, uuid: seq<byte>,
    descSize: nat, mkfsTime: nat, blocksCountHi: nat, rBlocksCountHi: nat,
    freeBlocksCountHi: nat, checksum: nat)

  /** The field reads of `ext4_read_superblock_at` on its buffer. */
  function Decode(raw: seq<byte>): Superblock
    requires |raw| == SUPERBLOCK_SIZE
  {
    Superblock(
      Le32(raw, 0), Le32(raw, 4), Le32(raw, 8), Le32(raw, 12),
      Le32(raw, 16), Le32(raw, 20), Le32(raw, 24), Le32(raw, 28),
      Le32(raw, 32), Le32(raw, 36), Le32(raw, 40), Le32(raw, 44), Le32(raw, 48),
      Le16(raw, 56), Le32(raw, 64), Le32(raw, 76), Le32(raw, 84), Le16(raw, 88),
      Le32(raw, 92), Le32(raw, 96), Le32(raw, 100), raw[104..120],
      Le16(raw, 254), Le32(raw, 264), Le32(raw, 336), Le32(raw, 340),
      Le32(raw, 344), Le32(raw, 1020))
  }

  function BlockSize(sb: Superblock): nat {
    if sb.logBlockSize > 6 then 0 else MIN_BLOCK_SIZE * Pow(2, sb.logBlockSize)
  }

  function BlocksCount(sb: Superblock): nat {
    if BitAnd(sb.featureIncompat, INCOMPAT_64BIT) != 0 || sb.blocksCountHi != 0
    then sb.blocksCountLo + sb.blocksCountHi * U32
    else sb.blocksCountLo
  }

  function InodeSize(sb: Superblock): nat {
    if sb.inodeSize == 0 then GOOD_OLD_INODE_SIZE else sb.inodeSize
  }

  function DescSize(sb: Superblock): nat {
    if BitAnd(sb.featureIncompat, INCOMPAT_64BIT) == 0 then GOOD_OLD_DESC_SIZE
    else if sb.descSize == 0 then 64
    else sb.descSize
  }

  /** `ext4_validate_superblock` returns 0. */
  predicate Validate(sb: Superblock) {
    && sb.magic == SUPER_MAGIC
    && MIN_BLOCK_SIZE <= BlockSize(sb) <= MAX_BLOCK_SIZE
    && BlocksCount(sb) != 0 && sb.inodesCount != 0
    && sb.blocksPerGroup != 0 && sb.inodesPerGroup != 0
    && GOOD_OLD_INODE_SIZE <= InodeSize(sb) <= BlockSize(sb)
    && BitAnd(InodeSize(sb), InodeSize(sb) - 1) == 0
    && GOOD_OLD_DESC_SIZE <= DescSize(sb) <= BlockSize(sb)
    && DescSize(sb) % 8 == 0
  }

  /** `calculate_group_count`: the sum is taken in 64 bits and may wrap. */
  function GroupCount(blocksCount: nat, blocksPerGroup: nat): Option<nat> {
    if blocksPerGroup == 0 then None
    else
      var groups := Wrap64(blocksCount + blocksPerGroup - 1) / blocksPerGroup;
      if groups == 0 || groups > U32_MAX then None else Some(groups)
  }

  /**
   * Despite the wrap-around the group count is the exact rounded-up quotient, and it is refused
   * for exactly the quotients outside 1 .. 2^32 - 1: a sum that wraps leaves a remainder below
   * one group, so it always reads as quotient zero.
   */
  lemma GroupCountIsExact(blocksCount: nat, blocksPerGroup: nat)
    requires blocksCount < U64 && blocksPerGroup < U32
    ensures GroupCount(blocksCount, blocksPerGroup) ==
            if blocksPerGroup == 0 || !(1 <= CeilDiv(blocksCount, blocksPerGroup) <= U32_MAX) then None
            else Some(CeilDiv(blocksCount, blocksPerGroup))
    ensures GroupCount(blocksCount, blocksPerGroup).Some? ==>
              var g := GroupCount(blocksCount, blocksPerGroup).value;
              1 <= g <= U32_MAX && (g - 1) * blocksPerGroup < blocksCount <= g * blocksPerGroup
  {
    if blocksPerGroup > 0 {
      var sum := blocksCount + blocksPerGroup - 1;
      CeilDivSum(blocksCount, blocksPerGroup);
      CeilDivBounds(blocksCount, blocksPerGroup);
      if sum >= U64 {
        DivUnique(sum - U64, blocksPerGroup, 0, sum - U64);
        assert Wrap64(sum) == sum - U64;
        QuotientBound(sum, blocksPerGroup, U32);
        MulMonotone(blocksPerGroup, U32 - 1, U32);
      }
    }
  }

  datatype Fs = Fs(dev: Device, sb: Superblock, blockSize: nat, blocksCount: nat,
                   groupsCount: nat, inodeSize: nat, descSize: nat)

  function ReadSuperblock(dev: Device, offset: nat): Option<seq<byte>> {
    ReadAt(dev, offset, SUPERBLOCK_SIZE)
  }

  /** `ext4_fs_open` on an image that could be opened. */
  function OpenFs(dev: Device): Option<Fs> {
    match ReadSuperblock(dev, SUPERBLOCK_OFFSET)
    case None => None
    case Some(raw) =>
      var sb := Decode(raw);
      if !Validate(sb) then None
      else
        match GroupCount(BlocksCount(sb), sb.blocksPerGroup)
        case None => None
        case Some(groups) =>
          Some(Fs(dev, sb, BlockSize(sb), BlocksCount(sb), groups, InodeSize(sb), DescSize(sb)))
  }

  /** `fs` was filled in by `ext4_fs_open`. */
  ghost predicate Opened(fs: Fs) {
    OpenFs(fs.dev) == Some(fs)
  }

  predicate BlockIndexValid(fs: Fs, index: nat) {
    index < fs.blocksCount
  }

  predicate BlockRangeValid(fs: Fs, start: nat, count: nat) {
    count != 0 && start < fs.blocksCount && count <= fs.blocksCount - start
  }

  predicate OffsetRangeValid(offset: nat, size: nat) {
    offset <= LLONG_MAX && size <= LLONG_MAX && offset <= LLONG_MAX - size
  }

  /** The geometry every later computation relies on. */
  ghost predicate Geometry(fs: Fs) {
    && 1024 <= fs.blockSize <= 65536 && IsPowerOfTwo(fs.blockSize)
    && 128 <= fs.inodeSize <= fs.blockSize && IsPowerOfTwo(fs.inodeSize)
    && 32 <= fs.descSize <= fs.blockSize && fs.descSize % 8 == 0
    && 0 < fs.blocksCount < U64 && 0 < fs.groupsCount < U32
    && 0 < fs.sb.inodesCount < U32 && 0 < fs.sb.inodesPerGroup < U32
    && fs.sb.firstDataBlock < U32
  }

  /** `ext4_fs_open` establishes the geometry. */
  lemma OpenedGeometry(fs: Fs)
    requires Opened(fs)
    ensures Geometry(fs)
  {
    BitTrick(fs.inodeSize);
    PowAdd(2, 10, fs.sb.logBlockSize);
    PowersOfTwo();
    assert fs.blockSize == Pow(2, 10 + fs.sb.logBlockSize);
  }

  /** An inode record never straddles blocks: its size divides the block size. */
  lemma InodeSizeDivides(fs: Fs) returns (m: nat)
    requires Geometry(fs)
    ensures fs.blockSize == m * fs.inodeSize
  {
    var j: nat :| fs.inodeSize == Pow(2, j);
    var k: nat :| fs.blockSize == Pow(2, k);
    PowDivides(2, j, k);
    m :| Pow(2, k) == m * Pow(2, j);
  }

  // Opening, in terms of the bytes of the superblock.

  /** The 64-bit feature, bit 7 of the incompatible features. */
  predicate Wide(raw: seq<byte>)
    requires |raw| == 1024
  {
    Le32(raw, 96) / 0x80 % 2 == 1
  }

  /** The sizes that a superblock asks for: an inode size of 0 stands for 128, a descriptor size of 0 for 64. */
  function InodeBytes(raw: seq<byte>): nat
    requires |raw| == 1024
  {
    if Le16(raw, 88) == 0 then 128 else Le16(raw, 88)
  }

  function DescBytes(raw: seq<byte>): nat
    requires |raw| == 1024
  {
    if !Wide(raw) then 32 else if Le16(raw, 254) == 0 then 64 else Le16(raw, 254)
  }

  lemma SuperSizes(raw: seq<byte>)
    requires |raw| == 1024
    ensures var sb := Decode(raw);
            && InodeSize(sb) == InodeBytes(raw) && DescSize(sb) == DescBytes(raw)
            && BlocksCount(sb) == Le32(raw, 4) + 0x1_0000_0000 * Le32(raw, 336)
            && (BlockSize(sb) == if Le32(raw, 24) > 6 then 0 else 1024 * Pow(2, Le32(raw, 24)))
            && sb.inodesCount == Le32(raw, 0) && sb.firstDataBlock == Le32(raw, 20)
            && sb.blocksPerGroup == Le32(raw, 32) && sb.inodesPerGroup == Le32(raw, 40)
            && sb.magic == Le16(raw, 56) && sb.featureIncompat == Le32(raw, 96)
            && sb.featureRoCompat == Le32(raw, 100) && sb.checksum == Le32(raw, 1020)
  {
    Masks(Le32(raw, 96));
    hide BitAnd, Le16, Le32;
  }

  lemma SmallPowers(k: nat)
    requires k <= 6
    ensures 1 <= Pow(2, k) <= 64
  {
    PowPositive(2, k);
    PowersOfTwo();
    PowAdd(2, 4, 2);
    assert Pow(2, 2) == 4;
    if k < 6 {
      PowGrows(2, k, 6);
    }
  }

  /** A superblock passes structural validation exactly under these conditions on its fields. */
  lemma ValidatesExactly(raw: seq<byte>)
    requires |raw| == 1024
    ensures Validate(Decode(raw)) <==>
            && Le16(raw, 56) == 0xEF53 && Le32(raw, 24) <= 6
            && Le32(raw, 4) + 0x1_0000_0000 * Le32(raw, 336) != 0 && Le32(raw, 0) != 0
            && Le32(raw, 32) != 0 && Le32(raw, 40) != 0
            && 128 <= InodeBytes(raw) <= 1024 * Pow(2, Le32(raw, 24)) && IsPowerOfTwo(InodeBytes(raw))
            && 32 <= DescBytes(raw) <= 1024 * Pow(2, Le32(raw, 24)) && DescBytes(raw) % 8 == 0
  {
    SuperSizes(raw);
    BitTrick(InodeBytes(raw));
    if Le32(raw, 24) <= 6 {
      SmallPowers(Le32(raw, 24));
    }
    hide BitAnd, Le16, Le32, Decode, InodeBytes, DescBytes, InodeSize, DescSize, BlocksCount, BlockSize, Pow;
  }

  /** An image opens exactly if its superblock is valid and the number of groups fits 32 bits; with this geometry. */
  lemma OpensExactly(dev: Device, raw: seq<byte>)
    requires |raw| == 1024 && ReadAt(dev, 1024, 1024) == Some(raw)
    ensures OpenFs(dev).Some? <==>
            && Validate(Decode(raw)) && Le32(raw, 32) != 0
            && CeilDiv(Le32(raw, 4) + 0x1_0000_0000 * Le32(raw, 336), Le32(raw, 32)) < 0x1_0000_0000
    ensures OpenFs(dev).Some? ==>
              var fs := OpenFs(dev).value;
              && fs.dev == dev && fs.sb == Decode(raw) && fs.blockSize == 1024 * Pow(2, Le32(raw, 24))
              && fs.blocksCount == Le32(raw, 4) + 0x1_0000_0000 * Le32(raw, 336) && Le32(raw, 32) != 0
              && fs.groupsCount == CeilDiv(fs.blocksCount, Le32(raw, 32))
              && fs.inodeSize == InodeBytes(raw) && fs.descSize == DescBytes(raw)
  {
    hide Le16, Le32, Decode, InodeBytes, DescBytes, InodeSize, DescSize, BlocksCount, BlockSize, Pow, Validate;
    hide ReadAt, GroupCount, CeilDiv;
    SuperSizes(raw);
    ValidatesExactly(raw);
    var blocks, perGroup := Le32(raw, 4) + 0x1_0000_0000 * Le32(raw, 336), Le32(raw, 32);
    GroupCountIsExact(blocks, perGroup);
    if perGroup != 0 && blocks != 0 {
      CeilDivPositive(blocks, perGroup);
    }
  }

  lemma CeilDivPositive(x: nat, c: nat)
    requires x > 0 && c > 0
    ensures CeilDiv(x, c) >= 1
  {
  }

  /** A superblock holds these field values where `put_le32` and `put_le16` leave them. */
  ghost predicate Written(raw: seq<byte>, inodes: nat, blocks: nat, first: nat, log: nat, perGroup: nat,
                          inodesPerGroup: nat, features: nat)
    requires inodes < U32 && blocks < U32 && first < U32 && log < U32
    requires perGroup < U32 && inodesPerGroup < U32 && features < U32
  {
    && |raw| == 1024
    && raw[0..4] == Put32(inodes) && raw[4..8] == Put32(blocks) && raw[20..24] == Put32(first)
    && raw[24..28] == Put32(log) && raw[32..36] == Put32(perGroup) && raw[40..44] == Put32(inodesPerGroup)
    && raw[56..58] == Put16(0xEF53) && raw[88..90] == Put16(256) && raw[96..100] == Put32(features)
    && raw[254..256] == Put16(64) && raw[336..340] == Put32(0)
  }

  lemma WrittenFields(raw: seq<byte>, inodes: nat, blocks: nat, first: nat, log: nat, perGroup: nat,
                      inodesPerGroup: nat, features: nat)
    requires inodes < U32 && blocks < U32 && first < U32 && log < U32
    requires perGroup < U32 && inodesPerGroup < U32 && features < U32
    requires Written(raw, inodes, blocks, first, log, perGroup, inodesPerGroup, features)
    ensures Le32(raw, 0) == inodes && Le32(raw, 4) == blocks && Le32(raw, 20) == first && Le32(raw, 24) == log
    ensures Le32(raw, 32) == perGroup && Le32(raw, 40) == inodesPerGroup && Le32(raw, 96) == features
    ensures Le16(raw, 56) == 0xEF53 && Le16(raw, 88) == 256 && Le16(raw, 254) == 64 && Le32(raw, 336) == 0
  {
    hide Le16, Le32, Put16, Put32;
    Le32Put(raw, 0, inodes);
    Le32Put(raw, 4, blocks);
    Le32Put(raw, 20, first);
    Le32Put(raw, 24, log);
    Le32Put(raw, 32, perGroup);
    Le32Put(raw, 40, inodesPerGroup);
    Le16Put(raw, 56, 0xEF53);
    Le16Put(raw, 88, 256);
    Le32Put(raw, 96, features);
    Le16Put(raw, 254, 64);
    Le32Put(raw, 336, 0);
  }

  /** A superblock written field by field, with 256-byte inodes and 64-byte descriptors, opens as written. */
  lemma WrittenSuperblockOpens(dev: Device, raw: seq<byte>, inodes: nat, blocks: nat, first: nat, log: nat,
                               perGroup: nat, inodesPerGroup: nat, features: nat)
    requires 0 < inodes < U32 && 0 < blocks < U32 && first < U32 && log <= 6 && features < U32
    requires 0 < perGroup < U32 && 0 < inodesPerGroup < U32 && features / 0x80 % 2 == 1
    requires Written(raw, inodes, blocks, first, log, perGroup, inodesPerGroup, features)
    requires ReadAt(dev, 1024, 1024) == Some(raw)
    ensures OpenFs(dev).Some?
    ensures var fs := OpenFs(dev).value;
            && fs.blockSize == 1024 * Pow(2, log) && fs.blocksCount == blocks
            && fs.inodeSize == 256 && fs.descSize == 64
            && fs.groupsCount == CeilDiv(blocks, perGroup) && fs.sb.inodesCount == inodes
            && fs.sb.firstDataBlock == first && fs.sb.inodesPerGroup == inodesPerGroup
            && fs.sb.featureIncompat == features
  {
    WrittenFields(raw, inodes, blocks, first, log, perGroup, inodesPerGroup, features);
    WrittenIsValid(raw);
    FewGroups(blocks, perGroup);
    OpensExactly(dev, raw);
    SuperSizes(raw);
    hide *;
  }

  lemma WrittenIsValid(raw: seq<byte>)
    requires |raw| == 1024 && Le16(raw, 56) == 0xEF53 && Le32(raw, 24) <= 6
    requires Le32(raw, 0) != 0 && Le32(raw, 4) != 0 && Le32(raw, 32) != 0 && Le32(raw, 40) != 0
    requires Wide(raw) && Le16(raw, 88) == 256 && Le16(raw, 254) == 64
    ensures Validate(Decode(raw)) && InodeBytes(raw) == 256 && DescBytes(raw) == 64
  {
    hide Le16, Le32, Decode, Validate, Pow, Wide;
    ValidatesExactly(raw);
    SmallPowers(Le32(raw, 24));
    PowersOfTwo();
    assert IsPowerOfTwo(256) by {
      assert 256 == Pow(2, 8);
    }
  }

  lemma FewGroups(blocks: nat, perGroup: nat)
    requires 0 < blocks < U32 && perGroup > 0
    ensures CeilDiv(blocks, perGroup) < U32
  {
    QuotientBound(blocks - 1, perGroup, (blocks - 1) / perGroup);
    MulMonotone(1, perGroup, (blocks - 1) / perGroup);
  }
}
