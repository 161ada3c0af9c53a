/** ext4_group.c: locating, decoding and validating group descriptors. */
module Group {
  import opened Bytes
  import opened Arithmetic
  import opened Device
  import opened Super

  datatype GroupDesc = GroupDesc(blockBitmap: nat, inodeBitmap: nat, inodeTable: nat,
                                 freeBlocksCount: nat, freeInodesCount: nat, usedDirsCount: nat, flags: nat)

  /** `descriptor_table_offset`, with its 64-bit products and sum. */
  function DescriptorOffset(fs: Fs, group: nat): Option<nat> {
    if group >= fs.groupsCount then None
    else
      var tableBlock := Wrap64(fs.sb.firstDataBlock + 1);
      if !BlockIndexValid(fs, tableBlock) then None
      else if tableBlock != 0 && fs.blockSize > U64_MAX / tableBlock then None
      else if group != 0 && fs.descSize > U64_MAX / group then None
      else
        var tableOffset := Wrap64(tableBlock * fs.blockSize);
        var entryOffset := Wrap64(group * fs.descSize);
        if tableOffset > U64_MAX - entryOffset then None
        else
          var offset := Wrap64(tableOffset + entryOffset);
          if OffsetRangeValid(offset, fs.descSize) then Some(offset) else None
  }

  function InodeTableBlocks(fs: Fs): nat {
    if fs.blockSize == 0 then 0
    else Wrap64(Wrap64(fs.sb.inodesPerGroup * fs.inodeSize) + fs.blockSize - 1) / fs.blockSize
  }

  /** `validate_group_desc` returns 0. */
  predicate DescValid(fs: Fs, desc: GroupDesc) {
    && desc.blockBitmap != 0 && desc.inodeBitmap != 0 && desc.inodeTable != 0
    && BlockIndexValid(fs, desc.blockBitmap)
    && BlockIndexValid(fs, desc.inodeBitmap)
    && BlockIndexValid(fs, desc.inodeTable)
    && BlockRangeValid(fs, desc.inodeTable, InodeTableBlocks(fs))
  }

  function DecodeDesc(fs: Fs, raw: seq<byte>): GroupDesc
    requires |raw| == fs.descSize >= 32
  {
    var wide := fs.descSize >= 64;
    GroupDesc(
      Le32(raw, 0) + U32 * (if wide then Le32(raw, 32) else 0),
      Le32(raw, 4) + U32 * (if wide then Le32(raw, 36) else 0),
      Le32(raw, 8) + U32 * (if wide then Le32(raw, 40) else 0),
      Le16(raw, 12), Le16(raw, 14), Le16(raw, 16), Le16(raw, 18))
  }

  /** `ext4_read_group_desc`. */
  function ReadGroupDesc(fs: Fs, group: nat): (r: Option<GroupDesc>)
    requires fs.descSize >= 32
    ensures r.Some? ==> DescValid(fs, r.value) && group < fs.groupsCount
  {
    match DescriptorOffset(fs, group)
    case None => None
    case Some(offset) =>
      match ReadAt(fs.dev, offset, fs.descSize)
      case None => None
      case Some(raw) =>
        var desc := DecodeDesc(fs, raw);
        if DescValid(fs, desc) then Some(desc) else None
  }

  /** No operation of the descriptor lookup wraps: the offset is the exact one. */
  lemma DescriptorOffsetIsExact(fs: Fs, group: nat)
    requires Geometry(fs) && DescriptorOffset(fs, group).Some?
    ensures DescriptorOffset(fs, group).value == (fs.sb.firstDataBlock + 1) * fs.blockSize + group * fs.descSize
  {
    var tableBlock := fs.sb.firstDataBlock + 1;
    assert Wrap64(tableBlock) == tableBlock;
    GuardedWrap(fs.blockSize, tableBlock);
    if group == 0 {
      assert Wrap64(group * fs.descSize) == group * fs.descSize == 0;
    } else {
      GuardedWrap(fs.descSize, group);
    }
    GuardedSum(Wrap64(tableBlock * fs.blockSize), Wrap64(group * fs.descSize));
  }

  lemma GuardedWrap(a: nat, b: nat)
    requires b > 0 && a <= U64_MAX / b
    ensures Wrap64(b * a) == b * a && Wrap64(a * b) == a * b
  {
    GuardedProduct(a, b, U64_MAX);
  }

  lemma GuardedSum(a: nat, b: nat)
    requires a <= U64_MAX - b
    ensures Wrap64(a + b) == a + b
  {
  }

  /** The table size in blocks is the exact rounded-up quotient: neither product nor sum wraps. */
  lemma InodeTableBlocksIsExact(fs: Fs)
    requires Geometry(fs)
    ensures InodeTableBlocks(fs) == CeilDiv(fs.sb.inodesPerGroup * fs.inodeSize, fs.blockSize)
  {
    var bytes := fs.sb.inodesPerGroup * fs.inodeSize;
    assert bytes <= U32 * 65536 by {
      MulMonotone(fs.sb.inodesPerGroup, U32, fs.inodeSize);
      MulMonotone(fs.inodeSize, 65536, U32);
    }
    CeilDivSum(bytes, fs.blockSize);
  }

  // What is read, in terms of the bytes of the descriptor.

  /** A block number in a descriptor: its low half, and its high half in descriptors of 64 bytes or more. */
  function Half(raw: seq<byte>, low: nat, high: nat): nat
    requires |raw| >= 32 && low + 4 <= 32 && high + 4 <= 64
  {
    Le32(raw, low) + if |raw| >= 64 then 0x1_0000_0000 * Le32(raw, high) else 0
  }

  /** The bytes of the descriptor of `group`, at their exact place. */
  function DescriptorAt(fs: Fs, group: nat): Option<seq<byte>> {
    ReadAt(fs.dev, (fs.sb.firstDataBlock + 1) * fs.blockSize + group * fs.descSize, fs.descSize)
  }

  /** The three block numbers of a descriptor are put together from these bytes. */
  lemma DecodedHalves(fs: Fs, raw: seq<byte>)
    requires |raw| == fs.descSize >= 32
    ensures var desc := DecodeDesc(fs, raw);
            && desc.blockBitmap == Half(raw, 0, 32) && desc.inodeBitmap == Half(raw, 4, 36)
            && desc.inodeTable == Half(raw, 8, 40)
  {
    hide Le16, Le32;
  }

  lemma ValidExactly(fs: Fs, desc: GroupDesc)
    requires InodeTableBlocks(fs) > 0
    ensures DescValid(fs, desc) <==>
            && 0 < desc.blockBitmap < fs.blocksCount && 0 < desc.inodeBitmap < fs.blocksCount
            && 0 < desc.inodeTable && desc.inodeTable + InodeTableBlocks(fs) <= fs.blocksCount
  {
    hide InodeTableBlocks;
  }

  lemma TableBlocks(fs: Fs)
    requires Geometry(fs)
    ensures InodeTableBlocks(fs) == CeilDiv(fs.sb.inodesPerGroup * fs.inodeSize, fs.blockSize) > 0
  {
    InodeTableBlocksIsExact(fs);
    MulMonotone(1, fs.sb.inodesPerGroup, fs.inodeSize);
    CeilDivPositive(fs.sb.inodesPerGroup * fs.inodeSize, fs.blockSize);
  }

  /** The bytes `raw` are those of an acceptable descriptor. */
  ghost predicate Acceptable(fs: Fs, raw: seq<byte>)
    requires |raw| >= 32 && fs.blockSize > 0
  {
    && 0 < Half(raw, 0, 32) < fs.blocksCount && 0 < Half(raw, 4, 36) < fs.blocksCount && 0 < Half(raw, 8, 40)
    && Half(raw, 8, 40) + CeilDiv(fs.sb.inodesPerGroup * fs.inodeSize, fs.blockSize) <= fs.blocksCount
  }

  lemma AcceptableIsValid(fs: Fs, raw: seq<byte>)
    requires Geometry(fs) && |raw| == fs.descSize
    ensures DescValid(fs, DecodeDesc(fs, raw)) <==> Acceptable(fs, raw)
  {
    TableBlocks(fs);
    DecodedHalves(fs, raw);
    ValidExactly(fs, DecodeDesc(fs, raw));
    hide DescValid, DecodeDesc, Half, CeilDiv, InodeTableBlocks;
  }

  /**
   * The descriptor of a group is accepted exactly if its bytes can be read, its two bitmaps are
   * existing blocks other than 0, and its inode table starts past block 0 and ends within the
   * filesystem; the table it names is then the one in bytes 8 to 11 and 40 to 43.
   */
  lemma DescriptorExactly(fs: Fs, group: nat)
    requires Geometry(fs) && group < fs.groupsCount
    ensures ReadGroupDesc(fs, group).Some? <==>
            && fs.sb.firstDataBlock + 1 < fs.blocksCount && DescriptorAt(fs, group).Some?
            && Acceptable(fs, DescriptorAt(fs, group).value)
    ensures ReadGroupDesc(fs, group).Some? ==>
              DescriptorAt(fs, group).Some? &&
              ReadGroupDesc(fs, group).value.inodeTable == Half(DescriptorAt(fs, group).value, 8, 40)
  {
    PlaceExactly(fs, group);
    hide ReadAt, DescriptorOffset, DescValid, DecodeDesc, Half, Acceptable;
    if DescriptorAt(fs, group).Some? {
      AcceptableIsValid(fs, DescriptorAt(fs, group).value);
      DecodedHalves(fs, DescriptorAt(fs, group).value);
    }
  }

  /** The place of a descriptor is the exact one, and is refused only if it cannot be read anyway. */
  lemma PlaceExactly(fs: Fs, group: nat)
    requires Geometry(fs) && group < fs.groupsCount
    ensures DescriptorOffset(fs, group).Some? ==>
              && fs.sb.firstDataBlock + 1 < fs.blocksCount
              && DescriptorOffset(fs, group).value ==
                 (fs.sb.firstDataBlock + 1) * fs.blockSize + group * fs.descSize
    ensures DescriptorOffset(fs, group).None? ==>
              fs.sb.firstDataBlock + 1 >= fs.blocksCount || DescriptorAt(fs, group).None?
  {
    if DescriptorOffset(fs, group).Some? {
      DescriptorOffsetIsExact(fs, group);
    } else {
      var tableBlock := fs.sb.firstDataBlock + 1;
      MulMonotone(tableBlock, U32, fs.blockSize);
      MulMonotone(group, U32, fs.descSize);
      QuotientBound(U64_MAX, tableBlock, fs.blockSize);
      if group > 0 {
        QuotientBound(U64_MAX, group, fs.descSize);
      }
      assert tableBlock * fs.blockSize <= U32 * 65536 && group * fs.descSize <= U32 * 65536;
    }
  }
}
