/** Where inode records lie: containment, block alignment and disjointness of their bytes. */
module InodeAddress {
  import opened Bytes
  import opened Arithmetic
  import opened Device
  import opened Super
  import opened Group
  import opened Inode

  /** Group and slot of an inode number. */
  function GroupOf(fs: Fs, number: nat): nat
    requires number >= 1 && fs.sb.inodesPerGroup > 0
  {
    ZeroBased(number) / fs.sb.inodesPerGroup
  }

  function SlotOf(fs: Fs, number: nat): nat
    requires number >= 1 && fs.sb.inodesPerGroup > 0
  {
    ZeroBased(number) % fs.sb.inodesPerGroup
  }

  ghost predicate Accepted(fs: Fs, number: nat) {
    Geometry(fs) && 1 <= number <= fs.sb.inodesCount && InodeOffset(fs, number).Some?
  }

  /** The table block that the descriptor of the inode's group names. */
  ghost function TableOf(fs: Fs, number: nat): (table: nat)
    requires Accepted(fs, number)
    ensures table + InodeTableBlocks(fs) <= fs.blocksCount
  {
    ReadGroupDesc(fs, GroupOf(fs, number)).value.inodeTable
  }

  /** No operation of the address computation wraps: the offset is the exact one. */
  lemma OffsetIsExact(fs: Fs, number: nat)
    requires Accepted(fs, number)
    ensures InodeOffset(fs, number).value ==
            TableOf(fs, number) * fs.blockSize + SlotOf(fs, number) * fs.inodeSize
    ensures InodeOffset(fs, number).value + fs.inodeSize <= LLONG_MAX
  {
    GuardedWrap(TableOf(fs, number), fs.blockSize);
    GuardedWrap(SlotOf(fs, number), fs.inodeSize);
    GuardedSum(Wrap64(TableOf(fs, number) * fs.blockSize), Wrap64(SlotOf(fs, number) * fs.inodeSize));
  }

  /**
   * The bytes of an accepted inode lie inside the validated inode table of its group, below the
   * end of the filesystem, and inside a single block.
   */
  lemma InodeAddress(fs: Fs, number: nat)
    requires Accepted(fs, number)
    ensures var offset, table := InodeOffset(fs, number).value, TableOf(fs, number);
            && table * fs.blockSize <= offset
            && offset + fs.inodeSize <= (table + InodeTableBlocks(fs)) * fs.blockSize
            && (table + InodeTableBlocks(fs)) * fs.blockSize <= fs.blocksCount * fs.blockSize
            && offset / fs.blockSize == (offset + fs.inodeSize - 1) / fs.blockSize
            && offset + fs.inodeSize <= LLONG_MAX
  {
    hide InodeOffset, ReadGroupDesc;
    OffsetIsExact(fs, number);
    InodeTableBlocksIsExact(fs);
    var m := InodeSizeDivides(fs);
    Placement(TableOf(fs, number), InodeTableBlocks(fs), SlotOf(fs, number), fs.sb.inodesPerGroup,
              fs.inodeSize, fs.blockSize, fs.blocksCount, m);
  }

  /** The address arithmetic behind `InodeAddress`. */
  lemma Placement(table: nat, blocks: nat, slot: nat, slots: nat, size: nat, blockSize: nat, total: nat, m: nat)
    requires slot < slots && size > 0 && blockSize > 0 && blockSize == m * size
    requires blocks == CeilDiv(slots * size, blockSize) && table + blocks <= total
    ensures var offset := table * blockSize + slot * size;
            && table * blockSize <= offset
            && offset + size <= (table + blocks) * blockSize
            && (table + blocks) * blockSize <= total * blockSize
            && offset / blockSize == (offset + size - 1) / blockSize
  {
    TableHoldsSlot(table, slot, slots, size, blockSize, blocks);
    MulMonotone(table + blocks, total, blockSize);
    NoStraddle(table, slot, size, blockSize, m);
  }

  lemma TableHoldsSlot(table: nat, slot: nat, slots: nat, size: nat, blockSize: nat, blocks: nat)
    requires slot < slots && blockSize > 0 && blocks == CeilDiv(slots * size, blockSize)
    ensures table * blockSize + slot * size + size <= (table + blocks) * blockSize
  {
    CeilDivBounds(slots * size, blockSize);
    MulMonotone(slot + 1, slots, size);
    assert (slot + 1) * size == slot * size + size;
    assert (table + blocks) * blockSize == table * blockSize + blocks * blockSize;
  }

  lemma NoStraddle(table: nat, slot: nat, size: nat, blockSize: nat, m: nat)
    requires size > 0 && blockSize > 0 && blockSize == m * size
    ensures (table * blockSize + slot * size) / blockSize ==
            (table * blockSize + slot * size + size - 1) / blockSize
  {
    var q, r := slot / m, slot % m;
    var start := table * blockSize + slot * size;
    assert start == (table + q) * blockSize + r * size by {
      assert slot == q * m + r;
      assert slot * size == q * (m * size) + r * size;
      assert (table + q) * blockSize == table * blockSize + q * blockSize;
    }
    assert r * size + size <= blockSize by {
      MulMonotone(r + 1, m, size);
      assert (r + 1) * size == r * size + size;
    }
    DivUnique(start, blockSize, table + q, r * size);
    DivUnique(start + size - 1, blockSize, table + q, r * size + size - 1);
  }

  /** Distinct inodes of one group, or of groups whose tables do not overlap, occupy disjoint bytes. */
  lemma InodesDisjoint(fs: Fs, a: nat, b: nat)
    requires Accepted(fs, a) && Accepted(fs, b) && a != b
    requires GroupOf(fs, a) == GroupOf(fs, b) ||
             TableOf(fs, a) + InodeTableBlocks(fs) <= TableOf(fs, b) ||
             TableOf(fs, b) + InodeTableBlocks(fs) <= TableOf(fs, a)
    ensures var x, y := InodeOffset(fs, a).value, InodeOffset(fs, b).value;
            x + fs.inodeSize <= y || y + fs.inodeSize <= x
  {
    if GroupOf(fs, a) == GroupOf(fs, b) {
      SameGroupDisjoint(fs, a, b);
    } else if TableOf(fs, a) + InodeTableBlocks(fs) <= TableOf(fs, b) {
      SeparateTables(fs, a, b);
    } else {
      SeparateTables(fs, b, a);
    }
  }

  lemma SameGroupDisjoint(fs: Fs, a: nat, b: nat)
    requires Accepted(fs, a) && Accepted(fs, b) && a != b && GroupOf(fs, a) == GroupOf(fs, b)
    ensures var x, y := InodeOffset(fs, a).value, InodeOffset(fs, b).value;
            x + fs.inodeSize <= y || y + fs.inodeSize <= x
  {
    OffsetIsExact(fs, a);
    OffsetIsExact(fs, b);
    assert TableOf(fs, a) == TableOf(fs, b);
    DifferentSlots(a - 1, b - 1, fs.sb.inodesPerGroup);
    SlotsDisjoint(SlotOf(fs, a), SlotOf(fs, b), fs.inodeSize);
  }

  lemma SeparateTables(fs: Fs, a: nat, b: nat)
    requires Accepted(fs, a) && Accepted(fs, b)
    requires TableOf(fs, a) + InodeTableBlocks(fs) <= TableOf(fs, b)
    ensures InodeOffset(fs, a).value + fs.inodeSize <= InodeOffset(fs, b).value
  {
    hide InodeOffset, ReadGroupDesc;
    var x, y := InodeOffset(fs, a).value, InodeOffset(fs, b).value;
    var end, start := TableOf(fs, a) + InodeTableBlocks(fs), TableOf(fs, b);
    assert x + fs.inodeSize <= end * fs.blockSize by {
      InodeAddress(fs, a);
    }
    assert start * fs.blockSize <= y by {
      InodeAddress(fs, b);
    }
    MulMonotone(end, start, fs.blockSize);
  }

  lemma DifferentSlots(x: nat, y: nat, slots: nat)
    requires slots > 0 && x != y && x / slots == y / slots
    ensures x % slots != y % slots
  {
    assert x == (x / slots) * slots + x % slots;
    assert y == (y / slots) * slots + y % slots;
  }

  lemma SlotsDisjoint(i: nat, j: nat, size: nat)
    requires i != j
    ensures i * size + size <= j * size || j * size + size <= i * size
  {
    if i < j {
      MulMonotone(i + 1, j, size);
      assert (i + 1) * size == i * size + size;
    } else {
      MulMonotone(j + 1, i, size);
      assert (j + 1) * size == j * size + size;
    }
  }

  /** Slot `slot` of an inode table: its place, its bytes, and whether the mode in its first two bytes is not 0. */
  function SlotOffset(fs: Fs, table: nat, slot: nat): nat {
    table * fs.blockSize + slot * fs.inodeSize
  }

  function SlotBytes(fs: Fs, table: nat, slot: nat): Option<seq<byte>> {
    ReadAt(fs.dev, SlotOffset(fs, table, slot), fs.inodeSize)
  }

  function SlotInUse(fs: Fs, table: nat, slot: nat): Option<bool> {
    match ReadAt(fs.dev, SlotOffset(fs, table, slot), 2)
    case None => None
    case Some(mode) => Some(mode[0] != 0 || mode[1] != 0)
  }

  /**
   * The record of inode `n` is slot `(n - 1) % inodesPerGroup` of the table that the descriptor of
   * group `(n - 1) / inodesPerGroup` names; it is found exactly if that descriptor is accepted and
   * those bytes can be read.
   */
  lemma RecordExactly(fs: Fs, number: nat, group: nat, slot: nat)
    requires Geometry(fs) && 1 <= number <= fs.sb.inodesCount
    requires slot < fs.sb.inodesPerGroup && number - 1 == group * fs.sb.inodesPerGroup + slot
    ensures group < fs.groupsCount && ReadGroupDesc(fs, group).Some? ==>
              RawInode(fs, number) == SlotBytes(fs, ReadGroupDesc(fs, group).value.inodeTable, slot)
    ensures group >= fs.groupsCount || ReadGroupDesc(fs, group).None? ==> RawInode(fs, number) == None
  {
    InPlace(fs, number, group, slot);
    hide ReadGroupDesc, InodeOffset, Geometry, ReadAt, GroupOf, SlotOf;
    if group < fs.groupsCount && ReadGroupDesc(fs, group).Some? {
      if InodeOffset(fs, number).Some? {
        OffsetIsExact(fs, number);
      } else {
        RefusedPlace(fs, number);
        Unreadable(fs.dev, ReadGroupDesc(fs, group).value.inodeTable * fs.blockSize + slot * fs.inodeSize,
                   fs.inodeSize);
      }
    } else {
      NoDescriptor(fs, number);
    }
  }

  /** There is no inode 0 and none past the inode count. */
  lemma NoSuchInode(fs: Fs, number: nat)
    requires Geometry(fs) && (number == 0 || number > fs.sb.inodesCount)
    ensures RawInode(fs, number) == None && ReadInode(fs, number) == None
  {
  }

  lemma InPlace(fs: Fs, number: nat, group: nat, slot: nat)
    requires 1 <= number < U32 && slot < fs.sb.inodesPerGroup && number - 1 == group * fs.sb.inodesPerGroup + slot
    ensures GroupOf(fs, number) == group && SlotOf(fs, number) == slot
  {
    DivUnique(number - 1, fs.sb.inodesPerGroup, group, slot);
  }

  lemma NoDescriptor(fs: Fs, number: nat)
    requires Geometry(fs) && number >= 1
    requires GroupOf(fs, number) >= fs.groupsCount || ReadGroupDesc(fs, GroupOf(fs, number)).None?
    ensures InodeOffset(fs, number).None?
  {
    hide ReadGroupDesc;
  }

  /** A refused address is one that cannot be asked of the file anyway. */
  lemma RefusedPlace(fs: Fs, number: nat)
    requires Geometry(fs) && number >= 1 && InodeOffset(fs, number).None?
    requires GroupOf(fs, number) < fs.groupsCount && ReadGroupDesc(fs, GroupOf(fs, number)).Some?
    ensures ReadGroupDesc(fs, GroupOf(fs, number)).value.inodeTable * fs.blockSize
            + SlotOf(fs, number) * fs.inodeSize + fs.inodeSize > LLONG_MAX
  {
    hide ReadGroupDesc, IsPowerOfTwo;
    GuardsExact(ReadGroupDesc(fs, GroupOf(fs, number)).value.inodeTable, fs.blockSize,
                SlotOf(fs, number), fs.inodeSize);
  }

  /** Guards written before two products and their sum turn away only what exceeds the largest offset. */
  lemma GuardsExact(table: nat, blockSize: nat, slot: nat, size: nat)
    requires blockSize > 0 && size > 0
    ensures table > U64_MAX / blockSize || slot > U64_MAX / size ==>
              table * blockSize + slot * size + size > LLONG_MAX
    ensures table <= U64_MAX / blockSize && slot <= U64_MAX / size ==>
              && Wrap64(table * blockSize) == table * blockSize && Wrap64(slot * size) == slot * size
              && (table * blockSize + slot * size <= U64_MAX ==>
                    Wrap64(table * blockSize + slot * size) == table * blockSize + slot * size)
  {
    QuotientBound(U64_MAX, blockSize, table);
    QuotientBound(U64_MAX, size, slot);
  }

  lemma Unreadable(dev: Device, offset: nat, size: nat)
    requires offset + size > LLONG_MAX
    ensures ReadAt(dev, offset, size).None?
  {
  }
}
