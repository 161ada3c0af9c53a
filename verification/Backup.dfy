/** ext4_backup.c: discovering and checking backup superblocks. */
module Backup {
  import opened Bytes
  import opened Arithmetic
  import opened Device
  import opened Io
  import opened Super
  import opened Growth
  import opened Sparse
  import Crc

  datatype Backup = Backup(index: nat, group: nat, block: nat, offset: nat, isPrimary: bool, readOk: bool,
                           magicOk: bool, structureOk: bool, checksumChecked: bool, checksumOk: bool,
                           sb: Superblock, raw: seq<byte>)

  /** The superblock bytes with the checksum field zeroed. */
  function Unsealed(raw: seq<byte>): (r: seq<byte>)
    requires |raw| == SUPERBLOCK_SIZE
    ensures |r| == SUPERBLOCK_SIZE
  {
    raw[..1020] + [0, 0, 0, 0]
  }

  /** `superblock_checksum`: seeded with the uuid, then run over the whole unsealed superblock. */
  function Checksum(raw: seq<byte>): Crc.Register
    requires |raw| == SUPERBLOCK_SIZE
  {
    Crc.Update(Crc.Update(Crc.Word(0xFFFF_FFFF), raw[104..120]), Unsealed(raw))
  }

  method SuperblockChecksum(sb: Superblock, raw: seq<byte>) returns (crc: Crc.Register)
    requires |raw| == SUPERBLOCK_SIZE && sb == Decode(raw)
    ensures crc == Checksum(raw)
  {
    var copy := raw[1020 := 0][1021 := 0][1022 := 0][1023 := 0];
    assert copy == Unsealed(raw);
    crc := Crc.Crc32cUpdate(Crc.Word(0xFFFF_FFFF), sb.uuid);
    crc := Crc.Crc32cUpdate(crc, copy);
  }

  /** `validate_backup` checks the checksum of this superblock. */
  predicate Sealed(sb: Superblock) {
    BitAnd(sb.featureRoCompat, RO_COMPAT_METADATA_CSUM) != 0 || sb.checksum != 0
  }

  predicate SealIntact(raw: seq<byte>)
    requires |raw| == SUPERBLOCK_SIZE
  {
    Checksum(raw) == Crc.Word(Decode(raw).checksum)
  }

  /** `read_backup_at`: a record of zeros if the superblock cannot be read, else decoded and validated. */
  function BackupAt(dev: Device, group: nat, block: nat, offset: nat, isPrimary: bool): Backup {
    match ReadSuperblock(dev, offset)
    case None =>
      Backup(0, group, block, offset, isPrimary, false, false, false, false, false,
             Decode(Zeros(SUPERBLOCK_SIZE)), Zeros(SUPERBLOCK_SIZE))
    case Some(raw) =>
      var sb := Decode(raw);
      Backup(0, group, block, offset, isPrimary, true, sb.magic == SUPER_MAGIC,
             sb.magic == SUPER_MAGIC && Validate(sb), Sealed(sb), Sealed(sb) && SealIntact(raw), sb, raw)
  }

  method ReadBackupAt(disk: Disk, group: nat, block: nat, offset: nat, isPrimary: bool) returns (b: Backup)
    ensures b == BackupAt(disk.Snapshot(), group, block, offset, isPrimary)
  {
    hide Validate, Decode, Checksum, Sealed, Crc.Word;
    b := Backup(0, group, block, offset, isPrimary, false, false, false, false, false,
                Decode(Zeros(SUPERBLOCK_SIZE)), Zeros(SUPERBLOCK_SIZE));
    var raw := disk.ReadExactAt(offset, SUPERBLOCK_SIZE);
    if raw == None {
      return;
    }
    var sb := Decode(raw.value);
    b := b.(readOk := true, sb := sb, raw := raw.value);
    b := b.(magicOk := sb.magic == SUPER_MAGIC);
    b := b.(structureOk := b.magicOk && Validate(sb));
    b := b.(checksumChecked := Sealed(sb));
    if b.checksumChecked {
      var crc := SuperblockChecksum(sb, raw.value);
      b := b.(checksumOk := crc == Crc.Word(sb.checksum));
    }
  }

  datatype GroupGeometry = GroupGeometry(blockSize: nat, blocksCount: nat, groupsCount: nat)

  /** `safe_group_count`. */
  function SafeGroupCount(sb: Superblock): Option<GroupGeometry> {
    var blockSize, blocksCount := BlockSize(sb), BlocksCount(sb);
    if blockSize < MIN_BLOCK_SIZE || blockSize > MAX_BLOCK_SIZE || blocksCount == 0 || sb.blocksPerGroup == 0 then None
    else
      var groups := Wrap64(blocksCount + sb.blocksPerGroup - 1) / sb.blocksPerGroup;
      if groups == 0 || groups > U32_MAX then None else Some(GroupGeometry(blockSize, blocksCount, groups))
  }

  /** The copy of the group calculation agrees with the one used to open a filesystem. */
  lemma GroupCountsAgree(sb: Superblock)
    requires MIN_BLOCK_SIZE <= BlockSize(sb) <= MAX_BLOCK_SIZE && BlocksCount(sb) != 0
    ensures match GroupCount(BlocksCount(sb), sb.blocksPerGroup)
            case None => SafeGroupCount(sb) == None
            case Some(g) => SafeGroupCount(sb) == Some(GroupGeometry(BlockSize(sb), BlocksCount(sb), g))
  {
    hide BlockSize, BlocksCount;
  }

  datatype Place = Place(block: nat, offset: nat)

  /** The byte offset of a block, unless it is out of range. */
  function PlaceOf(block: nat, blockSize: nat): Option<Place>
    requires blockSize > 0
  {
    if block > U64_MAX / blockSize then None
    else
      var offset := Wrap64(block * blockSize);
      if !OffsetRangeValid(offset, SUPERBLOCK_SIZE) || offset % blockSize != 0 then None else Some(Place(block, offset))
  }

  lemma PlaceIsExact(block: nat, blockSize: nat)
    requires blockSize > 0
    ensures PlaceOf(block, blockSize) ==
            if block * blockSize + SUPERBLOCK_SIZE > LLONG_MAX then None else Some(Place(block, block * blockSize))
  {
    QuotientBound(U64_MAX, blockSize, block);
    DivOfProduct(block, blockSize);
  }

  /** `backup_offset`, with its guards against 64-bit overflow. */
  function BackupOffset(sb: Superblock, group: nat, blockSize: nat): Option<Place>
    requires sb.blocksPerGroup > 0 && blockSize > 0
  {
    if group > U64_MAX / sb.blocksPerGroup then None
    else
      var start := Wrap64(group * sb.blocksPerGroup);
      if sb.firstDataBlock > U64_MAX || start > U64_MAX - sb.firstDataBlock then None
      else PlaceOf(Wrap64(start + sb.firstDataBlock), blockSize)
  }

  /** The first block of a group, and where it lies in the image, in unbounded integers. */
  function GroupBlock(sb: Superblock, g: nat): nat {
    g * sb.blocksPerGroup + sb.firstDataBlock
  }

  function GroupOffset(sb: Superblock, blockSize: nat, g: nat): nat {
    GroupBlock(sb, g) * blockSize
  }

  /** The superblock of the group ends before the largest file offset. */
  predicate OffsetInReach(sb: Superblock, blockSize: nat, g: nat) {
    GroupOffset(sb, blockSize, g) + SUPERBLOCK_SIZE <= LLONG_MAX
  }

  /** The guards refuse exactly the groups whose superblock would end past the largest file offset. */
  lemma BackupOffsetIsExact(sb: Superblock, group: nat, blockSize: nat)
    requires sb.blocksPerGroup > 0 && blockSize > 0 && sb.firstDataBlock < U32
    ensures BackupOffset(sb, group, blockSize) ==
            if !OffsetInReach(sb, blockSize, group) then None
            else Some(Place(GroupBlock(sb, group), GroupOffset(sb, blockSize, group)))
  {
    hide PlaceOf;
    var block := GroupBlock(sb, group);
    QuotientBound(U64_MAX, sb.blocksPerGroup, group);
    PlaceIsExact(block, blockSize);
    MulMonotone(1, blockSize, block);
  }

  /** `struct ext4_backup_report`. */
  class Report {
    var primary: Backup
    var items: seq<Backup>
    var capacity: nat

    ghost predicate Valid()
      reads this
    {
      |items| <= capacity
    }

    constructor (primary: Backup)
      ensures Valid() && this.primary == primary && items == []
    {
      this.primary := primary;
      items := [];
      capacity := 0;
    }

    /** `append_backup`. */
    method Append(heap: Heap, b: Backup) returns (ok: bool)
      requires Valid()
      modifies this`items, this`capacity, heap
      ensures Valid()
      ensures old(heap.requests) <= heap.requests
      ensures ok <==> !heap.RefusedSince(old(heap.requests))
      ensures ok ==> items == old(items) + [b.(index := |old(items)|)]
      ensures !ok ==> items == old(items) && |items| == capacity == old(capacity)
    {
      var room, grown := Reserve(heap, |items|, capacity, 8);
      if !room {
        return false;
      }
      capacity := grown;
      items := items + [b.(index := |items|)];
      return true;
    }
  }

  /** What the record of group `g` should be, as item number `index`. */
  ghost function Expected(dev: Device, sb: Superblock, blockSize: nat, g: nat, index: nat): Backup
    requires sb.blocksPerGroup > 0
  {
    BackupAt(dev, g, GroupBlock(sb, g), GroupOffset(sb, blockSize, g), false).(index := index)
  }

  /** The items are the records of the given groups, numbered in order. */
  ghost predicate Lists(dev: Device, sb: Superblock, blockSize: nat, items: seq<Backup>, groups: seq<nat>)
    requires sb.blocksPerGroup > 0
  {
    |items| == |groups| && forall i | 0 <= i < |items| :: items[i] == Expected(dev, sb, blockSize, groups[i], i)
  }

  /** The next group's record, appended, extends the list. */
  lemma ListsOneMore(dev: Device, sb: Superblock, blockSize: nat, items: seq<Backup>, groups: seq<nat>, g: nat,
                     b: Backup)
    requires sb.blocksPerGroup > 0 && Lists(dev, sb, blockSize, items, groups)
    requires b == BackupAt(dev, g, GroupBlock(sb, g), GroupOffset(sb, blockSize, g), false)
    ensures Lists(dev, sb, blockSize, items + [b.(index := |items|)], groups + [g])
  {
    hide BackupAt;
    hide GroupBlock, GroupOffset;
    assert b.(index := |items|) == Expected(dev, sb, blockSize, g, |items|);
    hide Expected;
  }

  lemma NothingListed(dev: Device, sb: Superblock, blockSize: nat)
    requires sb.blocksPerGroup > 0
    ensures Lists(dev, sb, blockSize, [], SparseGroups(1))
  {
  }

  /** Group `g` carries a backup whose place overflows the offset range. */
  ghost predicate Unreachable(sb: Superblock, blockSize: nat, g: nat) {
    SparseGroup(g) && !OffsetInReach(sb, blockSize, g)
  }

  /** One of the groups 1 .. groups - 1 carries a backup out of reach. */
  ghost predicate OutOfReach(sb: Superblock, blockSize: nat, groups: nat) {
    exists g: nat :: 1 <= g < groups && Unreachable(sb, blockSize, g)
  }

  /** What the image must offer for discovery to succeed: a primary that can be read, and offsets in range. */
  ghost predicate Discoverable(dev: Device) {
    var primary := BackupAt(dev, 0, 0, SUPERBLOCK_OFFSET, true);
    && primary.readOk && SafeGroupCount(primary.sb).Some?
    && var geometry := SafeGroupCount(primary.sb).value;
       !OutOfReach(primary.sb, geometry.blockSize, geometry.groupsCount)
  }

  /**
   * `ext4_backup_discover` on an image that could be opened. It succeeds exactly when the image is
   * discoverable and memory suffices, and then lists exactly the groups that carry a backup, in
   * order, readable or not.
   */
  method Discover(heap: Heap, disk: Disk) returns (status: Status, report: Report?)
    modifies heap
    ensures old(heap.requests) <= heap.requests
    ensures status == NoMemory <==> heap.RefusedSince(old(heap.requests))
    ensures status == Done ==> Discoverable(disk.Snapshot())
    ensures status == BadImage ==> !Discoverable(disk.Snapshot())
    ensures report != null ==>
              && fresh(report) && report.Valid()
              && report.primary == BackupAt(disk.Snapshot(), 0, 0, SUPERBLOCK_OFFSET, true) && report.primary.readOk
              && SafeGroupCount(report.primary.sb).Some?
    ensures status == Done ==>
              && report != null && report.primary.sb.blocksPerGroup > 0
              && var geometry := SafeGroupCount(report.primary.sb).value;
                 Lists(disk.Snapshot(), report.primary.sb, geometry.blockSize, report.items,
                       SparseGroups(geometry.groupsCount))
  {
    hide OutOfReach, SparseGroups, Lists, Validate, Sealed, SealIntact, BitAnd;
    var primary := ReadBackupAt(disk, 0, 0, SUPERBLOCK_OFFSET, true);
    if !primary.readOk {
      return BadImage, null;
    }
    var geometry := SafeGroupCount(primary.sb);
    if geometry == None {
      return BadImage, null;
    }
    report := new Report(primary);
    status := Scan(heap, disk, report, primary.sb, geometry.value);
  }

  /** The loop of `ext4_backup_discover` over the block groups. */
  method Scan(heap: Heap, disk: Disk, report: Report, sb: Superblock, geometry: GroupGeometry)
    returns (status: Status)
    requires sb.blocksPerGroup > 0 && geometry.blockSize > 0 && sb.firstDataBlock < U32
    requires report.Valid() && report.items == []
    modifies report`items, report`capacity, heap
    ensures report.Valid()
    ensures old(heap.requests) <= heap.requests
    ensures status == NoMemory <==> heap.RefusedSince(old(heap.requests))
    ensures status == Done ==>
              Lists(disk.Snapshot(), sb, geometry.blockSize, report.items, SparseGroups(geometry.groupsCount))
    ensures status == Done ==> !OutOfReach(sb, geometry.blockSize, geometry.groupsCount)
    ensures status == BadImage ==> OutOfReach(sb, geometry.blockSize, geometry.groupsCount)
  {
    hide BackupAt, BackupOffset, SparseGroup, Lists, Expected, OutOfReach, Unreachable, OffsetInReach;
    hide GroupBlock, GroupOffset;
    NothingListed(disk.Snapshot(), sb, geometry.blockSize);
    NothingOutOfReach(sb, geometry.blockSize);
    status := Done;
    var group := 1;
    while group < geometry.groupsCount
      invariant 1 <= group && (group <= geometry.groupsCount || group == 1)
      invariant report.Valid()
      invariant old(heap.requests) <= heap.requests && !heap.RefusedSince(old(heap.requests))
      invariant status == if OutOfReach(sb, geometry.blockSize, group) then BadImage else Done
      invariant status == Done ==>
                  Lists(disk.Snapshot(), sb, geometry.blockSize, report.items, SparseGroups(group))
    {
      var sparse := HasSparseSuper(group);
      OneMoreGroup(sb, geometry.blockSize, group);
      if sparse {
        BackupOffsetIsExact(sb, group, geometry.blockSize);
        var place := BackupOffset(sb, group, geometry.blockSize);
        if place == None {
          status := BadImage;
        } else {
          var b := ReadBackupAt(disk, group, place.value.block, place.value.offset, false);
          ghost var before := report.items;
          if status == Done {
            ListsOneMore(disk.Snapshot(), sb, geometry.blockSize, before, SparseGroups(group), group, b);
          }
          var room := report.Append(heap, b);
          if !room {
            return NoMemory;
          }
        }
      }
      group := group + 1;
    }
  }

  lemma NothingOutOfReach(sb: Superblock, blockSize: nat)
    ensures !OutOfReach(sb, blockSize, 1) && !OutOfReach(sb, blockSize, 0)
  {
  }

  lemma OneMoreGroup(sb: Superblock, blockSize: nat, g: nat)
    requires g >= 1
    ensures OutOfReach(sb, blockSize, g + 1) <==>
            OutOfReach(sb, blockSize, g) || (SparseGroup(g) && !OffsetInReach(sb, blockSize, g))
  {
    hide SparseGroup, OffsetInReach;
    if Unreachable(sb, blockSize, g) {
      assert OutOfReach(sb, blockSize, g + 1);
    }
    if OutOfReach(sb, blockSize, g) {
      var h: nat :| 1 <= h < g && Unreachable(sb, blockSize, h);
      assert Unreachable(sb, blockSize, h) && h < g + 1;
    }
  }

  // What the checksum is good for.

  /**
   * A change confined to 32 consecutive bits, at any alignment, that touches neither the uuid nor
   * the stored checksum always changes the computed checksum.
   */
  lemma ChecksumDetectsBurst(raw: seq<byte>, other: seq<byte>, from: nat)
    requires |raw| == |other| == SUPERBLOCK_SIZE && raw != other && Crc.SameOutside(raw, other, from, 32)
    requires raw[104..120] == other[104..120] && raw[1020..] == other[1020..]
    ensures Checksum(raw) != Checksum(other)
  {
    hide Crc.Update, Crc.SameOutside;
    assert raw == raw[..1020] + raw[1020..] && other == other[..1020] + other[1020..];
    assert Unsealed(raw)[..1020] == raw[..1020] && Unsealed(other)[..1020] == other[..1020];
    Crc.CommonTail(raw, other, 1020, [0, 0, 0, 0], from, 32);
    Crc.BurstDetected(Crc.Update(Crc.Word(0xFFFF_FFFF), raw[104..120]), Unsealed(raw), Unsealed(other), from);
  }

  /** In particular every change within four consecutive bytes that avoids those fields. */
  lemma ChecksumDetectsWindow(raw: seq<byte>, other: seq<byte>, i: nat)
    requires |raw| == |other| == SUPERBLOCK_SIZE && raw != other
    requires i + 4 <= 1020 && (i + 4 <= 104 || 120 <= i)
    requires raw[..i] == other[..i] && raw[i + 4..] == other[i + 4..]
    ensures Checksum(raw) != Checksum(other)
  {
    hide Checksum, Crc.SameOutside;
    assert forall k | 0 <= k < SUPERBLOCK_SIZE && !(i <= k < i + 4) :: raw[k] == other[k] by {
      assert forall k | 0 <= k < i :: raw[k] == raw[..i][k] && other[k] == other[..i][k];
      assert forall k | i + 4 <= k < SUPERBLOCK_SIZE ::
          raw[k] == raw[i + 4..][k - (i + 4)] && other[k] == other[i + 4..][k - (i + 4)];
    }
    Crc.FourBytesAre32Bits(raw, other, i);
    ChecksumDetectsBurst(raw, other, 8 * i);
  }

  /**
   * Damage of that kind to a superblock whose checksum was checked and found right is never found
   * right again. It is reported as a mismatch whenever the damaged superblock still asks for the
   * check, as it does if its stored checksum is not zero or the feature word at 100 is intact.
   */
  lemma DamageBreaksSeal(dev: Device, worn: Device, group: nat, block: nat, offset: nat, isPrimary: bool,
                         b: Backup, c: Backup, from: nat)
    requires b == BackupAt(dev, group, block, offset, isPrimary) && b.checksumOk
    requires c == BackupAt(worn, group, block, offset, isPrimary) && c.readOk
    requires b.raw != c.raw && Crc.SameOutside(b.raw, c.raw, from, 32)
    requires b.raw[104..120] == c.raw[104..120] && b.raw[1020..] == c.raw[1020..]
    ensures !c.checksumOk
    ensures c.checksumChecked <==>
            b.sb.checksum != 0 || BitAnd(c.sb.featureRoCompat, RO_COMPAT_METADATA_CSUM) != 0
    ensures b.sb.checksum != 0 || b.raw[100..104] == c.raw[100..104] ==> c.checksumChecked
  {
    hide Checksum, Decode, Crc.SameOutside, Validate, BitAnd;
    ChecksumDetectsBurst(b.raw, c.raw, from);
    assert b.raw[1020..1024] == b.raw[1020..] && c.raw[1020..1024] == c.raw[1020..];
    SameFields(b.raw, c.raw);
  }

  lemma SameFields(raw: seq<byte>, other: seq<byte>)
    requires |raw| == |other| == SUPERBLOCK_SIZE && raw[1020..1024] == other[1020..1024]
    ensures Decode(raw).checksum == Decode(other).checksum
    ensures raw[100..104] == other[100..104] ==> Decode(raw).featureRoCompat == Decode(other).featureRoCompat
  {
    Put32Le(raw, 1020);
    Le32Put(other, 1020, Le32(raw, 1020));
    if raw[100..104] == other[100..104] {
      Put32Le(raw, 100);
      Le32Put(other, 100, Le32(raw, 100));
    }
  }
}
