/** ext4_recovery.c: restoring the primary superblock from a backup. */
module Recovery {
  import opened Bytes
  import opened Device
  import opened Io
  import opened Super
  import opened Growth
  import opened Sparse
  import opened Backup

  /** The guards that `ext4_backup_write_primary` and the restore step share. */
  predicate Safe(b: Backup) {
    b.readOk && b.magicOk && b.structureOk
  }

  /** `b` is item `index` of the report that discovery makes of this image. */
  ghost predicate Discovered(dev: Device, index: nat, b: Backup) {
    var primary := BackupAt(dev, 0, 0, SUPERBLOCK_OFFSET, true);
    && primary.readOk && SafeGroupCount(primary.sb).Some?
    && var geometry := SafeGroupCount(primary.sb).value;
       var groups := SparseGroups(geometry.groupsCount);
       && index < |groups|
       && b == Expected(dev, primary.sb, geometry.blockSize, groups[index], index)
  }

  /** The backup a restore is to write: item `index` of a discovery that succeeds, if it is safe. */
  ghost predicate Selected(dev: Device, index: nat, b: Backup) {
    Discoverable(dev) && Discovered(dev, index, b) && Safe(b)
  }

  /** The byte at `p` after the first `stored` bytes of the backup, if one was written, reached the image. */
  function RestoredByte(bytes: seq<byte>, source: Option<Backup>, stored: nat, p: nat): byte
    requires p < |bytes| && (source.Some? ==> stored <= |source.value.raw|)
  {
    if source.Some? && SUPERBLOCK_OFFSET <= p < SUPERBLOCK_OFFSET + stored
    then source.value.raw[p - SUPERBLOCK_OFFSET]
    else bytes[p]
  }

  /** The primary superblock of the image is the one of the backup, and passes the same checks. */
  ghost predicate Restored(after: Device, b: Backup) {
    var primary := BackupAt(after, 0, 0, SUPERBLOCK_OFFSET, true);
    && primary.raw == b.raw && primary.sb == b.sb && Safe(primary) && Validate(primary.sb)
    && primary.checksumChecked == b.checksumChecked && primary.checksumOk == b.checksumOk
  }

  /** `ext4_backup_write_primary`. */
  method WritePrimary(disk: Disk, b: Backup) returns (ok: bool, ghost stored: nat)
    requires |b.raw| == SUPERBLOCK_SIZE
    modifies disk
    ensures stored <= SUPERBLOCK_SIZE && old(disk.writes) <= disk.writes
    ensures disk.bytes == Overwrite(old(disk.bytes), SUPERBLOCK_OFFSET, b.raw[..stored])
    ensures ok <==> Safe(b) && stored == SUPERBLOCK_SIZE
    ensures ok <==> Safe(b) && !disk.StalledSince(old(disk.writes))
  {
    if !b.readOk || !b.magicOk || !b.structureOk {
      return false, 0;
    }
    ok, stored := disk.WriteExactAt(SUPERBLOCK_OFFSET, b.raw);
  }

  /**
   * `ext4_recovery_restore_superblock` for a parsed index and the answer to the confirmation prompt.
   * `source` is the backup whose bytes were written, if it came to that, and `stored` how many of
   * them reached the image. The contract says exactly when a backup is written, which bytes change,
   * and when the restore reports success.
   */
  method RestoreSuperblock(heap: Heap, disk: Disk, index: nat, writeEnabled: bool, confirmed: bool)
    returns (ok: bool, ghost source: Option<Backup>, ghost stored: nat)
    modifies heap, disk
    ensures source.Some? <==>
              && writeEnabled && confirmed && !heap.RefusedSince(old(heap.requests))
              && exists b :: Selected(old(disk.Snapshot()), index, b)
    ensures source.Some? ==>
              && Selected(old(disk.Snapshot()), index, source.value)
              && stored <= SUPERBLOCK_SIZE == |source.value.raw|
              && (stored == SUPERBLOCK_SIZE <==> !disk.StalledSince(old(disk.writes)))
    ensures |disk.bytes| == |old(disk.bytes)|
    ensures forall p | 0 <= p < |disk.bytes| :: disk.bytes[p] == RestoredByte(old(disk.bytes), source, stored, p)
    ensures ok <==>
              && !heap.RefusedSince(old(heap.requests))
              && (exists b :: Selected(old(disk.Snapshot()), index, b))
              && (writeEnabled ==> confirmed && !disk.StalledSince(old(disk.writes)))
    ensures ok && writeEnabled ==> source.Some? && Restored(disk.Snapshot(), source.value)
  {
    hide Restored, BackupAt, SafeGroupCount, Validate, SparseGroups, Overwrite, Readable;
    hide Discovered, Discoverable, Lists;
    source, stored := None, 0;
    ghost var dev := disk.Snapshot();
    var status, report := Discover(heap, disk);
    if status != Done {
      return false, None, 0;
    }
    if index >= |report.items| {
      OutsideReport(dev, report.primary, report.items, index);
      return false, None, 0;
    }
    var b := report.items[index];
    ItemFacts(dev, report.primary, report.items, index);
    if !b.readOk || !b.magicOk || !b.structureOk {
      return false, None, 0;
    }
    assert Selected(dev, index, b);
    if !writeEnabled {
      return true, None, 0;
    }
    if !confirmed {
      return false, None, 0;
    }
    source := Some(b);
    var written: bool;
    written, stored := WritePrimary(disk, b);
    RestoreFrame(dev, disk.bytes, b, stored);
    if !written {
      return false, source, stored;
    }
    assert b.raw[..SUPERBLOCK_SIZE] == b.raw;
    VerifyReads(dev, disk.Snapshot(), b.raw);
    RestoredPrimary(dev, index, b, disk.Snapshot());
    var raw := disk.ReadExactAt(SUPERBLOCK_OFFSET, SUPERBLOCK_SIZE);
    if raw == None {
      return false, source, stored;
    }
    var verify := Decode(raw.value);
    if verify.uuid != b.sb.uuid || verify.magic != SUPER_MAGIC || BlocksCount(verify) != BlocksCount(b.sb) ||
       verify.inodesCount != b.sb.inodesCount {
      return false, source, stored;
    }
    return true, source, stored;
  }

  lemma ItemFacts(dev: Device, primary: Backup, items: seq<Backup>, index: nat)
    requires primary == BackupAt(dev, 0, 0, SUPERBLOCK_OFFSET, true) && primary.readOk
    requires SafeGroupCount(primary.sb).Some? && primary.sb.blocksPerGroup > 0
    requires Lists(dev, primary.sb, SafeGroupCount(primary.sb).value.blockSize, items,
                   SparseGroups(SafeGroupCount(primary.sb).value.groupsCount))
    requires index < |items|
    ensures forall b :: Discovered(dev, index, b) <==> b == items[index]
    ensures |items[index].raw| == SUPERBLOCK_SIZE && items[index].sb == Decode(items[index].raw)
    ensures Safe(items[index]) ==> items[index].sb.magic == SUPER_MAGIC && Validate(items[index].sb)
    ensures Readable(dev, SUPERBLOCK_OFFSET, SUPERBLOCK_SIZE)
  {
    hide SafeGroupCount, SparseGroups, Validate, Decode;
  }

  lemma OutsideReport(dev: Device, primary: Backup, items: seq<Backup>, index: nat)
    requires primary == BackupAt(dev, 0, 0, SUPERBLOCK_OFFSET, true) && primary.readOk
    requires SafeGroupCount(primary.sb).Some? && primary.sb.blocksPerGroup > 0
    requires Lists(dev, primary.sb, SafeGroupCount(primary.sb).value.blockSize, items,
                   SparseGroups(SafeGroupCount(primary.sb).value.groupsCount))
    requires index >= |items|
    ensures forall b :: !Discovered(dev, index, b)
  {
    hide SafeGroupCount, SparseGroups, BackupAt;
  }

  /** After a complete write the primary superblock reads back as the bytes written. */
  lemma VerifyReads(before: Device, after: Device, raw: seq<byte>)
    requires |raw| == SUPERBLOCK_SIZE && Readable(before, SUPERBLOCK_OFFSET, SUPERBLOCK_SIZE)
    requires after == Device(Overwrite(before.bytes, SUPERBLOCK_OFFSET, raw), before.faulty)
    ensures ReadAt(after, SUPERBLOCK_OFFSET, SUPERBLOCK_SIZE) == Some(raw)
  {
    forall p | SUPERBLOCK_OFFSET <= p < SUPERBLOCK_OFFSET + SUPERBLOCK_SIZE
      ensures after.bytes[p] == raw[p - SUPERBLOCK_OFFSET]
    {
      OverwriteAt(before.bytes, SUPERBLOCK_OFFSET, raw, p);
    }
    assert after.bytes[SUPERBLOCK_OFFSET..SUPERBLOCK_OFFSET + SUPERBLOCK_SIZE] == raw;
  }

  /** A restore, complete or not, changes nothing outside bytes 1024 .. 2047, and inside only a prefix. */
  lemma RestoreFrame(dev: Device, after: seq<byte>, b: Backup, stored: nat)
    requires Readable(dev, SUPERBLOCK_OFFSET, SUPERBLOCK_SIZE) && |b.raw| == SUPERBLOCK_SIZE
    requires stored <= SUPERBLOCK_SIZE && after == Overwrite(dev.bytes, SUPERBLOCK_OFFSET, b.raw[..stored])
    ensures |after| == |dev.bytes|
    ensures forall p | 0 <= p < |after| :: after[p] == RestoredByte(dev.bytes, Some(b), stored, p)
  {
    hide Overwrite;
    forall p | 0 <= p < |after|
      ensures after[p] == RestoredByte(dev.bytes, Some(b), stored, p)
    {
      OverwriteAt(dev.bytes, SUPERBLOCK_OFFSET, b.raw[..stored], p);
    }
  }

  /**
   * A completed restore leaves an image whose primary decodes to exactly the backup's superblock,
   * checks out as the backup did, and would be accepted by the structural validation.
   */
  lemma RestoredPrimary(dev: Device, index: nat, b: Backup, after: Device)
    requires Selected(dev, index, b) && |b.raw| == SUPERBLOCK_SIZE
    requires |after.bytes| == |dev.bytes| && after.faulty == dev.faulty
    requires forall p | 0 <= p < |after.bytes| ::
               after.bytes[p] == RestoredByte(dev.bytes, Some(b), SUPERBLOCK_SIZE, p)
    ensures Restored(after, b)
  {
    hide SafeGroupCount, SparseGroups, Validate, Decode, Sealed, SealIntact, OutOfReach;
    assert after.bytes[SUPERBLOCK_OFFSET..SUPERBLOCK_OFFSET + SUPERBLOCK_SIZE] == b.raw;
  }

  /**
   * A restored image opens exactly when the group count of the backup is accepted: that is the one
   * check of `ext4_fs_open` that neither the restore nor its verification makes.
   */
  lemma RestoredOpens(after: Device, b: Backup)
    requires Restored(after, b)
    ensures OpenFs(after).Some? <==> GroupCount(BlocksCount(b.sb), b.sb.blocksPerGroup).Some?
    ensures OpenFs(after).Some? ==> OpenFs(after).value.sb == b.sb
  {
    hide Validate, Decode, GroupCount, BlocksCount, BlockSize;
  }

  /** Some safe backups are refused then: one-block groups and 2^32 blocks or more. */
  lemma SafeNeedNotOpen(b: Backup, after: Device)
    requires Restored(after, b) && b.sb.blocksPerGroup == 1 && U32 <= BlocksCount(b.sb) < U64
    ensures OpenFs(after).None?
  {
    hide Validate, Decode, BlocksCount, BlockSize, Restored;
    RestoredOpens(after, b);
    GroupCountIsExact(BlocksCount(b.sb), 1);
  }
}
