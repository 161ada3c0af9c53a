/** Directory blocks written by the printer of ext4_metadata_tests.c are parsed back unchanged. */
module DirRoundTrip {
  import opened Bytes
  import opened Arithmetic
  import opened Device
  import opened Super
  import opened Dir
  import opened DirTiling

  /** The arguments of one `write_dir_entry` call. */
  datatype Rec = Rec(inode: nat, recLen: nat, name: seq<byte>, fileType: byte)

  /** The record is what a formatter may produce: aligned, large enough, and naming an existing inode. */
  predicate Proper(fs: Fs, r: Rec) {
    && r.inode < U32 && r.inode <= fs.sb.inodesCount
    && r.recLen < U16 && r.recLen % 4 == 0 && 8 + |r.name| <= r.recLen && |r.name| <= NAME_MAX
  }

  function EntryBytes(r: Rec): (s: seq<byte>)
    requires r.inode < U32 && r.recLen < U16 && |r.name| <= NAME_MAX
    ensures |s| == 8 + |r.name|
  {
    Put32(r.inode) + Put16(r.recLen) + [|r.name|, r.fileType] + r.name
  }

  function PutEntry(block: seq<byte>, offset: nat, r: Rec): (s: seq<byte>)
    requires r.inode < U32 && r.recLen < U16 && |r.name| <= NAME_MAX && offset + 8 + |r.name| <= |block|
    ensures |s| == |block|
  {
    block[..offset] + EntryBytes(r) + block[offset + 8 + |r.name|..]
  }

  /** `write_dir_entry`. */
  method WriteDirEntry(block: array<byte>, offset: nat, r: Rec)
    requires r.inode < U32 && r.recLen < U16 && |r.name| <= NAME_MAX && offset + 8 + |r.name| <= block.Length
    modifies block
    ensures block[..] == PutEntry(old(block[..]), offset, r)
  {
    hide Put32, Put16;
    var bytes := Put32(r.inode) + Put16(r.recLen) + [|r.name|, r.fileType] + r.name;
    for i := 0 to |bytes|
      invariant forall k | 0 <= k < block.Length ::
                  block[k] == if offset <= k < offset + i then bytes[k - offset] else old(block[k])
    {
      block[offset + i] := bytes[i];
    }
  }

  function Span(recs: seq<Rec>): nat {
    if recs == [] then 0 else recs[0].recLen + Span(recs[1..])
  }

  ghost predicate AllProper(fs: Fs, recs: seq<Rec>) {
    forall i | 0 <= i < |recs| :: Proper(fs, recs[i])
  }

  /** The block after writing the records one after the other from `offset` on. */
  function WriteAll(fs: Fs, block: seq<byte>, offset: nat, recs: seq<Rec>): (s: seq<byte>)
    requires AllProper(fs, recs) && offset + Span(recs) <= |block|
    ensures |s| == |block|
    decreases recs
  {
    if recs == [] then block
    else WriteAll(fs, PutEntry(block, offset, recs[0]), offset + recs[0].recLen, recs[1..])
  }

  /** The entry a record should be read back as. */
  function EntryOf(r: Rec, logical: nat, physical: nat, offset: nat): DirEntry {
    DirEntry(r.inode, r.recLen, |r.name|, r.fileType, r.name, logical, physical, offset, None)
  }

  function Entries(recs: seq<Rec>, logical: nat, physical: nat, offset: nat): seq<DirEntry> {
    if recs == [] then []
    else [EntryOf(recs[0], logical, physical, offset)] + Entries(recs[1..], logical, physical, offset + recs[0].recLen)
  }

  function InUse(recs: seq<Rec>, logical: nat, physical: nat, offset: nat): seq<DirEntry> {
    if recs == [] then []
    else
      (if recs[0].inode != 0 then [EntryOf(recs[0], logical, physical, offset)] else [])
      + InUse(recs[1..], logical, physical, offset + recs[0].recLen)
  }

  predicate Typed(fs: Fs) {
    BitAnd(fs.sb.featureIncompat, INCOMPAT_FILETYPE) != 0
  }

  lemma HeaderFields(b: seq<byte>, offset: nat, r: Rec)
    requires r.inode < U32 && r.recLen < U16 && |r.name| <= NAME_MAX
    requires offset + 8 + |r.name| <= |b| && b[offset..offset + 8 + |r.name|] == EntryBytes(r)
    ensures Le32(b, offset) == r.inode && Le16(b, offset + 4) == r.recLen
    ensures b[offset + 6] == |r.name| && b[offset + 7] == r.fileType
    ensures b[offset + 8..offset + 8 + |r.name|] == r.name
  {
    var w := b[offset..offset + 8 + |r.name|];
    assert b[offset..offset + 4] == w[..4] == Put32(r.inode);
    assert b[offset + 4] == w[4] == Put16(r.recLen)[0] && b[offset + 5] == w[5] == Put16(r.recLen)[1];
    assert b[offset + 4..offset + 6] == Put16(r.recLen);
    assert b[offset + 6] == w[6] && b[offset + 7] == w[7];
    assert b[offset + 8..offset + 8 + |r.name|] == w[8..] == r.name;
    Le32Put(b, offset, r.inode);
    Le16Put(b, offset + 4, r.recLen);
  }

  /** One written record is parsed back. */
  lemma ParseWritten(fs: Fs, b: seq<byte>, logical: nat, physical: nat, offset: nat, limit: nat, r: Rec)
    requires Typed(fs) && Proper(fs, r) && offset + r.recLen <= limit <= |b|
    requires b[offset..offset + 8 + |r.name|] == EntryBytes(r)
    ensures ParseEntry(fs, b, logical, physical, offset, limit) == Parsed(EntryOf(r, logical, physical, offset), false)
  {
    HeaderFields(b, offset, r);
  }

  /** Later records do not disturb what lies before them. */
  lemma {:induction false} WriteAllFrame(fs: Fs, block: seq<byte>, offset: nat, recs: seq<Rec>)
    requires AllProper(fs, recs) && offset + Span(recs) <= |block|
    ensures WriteAll(fs, block, offset, recs)[..offset] == block[..offset]
    decreases recs
  {
    if recs != [] {
      var put, next := PutEntry(block, offset, recs[0]), offset + recs[0].recLen;
      WriteAllFrame(fs, put, next, recs[1..]);
      var done := WriteAll(fs, put, next, recs[1..]);
      assert done[..offset] == done[..next][..offset] == put[..next][..offset] == put[..offset];
    }
  }

  lemma FirstWritten(fs: Fs, block: seq<byte>, offset: nat, recs: seq<Rec>)
    requires recs != [] && AllProper(fs, recs) && offset + Span(recs) <= |block|
    ensures var r := recs[0];
            WriteAll(fs, block, offset, recs)[offset..offset + 8 + |r.name|] == EntryBytes(r)
  {
    var r := recs[0];
    var put, next := PutEntry(block, offset, r), offset + r.recLen;
    WriteAllFrame(fs, put, next, recs[1..]);
    var done := WriteAll(fs, put, next, recs[1..]);
    PutThere(block, offset, r);
    hide WriteAll, PutEntry, EntryBytes;
    var end := offset + 8 + |r.name|;
    assert done[offset..end] == done[..next][offset..end] == put[..next][offset..end] == put[offset..end];
  }

  lemma PutThere(block: seq<byte>, offset: nat, r: Rec)
    requires r.inode < U32 && r.recLen < U16 && |r.name| <= NAME_MAX && offset + 8 + |r.name| <= |block|
    ensures PutEntry(block, offset, r)[offset..offset + 8 + |r.name|] == EntryBytes(r)
  {
    hide EntryBytes;
  }

  /** The bytes of all records stand one after the other from `offset` on. */
  ghost predicate Holds(fs: Fs, b: seq<byte>, offset: nat, recs: seq<Rec>)
    requires AllProper(fs, recs) && offset + Span(recs) <= |b|
    decreases recs
  {
    recs == [] ||
    (b[offset..offset + 8 + |recs[0].name|] == EntryBytes(recs[0]) &&
     Holds(fs, b, offset + recs[0].recLen, recs[1..]))
  }

  lemma {:induction false} WrittenHolds(fs: Fs, block: seq<byte>, offset: nat, recs: seq<Rec>)
    requires AllProper(fs, recs) && offset + Span(recs) <= |block|
    ensures Holds(fs, WriteAll(fs, block, offset, recs), offset, recs)
    decreases recs
  {
    if recs != [] {
      FirstWritten(fs, block, offset, recs);
      WrittenHolds(fs, PutEntry(block, offset, recs[0]), offset + recs[0].recLen, recs[1..]);
    }
  }

  /** Every record list that fills the range is parsed back record by record. */
  lemma {:induction false} ReadBack(fs: Fs, b: seq<byte>, logical: nat, physical: nat, offset: nat,
                                    limit: nat, recs: seq<Rec>)
    requires Typed(fs) && AllProper(fs, recs) && offset + Span(recs) == limit <= |b| && Holds(fs, b, offset, recs)
    ensures Records(fs, b, logical, physical, offset, limit) == Entries(recs, logical, physical, offset)
    decreases recs
  {
    hide ParseEntry, EntryBytes, EntryOf;
    if recs != [] {
      var r := recs[0];
      assert Proper(fs, r);
      ReadOne(fs, b, logical, physical, offset, limit, r);
      ReadBack(fs, b, logical, physical, offset + r.recLen, limit, recs[1..]);
    }
  }

  lemma ReadOne(fs: Fs, b: seq<byte>, logical: nat, physical: nat, offset: nat, limit: nat, r: Rec)
    requires Typed(fs) && Proper(fs, r) && offset + r.recLen <= limit <= |b|
    requires b[offset..offset + 8 + |r.name|] == EntryBytes(r)
    ensures Records(fs, b, logical, physical, offset, limit) ==
            [EntryOf(r, logical, physical, offset)] + Records(fs, b, logical, physical, offset + r.recLen, limit)
  {
    hide ParseEntry, EntryBytes;
    ParseWritten(fs, b, logical, physical, offset, limit, r);
    RecordsStep(fs, b, logical, physical, offset, limit);
  }

  lemma {:induction false} EntriesDelivered(recs: seq<Rec>, logical: nat, physical: nat, offset: nat)
    ensures Delivered(Entries(recs, logical, physical, offset)) == InUse(recs, logical, physical, offset)
    ensures AllSmooth(Every, InUse(recs, logical, physical, offset))
    decreases recs
  {
    if recs != [] {
      EntriesDelivered(recs[1..], logical, physical, offset + recs[0].recLen);
      DeliveredStep(EntryOf(recs[0], logical, physical, offset),
                    Entries(recs[1..], logical, physical, offset + recs[0].recLen));
    }
  }

  /**
   * Writing any proper record list that fills the block and scanning the result delivers exactly
   * the records in use, in order, and reports success.
   */
  lemma DirectoryRoundTrip(fs: Fs, block: seq<byte>, logical: nat, physical: nat, recs: seq<Rec>)
    requires Typed(fs) && AllProper(fs, recs) && Span(recs) <= |block|
    ensures ScanOf(Delivered(Records(fs, WriteAll(fs, block, 0, recs), logical, physical, 0, Span(recs))), Every) ==
            Scan(InUse(recs, logical, physical, 0), true)
  {
    WrittenHolds(fs, block, 0, recs);
    ReadBack(fs, WriteAll(fs, block, 0, recs), logical, physical, 0, Span(recs), recs);
    EntriesDelivered(recs, logical, physical, 0);
    ThroughEvery(InUse(recs, logical, physical, 0));
  }

  /** As long as offsets do not wrap, the limit is what is left of the directory, at most a block. */
  lemma LimitIs(fs: Fs, size: nat, logical: nat)
    requires logical * fs.blockSize < U64
    ensures size <= logical * fs.blockSize ==> Limit(fs, size, logical) == 0
    ensures logical * fs.blockSize < size < (logical + 1) * fs.blockSize ==>
              Limit(fs, size, logical) == size - logical * fs.blockSize
    ensures (logical + 1) * fs.blockSize <= size ==> Limit(fs, size, logical) == fs.blockSize
  {
    assert (logical + 1) * fs.blockSize == logical * fs.blockSize + fs.blockSize;
  }

  /** The records fill block `logical` of a directory of `size` bytes, or what the directory has of it. */
  ghost predicate Fills(fs: Fs, size: nat, logical: nat, recs: seq<Rec>) {
    || ((logical + 1) * fs.blockSize <= size && Span(recs) == fs.blockSize)
    || (logical * fs.blockSize < size < (logical + 1) * fs.blockSize && Span(recs) == size - logical * fs.blockSize)
  }

  /** Block `physical` of the image holds what the printer wrote. */
  ghost predicate Printed(fs: Fs, physical: nat, recs: seq<Rec>) {
    && AllProper(fs, recs)
    && exists block :: Span(recs) <= |block|
         && ReadBlock(fs.dev, fs.blockSize, physical) == Some(WriteAll(fs, block, 0, recs))
  }

  /**
   * The same for a directory block on the image: when it holds what the printer wrote and the
   * records fill the part of it that belongs to the directory, parsing the block delivers exactly
   * the records in use and succeeds.
   */
  lemma PrintedBlockParses(fs: Fs, size: nat, logical: nat, physical: nat, recs: seq<Rec>)
    requires fs.sb.featureIncompat / 2 % 2 == 1 && physical < fs.blocksCount
    requires logical * fs.blockSize < U64 && Fills(fs, size, logical, recs) && Printed(fs, physical, recs)
    ensures BlockScan(fs, size, logical, physical, Every) == Scan(InUse(recs, logical, physical, 0), true)
  {
    Masks(fs.sb.featureIncompat);
    LimitIs(fs, size, logical);
    hide Records, Delivered, InUse, WriteAll, Limit, Wrap64, BitAnd;
    var block :| Span(recs) <= |block|
                 && ReadBlock(fs.dev, fs.blockSize, physical) == Some(WriteAll(fs, block, 0, recs));
    assert Limit(fs, size, logical) == Span(recs);
    DirectoryRoundTrip(fs, block, logical, physical, recs);
    if Span(recs) == 0 {
      EmptySpan(fs, recs);
      NothingInUse(logical, physical);
    }
  }

  /** A block outside the filesystem or unreadable makes the scan fail; one past the directory's end is passed over. */
  lemma OtherBlocks(fs: Fs, size: nat, logical: nat, physical: nat, cb: Callback)
    requires fs.blockSize > 0 && logical * fs.blockSize < U64
    ensures physical >= fs.blocksCount ==> BlockScan(fs, size, logical, physical, cb) == Scan([], false)
    ensures physical < fs.blocksCount && size <= logical * fs.blockSize ==>
              BlockScan(fs, size, logical, physical, cb) == Scan([], true)
    ensures physical < fs.blocksCount && logical * fs.blockSize < size
            && ReadBlock(fs.dev, fs.blockSize, physical) == None ==>
              BlockScan(fs, size, logical, physical, cb) == Scan([], false)
  {
    LimitIs(fs, size, logical);
    LimitPositive(fs, size, logical);
    hide Limit, Records, Delivered;
  }

  lemma LimitPositive(fs: Fs, size: nat, logical: nat)
    requires fs.blockSize > 0 && logical * fs.blockSize < U64
    ensures logical * fs.blockSize < size ==> Limit(fs, size, logical) > 0
  {
  }

  lemma EmptySpan(fs: Fs, recs: seq<Rec>)
    requires AllProper(fs, recs) && Span(recs) == 0
    ensures recs == []
  {
  }

  lemma NothingInUse(logical: nat, physical: nat)
    ensures InUse([], logical, physical, 0) == []
  {
  }
}
