/** ext4_dir.c: parsing the variable-length records of one directory block. */
module Dir {
  import opened Bytes
  import opened Device
  import opened Arithmetic
  import opened Super
  import opened Inode

  const NAME_MAX: nat := 255
  const FT_DIR: nat := 2

  datatype Fault = HeaderCrossesBlock | RecordTooShort | RecordUnaligned | RecordOverlapsBoundary
                 | NameExceedsRecord | BadInodeReference

  /** `name` holds the bytes copied before the terminating zero. */
  datatype DirEntry = DirEntry(inode: nat, recLen: nat, nameLen: nat, fileType: nat, name: seq<byte>,
                               logicalBlock: nat, physicalBlock: nat, offset: nat, fault: Option<Fault>)

  predicate Corrupt(e: DirEntry) {
    e.fault.Some?
  }

  /** The string a name buffer holds for `strcmp`: its bytes up to the first zero. */
  function CString(name: seq<byte>): (r: seq<byte>)
    ensures r <= name && 0 !in r
    ensures 0 !in name ==> r == name
  {
    if name == [] || name[0] == 0 then [] else [name[0]] + CString(name[1..])
  }

  datatype Parsed = Parsed(entry: DirEntry, fatal: bool)

  /** `parse_dir_entry`. */
  function ParseEntry(fs: Fs, block: seq<byte>, logical: nat, physical: nat, offset: nat, limit: nat): (r: Parsed)
    requires offset < limit <= |block|
    ensures !r.fatal ==> 8 <= r.entry.recLen <= limit - offset && r.entry.recLen % 4 == 0
    ensures r.fatal ==> Corrupt(r.entry)
    ensures !Corrupt(r.entry) ==> 8 + r.entry.nameLen <= r.entry.recLen && |r.entry.name| == r.entry.nameLen <= NAME_MAX
    ensures r.entry.offset == offset
  {
    var blank := DirEntry(0, 0, 0, 0, [], logical, physical, offset, None);
    if limit - offset < 8 then Parsed(blank.(fault := Some(HeaderCrossesBlock)), true)
    else
      var typed := BitAnd(fs.sb.featureIncompat, INCOMPAT_FILETYPE) != 0;
      var inode, recLen := Le32(block, offset), Le16(block, offset + 4);
      var nameLen: nat := if typed then block[offset + 6] else Le16(block, offset + 6);
      var fileType: nat := if typed then block[offset + 7] else 0;
      var e := blank.(inode := inode, recLen := recLen, nameLen := nameLen, fileType := fileType);
      if recLen < 8 then Parsed(e.(fault := Some(RecordTooShort)), true)
      else if recLen % 4 != 0 then Parsed(e.(fault := Some(RecordUnaligned)), true)
      else if recLen > limit - offset then Parsed(e.(fault := Some(RecordOverlapsBoundary)), true)
      else if nameLen > NAME_MAX || nameLen > recLen - 8 then Parsed(e.(fault := Some(NameExceedsRecord)), false)
      else
        Parsed(e.(name := block[offset + 8..offset + 8 + nameLen],
                  fault := if inode > fs.sb.inodesCount then Some(BadInodeReference) else None), false)
  }

  /** What parsing makes of a record, by the bytes of its header. */
  lemma EntryMeaning(fs: Fs, block: seq<byte>, logical: nat, physical: nat, offset: nat, limit: nat)
    requires offset < limit <= |block|
    ensures var p := ParseEntry(fs, block, logical, physical, offset, limit);
            if limit - offset < 8 then p.fatal
            else
              var recLen, typed := Le16(block, offset + 4), fs.sb.featureIncompat / 2 % 2 == 1;
              var nameLen := if typed then block[offset + 6] as int else Le16(block, offset + 6);
              && (p.fatal <==> recLen < 8 || recLen % 4 != 0 || recLen > limit - offset)
              && (p.entry.fault == None <==>
                  !p.fatal && nameLen <= 255 && nameLen <= recLen - 8 && Le32(block, offset) <= fs.sb.inodesCount)
              && p.entry.inode == Le32(block, offset) && p.entry.recLen == recLen
              && p.entry.fileType == (if typed then block[offset + 7] as int else 0)
              && (p.entry.fault == None ==> p.entry.name == block[offset + 8..offset + 8 + nameLen])
  {
    Masks(fs.sb.featureIncompat);
    hide BitAnd, Le16, Le32;
  }

  /** All records that the scan of a block parses from `offset` on. */
  function Records(fs: Fs, block: seq<byte>, logical: nat, physical: nat, offset: nat, limit: nat): seq<DirEntry>
    requires limit <= |block|
    decreases limit - offset
  {
    if offset >= limit then []
    else
      var p := ParseEntry(fs, block, logical, physical, offset, limit);
      if p.fatal then [p.entry]
      else [p.entry] + Records(fs, block, logical, physical, offset + p.entry.recLen, limit)
  }

  predicate Live(e: DirEntry) {
    e.inode != 0 || Corrupt(e)
  }

  /** The records handed to the callback: unused ones are skipped. */
  function Delivered(rs: seq<DirEntry>): seq<DirEntry> {
    if rs == [] then [] else (if Live(rs[0]) then [rs[0]] else []) + Delivered(rs[1..])
  }

  /** The callbacks in use: those that look at every entry, and the one that stops at a name. */
  datatype Callback = Every | Lookup(name: seq<byte>)

  predicate Matches(name: seq<byte>, e: DirEntry) {
    !Corrupt(e) && CString(e.name) == name
  }

  /** The callback returns nonzero. */
  predicate Stops(cb: Callback, e: DirEntry) {
    cb.Lookup? && Matches(cb.name, e)
  }

  /** The entries up to and including the first one that stops the callback. */
  function Through(es: seq<DirEntry>, cb: Callback): seq<DirEntry> {
    if es == [] then [] else if Stops(cb, es[0]) then [es[0]] else [es[0]] + Through(es[1..], cb)
  }

  /** The entries a callback was called with, and whether the scan returned 0. */
  datatype Scan = Scan(entries: seq<DirEntry>, ok: bool)

  predicate Smooth(cb: Callback, e: DirEntry) {
    !Corrupt(e) && !Stops(cb, e)
  }

  function ScanOf(es: seq<DirEntry>, cb: Callback): Scan {
    Scan(Through(es, cb), forall i | 0 <= i < |Through(es, cb)| :: Smooth(cb, Through(es, cb)[i]))
  }

  /** How much of a directory block belongs to the directory. */
  function Limit(fs: Fs, size: nat, logical: nat): (r: nat)
    ensures r <= fs.blockSize
  {
    var start := Wrap64(logical * fs.blockSize);
    if size <= start then 0 else if size - start > fs.blockSize then fs.blockSize else size - start
  }

  /** The outcome of `parse_directory_block`. */
  function BlockScan(fs: Fs, size: nat, logical: nat, physical: nat, cb: Callback): Scan {
    if !BlockIndexValid(fs, physical) then Scan([], false)
    else if Limit(fs, size, logical) == 0 && fs.blockSize > 0 then Scan([], true)
    else
      match ReadBlock(fs.dev, fs.blockSize, physical)
      case None => Scan([], false)
      case Some(block) =>
        ScanOf(Delivered(Records(fs, block, logical, physical, 0, Limit(fs, size, logical))), cb)
  }

  /** `struct block_visit_context` together with the callback's record of its calls. */
  class Visitor {
    const callback: Callback
    var delivered: seq<DirEntry>
    var failed: bool

    constructor (callback: Callback)
      ensures this.callback == callback && delivered == [] && !failed
    {
      this.callback := callback;
      delivered := [];
      failed := false;
    }

    method Call(e: DirEntry) returns (stop: bool)
      modifies this`delivered
      ensures delivered == old(delivered) + [e] && stop == Stops(callback, e)
    {
      delivered := delivered + [e];
      return Stops(callback, e);
    }
  }

  lemma ThroughStep(es: seq<DirEntry>, cb: Callback)
    requires es != []
    ensures Through(es, cb) == if Stops(cb, es[0]) then [es[0]] else [es[0]] + Through(es[1..], cb)
  {
  }

  lemma RecordsStep(fs: Fs, block: seq<byte>, logical: nat, physical: nat, offset: nat, limit: nat)
    requires offset < limit <= |block|
    ensures var p := ParseEntry(fs, block, logical, physical, offset, limit);
            Records(fs, block, logical, physical, offset, limit) ==
            [p.entry] + if p.fatal then [] else Records(fs, block, logical, physical, offset + p.entry.recLen, limit)
  {
  }

  lemma RecordsEnd(fs: Fs, block: seq<byte>, logical: nat, physical: nat, limit: nat)
    requires limit <= |block|
    ensures Records(fs, block, logical, physical, limit, limit) == []
  {
  }

  lemma NothingLeft(cb: Callback)
    ensures Through(Delivered([]), cb) == []
  {
  }

  lemma DeliveredStep(e: DirEntry, rs: seq<DirEntry>)
    ensures Delivered([e] + rs) == if Live(e) then [e] + Delivered(rs) else Delivered(rs)
  {
    assert ([e] + rs)[1..] == rs;
  }

  ghost predicate AllSmooth(cb: Callback, es: seq<DirEntry>) {
    forall i | 0 <= i < |es| :: Smooth(cb, es[i])
  }

  /** The record loop of `parse_directory_block`. */
  method ScanLoop(fs: Fs, block: seq<byte>, logical: nat, physical: nat, limit: nat, visitor: Visitor)
    returns (ok: bool)
    requires limit <= |block|
    modifies visitor`delivered
    ensures var scan := ScanOf(Delivered(Records(fs, block, logical, physical, 0, limit)), visitor.callback);
            ok == scan.ok && visitor.delivered == old(visitor.delivered) + scan.entries
  {
    hide Stops, Records, ParseEntry, Through, Delivered, Smooth, AllSmooth, Live;
    ghost var cb, rest := visitor.callback, Records(fs, block, logical, physical, 0, limit);
    ghost var all := Through(Delivered(rest), cb);
    ghost var seen: seq<DirEntry> := [];
    ScanMeaning(Delivered(rest), cb);
    NothingSmooth(cb);
    var offset: nat := 0;
    ok := true;
    while offset < limit
      invariant offset <= limit
      invariant rest == Records(fs, block, logical, physical, offset, limit)
      invariant visitor.delivered == old(visitor.delivered) + seen
      invariant all == seen + Through(Delivered(rest), cb)
      invariant ok == AllSmooth(cb, seen)
    {
      var p := ParseEntry(fs, block, logical, physical, offset, limit);
      RecordsStep(fs, block, logical, physical, offset, limit);
      ghost var tail := if p.fatal then [] else Records(fs, block, logical, physical, offset + p.entry.recLen, limit);
      LoopStep(cb, all, seen, p.entry, tail);
      if p.entry.inode != 0 || Corrupt(p.entry) {
        var stop := visitor.Call(p.entry);
        SmoothAppend(cb, seen, p.entry);
        seen := seen + [p.entry];
        if stop {
          return false;
        }
      }
      if Corrupt(p.entry) {
        ok := false;
      }
      rest := tail;
      if p.fatal || p.entry.recLen == 0 {
        NothingLeft(cb);
        assert all == seen;
        return;
      }
      offset := offset + p.entry.recLen;
    }
    RecordsEnd(fs, block, logical, physical, limit);
    NothingLeft(cb);
    assert all == seen;
  }

  /** What one record adds to the calls made, and what is then still to come. */
  lemma LoopStep(cb: Callback, all: seq<DirEntry>, seen: seq<DirEntry>, e: DirEntry, tail: seq<DirEntry>)
    requires all == seen + Through(Delivered([e] + tail), cb)
    ensures if e.inode != 0 || Corrupt(e)
            then if Stops(cb, e) then all == seen + [e] else all == seen + [e] + Through(Delivered(tail), cb)
            else all == seen + Through(Delivered(tail), cb)
    ensures Smooth(cb, e) <==> !Corrupt(e) && !Stops(cb, e)
  {
    hide Stops, Corrupt;
    DeliveredStep(e, tail);
    if Live(e) {
      ThroughStep([e] + Delivered(tail), cb);
      assert ([e] + Delivered(tail))[1..] == Delivered(tail);
    }
  }

  lemma NothingSmooth(cb: Callback)
    ensures AllSmooth(cb, [])
  {
  }

  lemma ScanMeaning(es: seq<DirEntry>, cb: Callback)
    ensures ScanOf(es, cb) == Scan(Through(es, cb), AllSmooth(cb, Through(es, cb)))
  {
  }

  lemma SmoothAppend(cb: Callback, es: seq<DirEntry>, e: DirEntry)
    ensures AllSmooth(cb, es + [e]) <==> AllSmooth(cb, es) && Smooth(cb, e)
  {
    assert (es + [e])[|es|] == e;
    assert forall i | 0 <= i < |es| :: (es + [e])[i] == es[i];
  }

  /** `parse_directory_block`. */
  method ParseDirectoryBlock(fs: Fs, inode: Inode, logical: nat, physical: nat, visitor: Visitor) returns (ok: bool)
    requires fs.blockSize > 0
    modifies visitor`delivered
    ensures var scan := BlockScan(fs, inode.size, logical, physical, visitor.callback);
            ok == scan.ok && visitor.delivered == old(visitor.delivered) + scan.entries
  {
    if !BlockIndexValid(fs, physical) {
      return false;
    }
    var start := Wrap64(logical * fs.blockSize);
    if inode.size <= start {
      return true;
    }
    var limit := inode.size - start;
    if limit > fs.blockSize {
      limit := fs.blockSize;
    }
    var block := ReadBlock(fs.dev, fs.blockSize, physical);
    if block == None {
      return false;
    }
    ok := ScanLoop(fs, block.value, logical, physical, limit, visitor);
  }
}
