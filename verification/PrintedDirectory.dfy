/** Whole directories as the printer of ext4_metadata_tests.c leaves them: listing, lookup and descent. */
module PrintedDirectory {
  import opened Bytes
  import opened Arithmetic
  import opened Super
  import opened Inode
  import opened Dir
  import opened DirRoundTrip
  import opened Extent
  import opened Lookup
  import opened SearchSpec
  import opened Names

  /**
   * Inode `dir` is a directory that uses direct pointers only, and for each of its blocks that is
   * mapped and begins before its end, `pages` has the records printed there.
   */
  ghost predicate PrintedDir(fs: Fs, dir: nat, inode: Inode, pages: seq<seq<Rec>>)
    requires Geometry(fs)
  {
    && fs.sb.featureIncompat / 2 % 2 == 1
    && ReadInode(fs, dir) == Some(inode) && inode.mode / 0x1000 == 4 && inode.flags / 0x8_0000 % 2 == 0
    && inode.block[12] == 0 && inode.block[13] == 0 && inode.block[14] == 0
    && |pages| == 12
    && forall i | 0 <= i < 12 && InPlace(fs, inode, i) ::
         Fills(fs, inode.size, i, pages[i]) && Printed(fs, inode.block[i], pages[i])
  }

  /** Block `i` of the directory is mapped and begins before the directory's end. */
  predicate InPlace(fs: Fs, inode: Inode, i: nat)
    requires |inode.block| == 15 && i < 12
  {
    inode.block[i] != 0 && i * fs.blockSize < inode.size
  }

  /** The entries of page `i` that should be delivered. */
  function PageEntries(fs: Fs, inode: Inode, pages: seq<seq<Rec>>, i: nat): seq<DirEntry>
    requires |inode.block| == 15 && |pages| == 12 && i < 12
  {
    if InPlace(fs, inode, i) then InUse(pages[i], i, inode.block[i], 0) else []
  }

  function EntriesFrom(fs: Fs, inode: Inode, pages: seq<seq<Rec>>, i: nat): seq<DirEntry>
    requires |inode.block| == 15 && |pages| == 12 && i <= 12
    decreases 12 - i
  {
    if i == 12 then [] else PageEntries(fs, inode, pages, i) + EntriesFrom(fs, inode, pages, i + 1)
  }

  lemma PageScans(fs: Fs, dir: nat, inode: Inode, pages: seq<seq<Rec>>, i: nat)
    requires Geometry(fs) && PrintedDir(fs, dir, inode, pages) && i < 12 && inode.block[i] != 0
    requires inode.block[i] < fs.blocksCount
    ensures BlockScan(fs, inode.size, i, inode.block[i], Every) == Scan(PageEntries(fs, inode, pages, i), true)
  {
    hide ReadInode, InUse, BlockScan, Fills, Printed;
    assert i * fs.blockSize <= 12 * 65536 by {
      MulMonotone(i, 12, fs.blockSize);
      MulMonotone(fs.blockSize, 65536, 12);
    }
    if InPlace(fs, inode, i) {
      PrintedBlockParses(fs, inode.size, i, inode.block[i], pages[i]);
    } else {
      OtherBlocks(fs, inode.size, i, inode.block[i], Every);
    }
  }

  lemma {:induction false} PagesScan(fs: Fs, dir: nat, inode: Inode, pages: seq<seq<Rec>>, i: nat)
    requires Geometry(fs) && PrintedDir(fs, dir, inode, pages) && i <= 12
    requires |inode.block| == 15 && |pages| == 12
    requires forall j | 0 <= j < 15 :: inode.block[j] == 0 || inode.block[j] < fs.blocksCount
    ensures ScanBlocks(fs, inode.size, DirectBlocks(inode.block, i), Every) ==
            Scan(EntriesFrom(fs, inode, pages, i), true)
    decreases 12 - i
  {
    hide PrintedDir, Geometry, BlockScan, PageEntries;
    if i < 12 {
      PagesScan(fs, dir, inode, pages, i + 1);
      var rest := DirectBlocks(inode.block, i + 1);
      if inode.block[i] != 0 {
        PageScans(fs, dir, inode, pages, i);
        assert DirectBlocks(inode.block, i) == [Mapping(i, inode.block[i])] + rest;
        assert ([Mapping(i, inode.block[i])] + rest)[1..] == rest;
      } else {
        NoPage(fs, inode, pages, i);
        assert DirectBlocks(inode.block, i) == [] + rest == rest;
      }
    }
  }

  lemma NoPage(fs: Fs, inode: Inode, pages: seq<seq<Rec>>, i: nat)
    requires |inode.block| == 15 && |pages| == 12 && i < 12 && inode.block[i] == 0
    ensures PageEntries(fs, inode, pages, i) == []
  {
  }

  lemma PrintedPointers(fs: Fs, dir: nat, inode: Inode, pages: seq<seq<Rec>>)
    requires Geometry(fs) && PrintedDir(fs, dir, inode, pages)
    ensures inode.kind == Directory && !UsesExtents(inode)
    ensures forall j | 0 <= j < 15 :: inode.block[j] == 0 || inode.block[j] < fs.blocksCount
  {
    hide Fills, Printed, BitAnd, DecodeInode, RawInode;
    Masks(inode.flags);
    InodeFields(dir, RawInode(fs, dir).value);
  }

  /** Listing a printed directory delivers the records in use of all its blocks, in order, and succeeds. */
  lemma PrintedListing(fs: Fs, dir: nat, inode: Inode, pages: seq<seq<Rec>>)
    requires Geometry(fs) && PrintedDir(fs, dir, inode, pages)
    ensures ListDirectory(fs, dir, Every) == Scan(EntriesFrom(fs, inode, pages, 0), true)
  {
    PrintedPointers(fs, dir, inode, pages);
    PagesScan(fs, dir, inode, pages, 0);
    hide ScanBlocks, EntriesFrom, UsesExtents, Fills, Printed;
  }

  /**
   * What cannot be loaded or is not a directory by its mode has no entries and fails to list; so does
   * a directory whose blocks cannot all be walked, after the entries of those that can.
   */
  lemma ListingRefused(fs: Fs, dir: nat, cb: Callback)
    requires Geometry(fs)
    ensures ReadInode(fs, dir) == None || ReadInode(fs, dir).value.mode / 0x1000 != 4 ==>
              ListDirectory(fs, dir, cb) == Scan([], false)
    ensures ReadInode(fs, dir).Some? && ReadInode(fs, dir).value.mode / 0x1000 == 4 ==>
              var inode := ReadInode(fs, dir).value;
              && ListDirectory(fs, dir, cb).entries ==
                 ScanBlocks(fs, inode.size, WalkInode(fs, inode).blocks, cb).entries
              && (ListDirectory(fs, dir, cb).ok <==>
                    && WalkInode(fs, inode).end == Finished
                    && ScanBlocks(fs, inode.size, WalkInode(fs, inode).blocks, cb).ok)
  {
    if ReadInode(fs, dir).Some? {
      InodeFields(dir, RawInode(fs, dir).value);
    }
    hide ScanBlocks, WalkInode, DecodeInode;
  }

  predicate BlockFine(fs: Fs, size: nat, m: Mapping, cb: Callback) {
    BlockScan(fs, size, m.logical, m.physical, cb).ok
  }

  /** A listing fails exactly if the scan of some block fails; the blocks after it are still scanned. */
  lemma {:induction false} EveryBlockScanned(fs: Fs, size: nat, blocks: seq<Mapping>, cb: Callback, e: DirEntry)
    ensures ScanBlocks(fs, size, blocks, cb).ok <==> forall m | m in blocks :: BlockFine(fs, size, m, cb)
    ensures e in ScanBlocks(fs, size, blocks, cb).entries <==>
            exists m :: m in blocks && e in BlockScan(fs, size, m.logical, m.physical, cb).entries
  {
    hide BlockScan;
    if blocks != [] {
      EveryBlockScanned(fs, size, blocks[1..], cb, e);
      assert forall m :: m in blocks <==> m == blocks[0] || m in blocks[1..] by {
        assert blocks == [blocks[0]] + blocks[1..];
      }
      assert BlockFine(fs, size, blocks[0], cb) ==
             BlockScan(fs, size, blocks[0].logical, blocks[0].physical, cb).ok;
    }
  }

  // The entries of a printed directory and its records.

  /** `e` is what record `r` is read back as. */
  predicate ReadsBack(r: Rec, e: DirEntry) {
    e.inode == r.inode && e.name == r.name && e.fileType == r.fileType && e.fault == None
  }

  lemma {:induction false} InUseComesFrom(recs: seq<Rec>, logical: nat, physical: nat, offset: nat, e: DirEntry)
    returns (r: Rec)
    requires e in InUse(recs, logical, physical, offset)
    ensures r in recs && r.inode != 0 && ReadsBack(r, e)
    decreases recs
  {
    var next := offset + recs[0].recLen;
    if recs[0].inode != 0 && e == EntryOf(recs[0], logical, physical, offset) {
      return recs[0];
    }
    r := InUseComesFrom(recs[1..], logical, physical, next, e);
  }

  lemma {:induction false} InUseHas(recs: seq<Rec>, logical: nat, physical: nat, offset: nat, r: Rec)
    returns (e: DirEntry)
    requires r in recs && r.inode != 0
    ensures e in InUse(recs, logical, physical, offset) && ReadsBack(r, e)
    decreases recs
  {
    if r == recs[0] {
      return EntryOf(r, logical, physical, offset);
    }
    e := InUseHas(recs[1..], logical, physical, offset + recs[0].recLen, r);
  }

  /** Record `r` is in use on some page of the directory. */
  ghost predicate HasRecord(fs: Fs, inode: Inode, pages: seq<seq<Rec>>, r: Rec)
    requires |inode.block| == 15 && |pages| == 12
  {
    r.inode != 0 && exists i :: 0 <= i < 12 && InPlace(fs, inode, i) && r in pages[i]
  }

  lemma {:induction false} EntryComesFrom(fs: Fs, inode: Inode, pages: seq<seq<Rec>>, i: nat, e: DirEntry)
    returns (r: Rec)
    requires |inode.block| == 15 && |pages| == 12 && i <= 12 && e in EntriesFrom(fs, inode, pages, i)
    ensures HasRecord(fs, inode, pages, r) && ReadsBack(r, e)
    decreases 12 - i
  {
    hide InUse, ReadsBack;
    if e in PageEntries(fs, inode, pages, i) {
      r := InUseComesFrom(pages[i], i, inode.block[i], 0, e);
    } else {
      r := EntryComesFrom(fs, inode, pages, i + 1, e);
    }
  }

  lemma {:induction false} EntryIsThere(fs: Fs, inode: Inode, pages: seq<seq<Rec>>, i: nat, j: nat, r: Rec)
    returns (e: DirEntry)
    requires |inode.block| == 15 && |pages| == 12 && i <= j < 12
    requires InPlace(fs, inode, j) && r in pages[j] && r.inode != 0
    ensures e in EntriesFrom(fs, inode, pages, i) && ReadsBack(r, e)
    decreases 12 - i
  {
    hide InUse, ReadsBack;
    if i == j {
      e := InUseHas(pages[i], i, inode.block[i], 0, r);
      assert e in PageEntries(fs, inode, pages, i);
    } else {
      e := EntryIsThere(fs, inode, pages, i + 1, j, r);
    }
  }

  /** The listing has only records in use ... */
  lemma ListedComesFrom(fs: Fs, dir: nat, inode: Inode, pages: seq<seq<Rec>>, e: DirEntry) returns (r: Rec)
    requires Geometry(fs) && PrintedDir(fs, dir, inode, pages) && e in Listing(fs, dir).entries
    ensures HasRecord(fs, inode, pages, r) && ReadsBack(r, e)
  {
    PrintedListing(fs, dir, inode, pages);
    hide Fills, Printed, EntriesFrom, ReadsBack, ListDirectory, ReadInode, HasRecord;
    r := EntryComesFrom(fs, inode, pages, 0, e);
  }

  /** ... and all of them. */
  lemma RecordIsListed(fs: Fs, dir: nat, inode: Inode, pages: seq<seq<Rec>>, r: Rec) returns (e: DirEntry)
    requires Geometry(fs) && PrintedDir(fs, dir, inode, pages) && HasRecord(fs, inode, pages, r)
    ensures e in Listing(fs, dir).entries && ReadsBack(r, e)
  {
    PrintedListing(fs, dir, inode, pages);
    hide Fills, Printed, EntriesFrom, ReadsBack, ListDirectory, ReadInode;
    var j :| 0 <= j < 12 && InPlace(fs, inode, j) && r in pages[j];
    e := EntryIsThere(fs, inode, pages, 0, j, r);
  }

  /**
   * The edges of the directory graph that leave a printed directory are its records of type directory
   * (2) whose name, up to its first zero, is neither "." nor "..".
   */
  lemma PrintedEdges(fs: Fs, dir: nat, inode: Inode, pages: seq<seq<Rec>>, to: nat)
    requires Geometry(fs) && PrintedDir(fs, dir, inode, pages)
    ensures Edge(fs, dir, to) <==>
            exists r :: HasRecord(fs, inode, pages, r) && r.inode == to && LeadsDown(r.fileType, r.name)
  {
    EdgeMeans(fs, dir, to);
    hide PrintedDir, HasRecord, Listing, LeadsDown, Geometry, Edge;
    if e :| e in Listing(fs, dir).entries && e.fault == None && e.inode == to && LeadsDown(e.fileType, e.name) {
      var r := ListedComesFrom(fs, dir, inode, pages, e);
    }
    if r :| HasRecord(fs, inode, pages, r) && r.inode == to && LeadsDown(r.fileType, r.name) {
      var e := RecordIsListed(fs, dir, inode, pages, r);
    }
  }

  /** A search by name reports on a printed directory exactly if a record in use has that name. */
  lemma PrintedNames(fs: Fs, dir: nat, inode: Inode, pages: seq<seq<Rec>>, name: seq<byte>)
    requires Geometry(fs) && PrintedDir(fs, dir, inode, pages) && 0 !in name
    ensures (exists e :: e in Listing(fs, dir).entries && Reports(ByName(name), e)) <==>
            exists r :: HasRecord(fs, inode, pages, r) && CutIs(r.name, name)
  {
    assert |inode.block| == 15 && |pages| == 12;
    hide PrintedDir, HasRecord, Listing, CutIs, Reports, Geometry;
    if e :| e in Listing(fs, dir).entries && Reports(ByName(name), e) {
      ReportsMeans(ByName(name), e);
      var r := ListedComesFrom(fs, dir, inode, pages, e);
    }
    if r :| HasRecord(fs, inode, pages, r) && CutIs(r.name, name) {
      var e := RecordIsListed(fs, dir, inode, pages, r);
      ReportsMeans(ByName(name), e);
    }
  }

  /**
   * The round trip of lookup: a name that a record in use carries is found, with that record's inode
   * if all records of that name agree on it; a name that none carries is not found.
   */
  lemma PrintedLookup(fs: Fs, dir: nat, inode: Inode, pages: seq<seq<Rec>>, name: seq<byte>)
    requires Geometry(fs) && PrintedDir(fs, dir, inode, pages) && 0 !in name && |name| <= 255
    ensures FindEntry(fs, dir, name).Some? <==> exists r :: HasRecord(fs, inode, pages, r) && CutIs(r.name, name)
    ensures FindEntry(fs, dir, name).Some? ==>
              exists r :: HasRecord(fs, inode, pages, r) && CutIs(r.name, name)
                          && FindEntry(fs, dir, name).value.inode == r.inode
  {
    LookupByName(fs, dir, name);
    ListingIs(fs, dir);
    hide PrintedDir, HasRecord, Listing, ListDirectory, FindEntry, CutIs, Geometry;
    if FindEntry(fs, dir, name).Some? {
      var r := ListedComesFrom(fs, dir, inode, pages, FindEntry(fs, dir, name).value);
    }
    if r :| HasRecord(fs, inode, pages, r) && CutIs(r.name, name) {
      var e := RecordIsListed(fs, dir, inode, pages, r);
    }
  }

  lemma ListingIs(fs: Fs, dir: nat)
    requires Geometry(fs)
    ensures Listing(fs, dir) == ListDirectory(fs, dir, Every)
  {
  }
}
