/** What a directory search should visit and report, and the invariant that its steps keep. */
module SearchSpec {
  import opened Bytes
  import opened Super
  import opened Dir
  import opened Extent
  import opened DirTiling
  import opened Growth

  const DEPTH_LIMIT: nat := 1024

  datatype Mode = ByName(name: seq<byte>) | ByInode(inode: nat) | Corrupted

  /** The callback prints a match for `e`. */
  predicate Reports(mode: Mode, e: DirEntry) {
    match mode
    case ByName(name) => Matches(name, e)
    case ByInode(inode) => !Corrupt(e) && e.inode == inode
    case Corrupted => Corrupt(e)
  }

  /** The callback descends into `e`. */
  predicate Descends(e: DirEntry) {
    !Corrupt(e) && e.fileType == FT_DIR && CString(e.name) != [0x2E] && CString(e.name) != [0x2E, 0x2E]
  }

  function Listing(fs: Fs, dir: nat): Scan
    requires Geometry(fs)
  {
    ListDirectory(fs, dir, Every)
  }

  // The directory graph.

  ghost predicate Edge(fs: Fs, a: nat, b: nat)
    requires Geometry(fs)
  {
    exists i :: 0 <= i < |Listing(fs, a).entries| &&
      Descends(Listing(fs, a).entries[i]) && Listing(fs, a).entries[i].inode == b
  }

  ghost predicate IsPath(fs: Fs, p: seq<nat>, from: nat, to: nat)
    requires Geometry(fs)
  {
    && p != [] && p[0] == from && p[|p| - 1] == to
    && forall i | 0 <= i < |p| - 1 :: Edge(fs, p[i], p[i + 1])
  }

  ghost predicate Reachable(fs: Fs, from: nat, to: nat)
    requires Geometry(fs)
  {
    exists p :: IsPath(fs, p, from, to)
  }

  /** Some path from `from` leads through more different directories than the depth limit admits. */
  ghost predicate TooDeep(fs: Fs, from: nat)
    requires Geometry(fs)
  {
    exists p: seq<nat> :: |p| > 1024 && IsPath(fs, p, from, p[|p| - 1]) && DuplicateFree(p)
  }

  /** A path of at most 1025 directories leads to `d`. */
  ghost predicate Near(fs: Fs, from: nat, d: nat)
    requires Geometry(fs)
  {
    exists p :: IsPath(fs, p, from, d) && |p| <= 1025
  }

  /** `p` leads to `d` through 1025 different directories, all of them among `items`. */
  ghost predicate DeepPath(fs: Fs, from: nat, d: nat, items: seq<nat>, p: seq<nat>)
    requires Geometry(fs)
  {
    |p| == 1025 && IsPath(fs, p, from, d) && DuplicateFree(p) && forall x | x in p :: x in items
  }

  ghost predicate DeepAt(fs: Fs, from: nat, d: nat, items: seq<nat>)
    requires Geometry(fs)
  {
    exists p :: DeepPath(fs, from, d, items, p)
  }

  lemma DeepLater(fs: Fs, from: nat, d: nat, items: seq<nat>, more: seq<nat>)
    requires Geometry(fs) && DeepAt(fs, from, d, items) && forall x | x in items :: x in more
    ensures DeepAt(fs, from, d, more)
  {
    hide IsPath, DuplicateFree;
    var p :| DeepPath(fs, from, d, items, p);
    assert DeepPath(fs, from, d, more, p);
  }

  lemma DeepIsTooDeep(fs: Fs, from: nat, d: nat, items: seq<nat>)
    requires Geometry(fs) && DeepAt(fs, from, d, items)
    ensures TooDeep(fs, from)
  {
    hide Edge;
    var p :| DeepPath(fs, from, d, items, p);
    assert IsPath(fs, p, from, p[|p| - 1]);
  }

  /** Listing the directories that can be reached never reads past the end of an extent node. */
  ghost predicate Searchable(fs: Fs, from: nat)
    requires Geometry(fs)
  {
    forall d | Reachable(fs, from, d) :: Contained(fs, d)
  }

  lemma ReachesSelf(fs: Fs, from: nat)
    requires Geometry(fs)
    ensures Reachable(fs, from, from)
  {
    assert IsPath(fs, [from], from, from);
  }

  lemma ReachesNext(fs: Fs, from: nat, a: nat, b: nat)
    requires Geometry(fs) && Reachable(fs, from, a) && Edge(fs, a, b)
    ensures Reachable(fs, from, b)
  {
    hide Edge;
    var p :| IsPath(fs, p, from, a);
    var q := p + [b];
    assert forall i | 0 <= i < |q| - 1 :: Edge(fs, q[i], q[i + 1]);
    assert IsPath(fs, q, from, b);
  }

  /** Whatever is reachable besides the start is the end of an edge from something reachable. */
  lemma LastEdge(fs: Fs, from: nat, to: nat) returns (d: nat)
    requires Geometry(fs) && Reachable(fs, from, to) && to != from
    ensures Reachable(fs, from, d) && Edge(fs, d, to)
  {
    hide Edge;
    var p :| IsPath(fs, p, from, to);
    var n := |p| - 1;
    d := p[n - 1];
    assert forall i | 0 <= i < n - 1 :: Edge(fs, p[i], p[i + 1]);
    assert Edge(fs, p[n - 1], p[n - 1 + 1]) && IsPath(fs, p[..n], from, d);
  }

  /** A set of inodes that contains the start and all successors of its members contains all that is reachable. */
  lemma {:induction false} ClosedContainsPath(fs: Fs, s: set<nat>, p: seq<nat>, from: nat, to: nat)
    requires Geometry(fs) && from in s && IsPath(fs, p, from, to)
    requires forall a, b | a in s && Edge(fs, a, b) :: b in s
    ensures to in s
    decreases |p|
  {
    hide Edge;
    if |p| > 1 {
      var n := |p| - 1;
      var q := p[..n];
      assert forall i | 0 <= i < |q| - 1 :: Edge(fs, q[i], q[i + 1]);
      assert IsPath(fs, q, from, p[n - 1]);
      ClosedContainsPath(fs, s, q, from, p[n - 1]);
      assert Edge(fs, p[n - 1], p[n - 1 + 1]);
    }
  }

  // Facts about a listing.

  lemma {:induction false} ThroughFrom(es: seq<DirEntry>, cb: Callback, e: DirEntry)
    requires e in Through(es, cb)
    ensures e in es
  {
    if es != [] && e != es[0] && !Stops(cb, es[0]) {
      ThroughFrom(es[1..], cb, e);
    }
  }

  lemma {:induction false} RecordInode(fs: Fs, block: seq<byte>, logical: nat, physical: nat, offset: nat, limit: nat,
                                      e: DirEntry)
    requires limit <= |block| && e in Records(fs, block, logical, physical, offset, limit) && !Corrupt(e)
    ensures e.inode <= fs.sb.inodesCount
    decreases limit - offset
  {
    hide ParseEntry, Corrupt, Records;
    if offset >= limit {
      RecordsPast(fs, block, logical, physical, offset, limit);
    } else {
      var p := ParseEntry(fs, block, logical, physical, offset, limit);
      RecordsStep(fs, block, logical, physical, offset, limit);
      if e == p.entry {
        ParsedInode(fs, block, logical, physical, offset, limit);
      } else {
        var next := offset + p.entry.recLen;
        InTail(p.entry, if p.fatal then [] else Records(fs, block, logical, physical, next, limit), e);
        RecordInode(fs, block, logical, physical, next, limit, e);
      }
    }
  }

  lemma InTail(head: DirEntry, tail: seq<DirEntry>, e: DirEntry)
    requires e in [head] + tail && e != head
    ensures e in tail
  {
  }

  lemma ParsedInode(fs: Fs, block: seq<byte>, logical: nat, physical: nat, offset: nat, limit: nat)
    requires offset < limit <= |block|
    ensures var e := ParseEntry(fs, block, logical, physical, offset, limit).entry;
            !Corrupt(e) ==> e.inode <= fs.sb.inodesCount
  {
  }

  lemma BlockInode(fs: Fs, size: nat, logical: nat, physical: nat, cb: Callback, e: DirEntry)
    requires e in BlockScan(fs, size, logical, physical, cb).entries
    ensures !Corrupt(e) ==> e.inode <= fs.sb.inodesCount
    ensures Corrupt(e) ==> !BlockScan(fs, size, logical, physical, cb).ok
  {
    hide Records, Delivered, Through;
    match Device.ReadBlock(fs.dev, fs.blockSize, physical)
    case None =>
    case Some(block) =>
      var rs := Records(fs, block, logical, physical, 0, Limit(fs, size, logical));
      ThroughFrom(Delivered(rs), cb, e);
      DeliveredMembers(rs, e);
      if !Corrupt(e) {
        RecordInode(fs, block, logical, physical, 0, Limit(fs, size, logical), e);
      }
  }

  lemma {:induction false} BlocksInode(fs: Fs, size: nat, blocks: seq<Mapping>, cb: Callback, e: DirEntry)
    requires e in ScanBlocks(fs, size, blocks, cb).entries
    ensures !Corrupt(e) ==> e.inode <= fs.sb.inodesCount
    ensures Corrupt(e) ==> !ScanBlocks(fs, size, blocks, cb).ok
  {
    hide BlockScan;
    if blocks != [] {
      var first := BlockScan(fs, size, blocks[0].logical, blocks[0].physical, cb);
      if e in first.entries {
        BlockInode(fs, size, blocks[0].logical, blocks[0].physical, cb, e);
      } else {
        BlocksInode(fs, size, blocks[1..], cb, e);
      }
    }
  }

  /** Intact entries name existing inodes, and a corrupt one makes the listing report failure. */
  lemma ListedEntry(fs: Fs, dir: nat, e: DirEntry)
    requires Geometry(fs) && e in Listing(fs, dir).entries
    ensures !Corrupt(e) ==> e.inode <= fs.sb.inodesCount
    ensures Corrupt(e) ==> !Listing(fs, dir).ok
  {
    hide Inode.ReadInode, WalkInode, ScanBlocks;
    var inode := Inode.ReadInode(fs, dir).value;
    BlocksInode(fs, inode.size, WalkInode(fs, inode).blocks, Every, e);
  }
}
