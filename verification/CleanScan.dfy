/** What a clean corruption scan says about the filesystem: block ownership is injective. */
module CleanScan {
  import opened Bytes
  import opened Arithmetic
  import opened Device
  import opened Super
  import opened Inode
  import opened Growth
  import opened Block
  import opened BlockMap
  import opened Chain
  import opened Ownership

  // The condition on the image, stated without reference to the scan.

  /** The inode record at `n` when it is an allocated regular file or directory that can be read. */
  function FileAt(fs: Fs, n: nat): (r: Option<Inode>)
    requires Geometry(fs)
    ensures r.Some? ==> |r.value.block| == N_BLOCKS
  {
    if Allocated(fs, n) != Some(true) then None
    else
      match ReadInode(fs, n)
      case None => None
      case Some(inode) => if Traversable(inode) then Some(inode) else None
  }

  /** The record at `n` is free, foreign, or a file mapped through direct and single-indirect blocks only. */
  predicate Mapped(fs: Fs, n: nat)
    requires Geometry(fs)
  {
    && Allocated(fs, n).Some?
    && (Allocated(fs, n) == Some(true) ==> ReadInode(fs, n).Some?)
    && match FileAt(fs, n)
       case None => true
       case Some(inode) => !UsesExtents(inode) && !DeepIndirection(inode) && Candidates(fs, inode).Some?
  }

  /** All references of file `n`, in scan order, zero pointers included. */
  function RefsOf(fs: Fs, n: nat): seq<BlockRef>
    requires Geometry(fs)
  {
    match FileAt(fs, n)
    case None => []
    case Some(inode) =>
      if UsesExtents(inode) then []
      else match Candidates(fs, inode) case None => [] case Some(cs) => cs
  }

  /** What the image holds at one inode number. */
  datatype File = File(mapped: bool, refs: seq<BlockRef>)

  /** The inode numbers 1 .. inodesCount, in order. */
  function Files(fs: Fs): (files: seq<File>)
    requires Geometry(fs)
    ensures |files| == fs.sb.inodesCount
  {
    seq(fs.sb.inodesCount, i requires 0 <= i < fs.sb.inodesCount => File(Mapped(fs, i + 1), RefsOf(fs, i + 1)))
  }

  /** File number `n` points at `block` from position `k` of its block map. */
  predicate PointsAt(files: seq<File>, n: nat, k: nat, block: nat) {
    1 <= n <= |files| && k < |files[n - 1].refs| && files[n - 1].refs[k].block == block && block != 0
  }

  /** Every file is mapped, and the map from block-map positions to blocks is in range and one-to-one. */
  ghost predicate Injective(files: seq<File>, blocksCount: nat) {
    && (forall i | 0 <= i < |files| :: files[i].mapped)
    && (forall n: nat, k: nat, b: nat | PointsAt(files, n, k, b) :: b < blocksCount)
    && (forall n: nat, k: nat, m: nat, j: nat, b: nat | PointsAt(files, n, k, b) && PointsAt(files, m, j, b) ::
          n == m && k == j)
  }

  /** Logical index and kind together name a position of a block map. */
  lemma PositionsDiffer(fs: Fs, inode: Inode, k: nat, j: nat)
    requires |inode.block| == N_BLOCKS && Candidates(fs, inode).Some? && k < j < |Candidates(fs, inode).value|
    ensures var cs := Candidates(fs, inode).value;
            cs[k].logical != cs[j].logical || cs[k].kind != cs[j].kind
  {
    if inode.block[12] != 0 {
      var direct, table := DirectRefs(inode), TableRefs(ReadBlock(fs.dev, fs.blockSize, inode.block[12]).value);
      ScanOrder(direct, TableRef(inode), table, k);
      ScanOrder(direct, TableRef(inode), table, j);
    }
  }

  lemma ScanOrder(direct: seq<BlockRef>, mid: BlockRef, table: seq<BlockRef>, k: nat)
    requires k < |direct| + 1 + |table|
    ensures (direct + [mid] + table)[k] ==
            if k < |direct| then direct[k] else if k == |direct| then mid else table[k - |direct| - 1]
  {
  }

  // A single inode.

  /** The nonzero blocks of a reference list exist and differ from each other. */
  ghost predicate OneToOne(blocksCount: nat, cs: seq<BlockRef>) {
    && (forall k | 0 <= k < |cs| && cs[k].block != 0 :: cs[k].block < blocksCount)
    && (forall j, k | 0 <= j < k < |cs| && cs[k].block != 0 :: cs[j].block != cs[k].block)
  }

  lemma {:induction false} NothingRefused(fs: Fs, cs: seq<BlockRef>)
    ensures Refused(fs, cs) == 0 <==> OneToOne(fs.blocksCount, cs)
  {
    if cs != [] {
      var n := |cs| - 1;
      var init, last := cs[..n], cs[n];
      NothingRefused(fs, init);
      assert forall k | 0 <= k < n :: cs[k] == init[k] && BlocksOf(init)[k] == cs[k].block;
      if OneToOne(fs.blocksCount, cs) {
        assert OneToOne(fs.blocksCount, init);
      }
    }
  }

  ghost predicate Sound(file: File, blocksCount: nat) {
    file.mapped && OneToOne(blocksCount, file.refs)
  }

  /** An outcome fits a file: it is free of corruption exactly when the file is sound, and then lists its blocks. */
  ghost predicate Fits(outcome: Outcome, file: File, blocksCount: nat) {
    && (CorruptionOf(outcome, false) == 0 <==> Sound(file, blocksCount))
    && (Sound(file, blocksCount) ==>
          forall b: nat :: Lists(outcome, b) <==> b != 0 && b in BlocksOf(file.refs))
  }

  predicate Lists(outcome: Outcome, block: nat) {
    outcome.Analyzed? && References(outcome.chain, block)
  }

  lemma ExamineFits(fs: Fs, n: nat, outcome: Outcome, file: File)
    requires Geometry(fs) && outcome == Examine(fs, n) && file == File(Mapped(fs, n), RefsOf(fs, n))
    ensures Fits(outcome, file, fs.blocksCount)
  {
    hide Allocated, ReadInode, Kept, Candidates, Geometry;
    var refs := RefsOf(fs, n);
    NothingRefused(fs, refs);
    NothingRefused(fs, []);
    if Mapped(fs, n) && OneToOne(fs.blocksCount, refs) {
      forall b: nat
        ensures Lists(outcome, b) <==> b != 0 && b in BlocksOf(refs)
      {
        KeptBlocks(fs, refs, b);
        if b != 0 && b in BlocksOf(refs) {
          var k :| 0 <= k < |refs| && BlocksOf(refs)[k] == b;
          assert refs[k].block < fs.blocksCount;
        }
      }
    }
  }

  // The chains of a scan.

  /** Outcome `i` carries inode number `i + 1` and pairwise different blocks. */
  ghost predicate WellNumbered(os: seq<Outcome>) {
    forall i | 0 <= i < |os| && os[i].Analyzed? ::
      os[i].chain.inode == i + 1 && DuplicateFree(BlocksOf(os[i].chain.refs))
  }

  lemma ExaminedWell(fs: Fs, n: nat, outcome: Outcome)
    requires Geometry(fs) && outcome == Examine(fs, n) && outcome.Analyzed?
    ensures outcome.chain.inode == n && DuplicateFree(BlocksOf(outcome.chain.refs))
  {
    var inode := ReadInode(fs, n).value;
    if !UsesExtents(inode) {
      KeptDistinct(fs, Candidates(fs, inode).value);
    }
  }

  lemma OutcomesWellNumbered(fs: Fs, n: nat)
    requires Geometry(fs)
    ensures WellNumbered(Outcomes(fs, n))
  {
    hide Examine, BlocksOf;
    var os := Outcomes(fs, n);
    forall i | 0 <= i < |os| && os[i].Analyzed?
      ensures os[i].chain.inode == i + 1 && DuplicateFree(BlocksOf(os[i].chain.refs))
    {
      ExaminedWell(fs, i + 1, os[i]);
    }
  }

  /** Chain `c` is the analyzed outcome of an inode that was not given up. */
  predicate Recorded(os: seq<Outcome>, starved: set<nat>, c: Chain) {
    1 <= c.inode <= |os| && c.inode !in starved && os[c.inode - 1] == Analyzed(c)
  }

  lemma RecordedLater(os: seq<Outcome>, starved: set<nat>, c: Chain)
    requires os != [] && Recorded(os[..|os| - 1], starved, c)
    ensures Recorded(os, starved, c) && c.inode < |os|
  {
  }

  lemma RecordedLast(os: seq<Outcome>, starved: set<nat>)
    requires WellNumbered(os) && os != [] && os[|os| - 1].Analyzed? && |os| !in starved
    ensures Recorded(os, starved, os[|os| - 1].chain) && os[|os| - 1].chain.inode == |os|
  {
    hide DuplicateFree, BlocksOf;
  }

  lemma WellNumberedInit(os: seq<Outcome>)
    requires WellNumbered(os) && os != []
    ensures WellNumbered(os[..|os| - 1])
  {
    hide DuplicateFree, BlocksOf;
    var init := os[..|os| - 1];
    assert forall i | 0 <= i < |init| :: init[i] == os[i];
  }

  /** The recorded chains are analyzed outcomes by increasing inode number ... */
  lemma {:induction false} ChainsShape(os: seq<Outcome>, starved: set<nat>)
    requires WellNumbered(os)
    ensures Increasing(ChainsOf(os, starved))
    ensures forall i | 0 <= i < |ChainsOf(os, starved)| :: Recorded(os, starved, ChainsOf(os, starved)[i])
  {
    hide Recorded, WellNumbered;
    if os != [] {
      var init := os[..|os| - 1];
      WellNumberedInit(os);
      ChainsShape(init, starved);
      var before := ChainsOf(init, starved);
      forall i | 0 <= i < |before|
        ensures Recorded(os, starved, before[i]) && before[i].inode < |os|
      {
        RecordedLater(os, starved, before[i]);
      }
      if os[|os| - 1].Analyzed? && |os| !in starved {
        RecordedLast(os, starved);
      }
    }
  }

  /** ... and none of them is missing. */
  lemma {:induction false} ChainsComplete(os: seq<Outcome>, starved: set<nat>, n: nat)
    requires 1 <= n <= |os| && os[n - 1].Analyzed? && n !in starved
    ensures os[n - 1].chain in ChainsOf(os, starved)
  {
    if n < |os| {
      ChainsComplete(os[..|os| - 1], starved, n);
    }
  }

  lemma {:induction false} NoCorruption(os: seq<Outcome>, starved: set<nat>)
    ensures CorruptionCount(os, starved) == 0 <==>
            forall n | 1 <= n <= |os| :: CorruptionOf(os[n - 1], n in starved) == 0
  {
    if os != [] {
      var init := os[..|os| - 1];
      NoCorruption(init, starved);
      assert forall i | 0 <= i < |init| :: init[i] == os[i];
      if forall n | 1 <= n <= |os| :: CorruptionOf(os[n - 1], n in starved) == 0 {
        assert forall n | 1 <= n <= |init| :: CorruptionOf(init[n - 1], n in starved) == 0 by {
          assert forall n | 1 <= n <= |init| :: CorruptionOf(os[n - 1], n in starved) == 0;
        }
        assert CorruptionOf(os[|os| - 1], |os| in starved) == 0;
      }
    }
  }

  /** What a completed scan shows: zero corruptions and no block with two owners. */
  ghost predicate ReportsClean(os: seq<Outcome>, starved: set<nat>) {
    CorruptionCount(os, starved) == 0 && NoneShared(IndexChains(ChainsOf(os, starved)))
  }

  ghost predicate NoneShared(owners: seq<Owner>) {
    forall i | 0 <= i < |owners| :: !ReportedShared(owners[i])
  }

  /** Two different inodes are analyzed with a reference to the same block. */
  ghost predicate Collide(os: seq<Outcome>, n: nat, m: nat, block: nat) {
    1 <= n < m <= |os| && Lists(os[n - 1], block) && Lists(os[m - 1], block)
  }

  lemma SharedByTwo(chains: seq<Chain>, c: Chain, d: Chain, b: nat)
    requires c in chains && d in chains && c != d && References(c, b) && References(d, b)
    ensures Shared(chains, b)
  {
  }

  lemma CollisionIsShared(os: seq<Outcome>, n: nat, m: nat, b: nat)
    requires WellNumbered(os) && Collide(os, n, m, b)
    ensures !NoneShared(IndexChains(ChainsOf(os, {})))
  {
    hide ChainsOf, IndexChains, DuplicateFree, BlocksOf, Recorded, Increasing, ReportedShared, References, Shared;
    var chains := ChainsOf(os, {});
    ChainsShape(os, {});
    ChainsComplete(os, {}, n);
    ChainsComplete(os, {}, m);
    SharedByTwo(chains, os[n - 1].chain, os[m - 1].chain, b);
    SharedBlocksAreExact(chains, b);
  }

  lemma TwoRecordsCollide(os: seq<Outcome>, c: Chain, d: Chain, b: nat)
    requires Recorded(os, {}, c) && Recorded(os, {}, d) && c.inode < d.inode
    requires References(c, b) && References(d, b)
    ensures Collide(os, c.inode, d.inode, b)
  {
  }

  lemma SharedIsCollision(os: seq<Outcome>, k: nat)
    requires WellNumbered(os) && k < |IndexChains(ChainsOf(os, {}))|
    requires ReportedShared(IndexChains(ChainsOf(os, {}))[k])
    ensures exists n: nat, m: nat :: Collide(os, n, m, IndexChains(ChainsOf(os, {}))[k].block)
  {
    var chains := ChainsOf(os, {});
    var b := IndexChains(chains)[k].block;
    ChainsShape(os, {});
    RecordShared(chains, k);
    hide IndexChains, ChainsOf, WellNumbered, Recorded, References, Collide, ReportedShared;
    var i, j :| 0 <= i < j < |chains| && References(chains[i], b) && References(chains[j], b);
    TwoRecordsCollide(os, chains[i], chains[j], b);
  }

  lemma NoSharing(os: seq<Outcome>)
    requires WellNumbered(os)
    ensures NoneShared(IndexChains(ChainsOf(os, {}))) <==> forall n: nat, m: nat, b: nat :: !Collide(os, n, m, b)
  {
    forall n: nat, m: nat, b: nat | Collide(os, n, m, b)
      ensures !NoneShared(IndexChains(ChainsOf(os, {})))
    {
      CollisionIsShared(os, n, m, b);
    }
    var owners := IndexChains(ChainsOf(os, {}));
    forall k | 0 <= k < |owners| && ReportedShared(owners[k])
      ensures exists n: nat, m: nat :: Collide(os, n, m, owners[k].block)
    {
      SharedIsCollision(os, k);
    }
  }

  // The verdict, for outcomes that fit the files.

  ghost predicate AllFit(os: seq<Outcome>, files: seq<File>, blocksCount: nat) {
    |os| == |files| && forall i | 0 <= i < |os| :: Fits(os[i], files[i], blocksCount)
  }

  ghost predicate AllSound(files: seq<File>, blocksCount: nat) {
    forall i | 0 <= i < |files| :: Sound(files[i], blocksCount)
  }

  lemma CountVerdict(os: seq<Outcome>, files: seq<File>, blocksCount: nat, starved: set<nat>)
    requires AllFit(os, files, blocksCount) && Starvable(os, starved)
    ensures CorruptionCount(os, starved) == 0 <==> AllSound(files, blocksCount) && starved == {}
  {
    NoCorruption(os, starved);
    if CorruptionCount(os, starved) == 0 {
      forall i | 0 <= i < |files|
        ensures Sound(files[i], blocksCount)
      {
        assert CorruptionOf(os[i + 1 - 1], i + 1 in starved) == 0;
      }
    }
  }

  lemma PointsAtListed(os: seq<Outcome>, files: seq<File>, blocksCount: nat, n: nat, block: nat)
    requires AllFit(os, files, blocksCount) && AllSound(files, blocksCount) && 1 <= n <= |files|
    ensures Lists(os[n - 1], block) <==> exists k: nat :: PointsAt(files, n, k, block)
  {
    var refs := files[n - 1].refs;
    assert Fits(os[n - 1], files[n - 1], blocksCount) && Sound(files[n - 1], blocksCount);
    if Lists(os[n - 1], block) {
      var k :| 0 <= k < |refs| && BlocksOf(refs)[k] == block;
      assert PointsAt(files, n, k, block);
    }
    if k: nat :| PointsAt(files, n, k, block) {
      assert BlocksOf(refs)[k] == block;
    }
  }

  ghost predicate Separate(files: seq<File>) {
    forall n: nat, k: nat, m: nat, j: nat, b: nat | PointsAt(files, n, k, b) && PointsAt(files, m, j, b) :: n == m
  }

  /** With every file sound, outcomes collide exactly when two files point at one block. */
  lemma SharingVerdict(os: seq<Outcome>, files: seq<File>, blocksCount: nat)
    requires AllFit(os, files, blocksCount) && AllSound(files, blocksCount)
    ensures (forall n: nat, m: nat, b: nat :: !Collide(os, n, m, b)) <==> Separate(files)
  {
    forall n: nat, k: nat, m: nat, j: nat, b: nat | PointsAt(files, n, k, b) && PointsAt(files, m, j, b) && n < m
      ensures Collide(os, n, m, b)
    {
      PointsAtListed(os, files, blocksCount, n, b);
      PointsAtListed(os, files, blocksCount, m, b);
    }
    forall n: nat, m: nat, b: nat | Collide(os, n, m, b)
      ensures !Separate(files)
    {
      PointsAtListed(os, files, blocksCount, n, b);
      PointsAtListed(os, files, blocksCount, m, b);
    }
  }

  lemma SoundWhenInjective(files: seq<File>, blocksCount: nat, i: nat)
    requires Injective(files, blocksCount) && i < |files|
    ensures Sound(files[i], blocksCount)
  {
    var refs := files[i].refs;
    forall k | 0 <= k < |refs| && refs[k].block != 0
      ensures refs[k].block < blocksCount
      ensures forall j | 0 <= j < k :: refs[j].block != refs[k].block
    {
      assert PointsAt(files, i + 1, k, refs[k].block);
      forall j | 0 <= j < k && refs[j].block == refs[k].block
        ensures false
      {
        assert PointsAt(files, i + 1, j, refs[k].block);
      }
    }
  }

  lemma InjectiveWhenSound(files: seq<File>, blocksCount: nat)
    requires AllSound(files, blocksCount) && Separate(files)
    ensures Injective(files, blocksCount)
  {
    forall n: nat, k: nat, b: nat | PointsAt(files, n, k, b)
      ensures b < blocksCount
      ensures forall j: nat | PointsAt(files, n, j, b) :: j == k
    {
      assert Sound(files[n - 1], blocksCount);
    }
  }

  lemma Verdict(os: seq<Outcome>, files: seq<File>, blocksCount: nat, starved: set<nat>)
    requires WellNumbered(os) && AllFit(os, files, blocksCount) && Starvable(os, starved)
    ensures ReportsClean(os, starved) <==> Injective(files, blocksCount) && starved == {}
  {
    CountVerdict(os, files, blocksCount, starved);
    NoSharing(os);
    if AllSound(files, blocksCount) {
      SharingVerdict(os, files, blocksCount);
      if Separate(files) {
        InjectiveWhenSound(files, blocksCount);
      }
    }
    if Injective(files, blocksCount) {
      forall i | 0 <= i < |files|
        ensures Sound(files[i], blocksCount)
      {
        SoundWhenInjective(files, blocksCount, i);
      }
    }
  }

  // The verdict, in terms of the inodes and tables themselves.

  /** Inode `n` can be loaded and is a regular file or a directory. */
  ghost predicate FileInode(fs: Fs, n: nat, inode: Inode)
    requires Geometry(fs)
  {
    ReadInode(fs, n) == Some(inode) && (inode.mode / 0x1000 == 8 || inode.mode / 0x1000 == 4)
  }

  /** File `n` points at `block` from position `k` of its block map. */
  ghost predicate Points(fs: Fs, n: nat, k: nat, block: nat)
    requires Geometry(fs)
  {
    exists inode, table ::
      && FileInode(fs, n, inode) && HasTable(fs, inode, table) && block != 0
      && (if inode.block[12] == 0 then k < 12 else k < 13 + |table| / 4)
      && block == if k < 13 then inode.block[k] else Le32(table, 4 * (k - 13))
  }

  /**
   * The mode of inode `n` can be read; if it is not zero the inode can be loaded; and if that is a
   * file it uses no extents and no deep indirection, and its indirect table can be read.
   */
  ghost predicate Supported(fs: Fs, n: nat)
    requires Geometry(fs)
  {
    && Allocated(fs, n).Some? && (Allocated(fs, n) == Some(true) ==> ReadInode(fs, n).Some?)
    && forall inode | FileInode(fs, n, inode) ::
         && inode.flags / 0x8_0000 % 2 == 0 && inode.block[13] == 0 && inode.block[14] == 0
         && (inode.block[12] != 0 ==> ReadBlock(fs.dev, fs.blockSize, inode.block[12]).Some?)
  }

  /** Every file is supported, and the map from inode and position to block is one-to-one and in range. */
  ghost predicate OneOwner(fs: Fs)
    requires Geometry(fs)
  {
    && (forall n: nat | 1 <= n <= fs.sb.inodesCount :: Supported(fs, n))
    && (forall n: nat, k: nat, b: nat | 1 <= n <= fs.sb.inodesCount && Points(fs, n, k, b) :: b < fs.blocksCount)
    && (forall n: nat, k: nat, m: nat, j: nat, b: nat |
          1 <= n <= fs.sb.inodesCount && 1 <= m <= fs.sb.inodesCount && Points(fs, n, k, b) && Points(fs, m, j, b) ::
          n == m && k == j)
  }

  /** The kinds that the scan looks at, by their mode. */
  lemma FileKinds(fs: Fs, n: nat)
    requires Geometry(fs) && ReadInode(fs, n).Some?
    ensures var inode := ReadInode(fs, n).value;
            && (Traversable(inode) <==> inode.mode / 0x1000 == 8 || inode.mode / 0x1000 == 4)
            && inode.mode != 0 && (UsesExtents(inode) <==> inode.flags / 0x8_0000 % 2 == 1)
  {
    Masks(ReadInode(fs, n).value.flags);
    hide BitAnd, DecodeInode, RawInode;
    InodeFields(n, RawInode(fs, n).value);
  }

  lemma LoadedIsAllocated(fs: Fs, n: nat)
    requires Geometry(fs) && ReadInode(fs, n).Some?
    ensures Allocated(fs, n) == Some(true)
  {
    hide Geometry, Allocated, InodeOffset;
    AllocatedIsMode(fs, n);
  }

  lemma MappedIsSupported(fs: Fs, n: nat)
    requires Geometry(fs)
    ensures Mapped(fs, n) <==> Supported(fs, n)
  {
    hide Geometry, Allocated, ReadInode, Traversable, UsesExtents, Candidates;
    if ReadInode(fs, n).Some? {
      LoadedIsAllocated(fs, n);
      FileKinds(fs, n);
      var inode := ReadInode(fs, n).value;
      TableNeeded(fs, inode);
      assert FileInode(fs, n, inode) <==> Traversable(inode);
    }
  }

  lemma TableNeeded(fs: Fs, inode: Inode)
    requires |inode.block| == N_BLOCKS
    ensures Candidates(fs, inode).Some? <==>
            (inode.block[12] != 0 ==> ReadBlock(fs.dev, fs.blockSize, inode.block[12]).Some?)
  {
  }

  lemma PointsAtFile(fs: Fs, n: nat, k: nat, block: nat)
    requires Geometry(fs) && Supported(fs, n) && 1 <= n <= fs.sb.inodesCount
    ensures PointsAt(Files(fs), n, k, block) <==> Points(fs, n, k, block)
  {
    hide Geometry, Allocated, ReadInode, Traversable, UsesExtents, Candidates, HasTable, Mapped;
    if ReadInode(fs, n).Some? {
      LoadedIsAllocated(fs, n);
      FileKinds(fs, n);
      var inode := ReadInode(fs, n).value;
      if Traversable(inode) {
        assert FileInode(fs, n, inode);
        TableNeeded(fs, inode);
        var table := TraversedHasTable(fs, inode);
        CandidatesAre(fs, inode, table);
        OneTable(fs, inode, table);
      }
    }
  }

  lemma OneTable(fs: Fs, inode: Inode, table: seq<byte>)
    requires |inode.block| == N_BLOCKS && HasTable(fs, inode, table)
    ensures forall other | HasTable(fs, inode, other) :: other == table
  {
  }

  /** The two ways to state the condition agree. */
  lemma InjectiveIsOneOwner(fs: Fs)
    requires Geometry(fs)
    ensures Injective(Files(fs), fs.blocksCount) <==> OneOwner(fs)
  {
    hide Geometry, Mapped, Supported, Points, PointsAt, RefsOf;
    forall n: nat | 1 <= n <= fs.sb.inodesCount
      ensures Files(fs)[n - 1].mapped <==> Supported(fs, n)
    {
      MappedIsSupported(fs, n);
    }
    if forall n: nat | 1 <= n <= fs.sb.inodesCount :: Supported(fs, n) {
      forall n: nat, k: nat, b: nat
        ensures PointsAt(Files(fs), n, k, b) <==> 1 <= n <= fs.sb.inodesCount && Points(fs, n, k, b)
      {
        PointsInRange(fs, n, k, b);
        if 1 <= n <= fs.sb.inodesCount {
          PointsAtFile(fs, n, k, b);
        }
      }
      forall i | 0 <= i < fs.sb.inodesCount
        ensures Files(fs)[i].mapped
      {
        assert Supported(fs, i + 1) && Files(fs)[i + 1 - 1].mapped;
      }
    }
  }

  lemma PointsInRange(fs: Fs, n: nat, k: nat, b: nat)
    requires Geometry(fs)
    ensures PointsAt(Files(fs), n, k, b) ==> 1 <= n <= fs.sb.inodesCount
  {
  }

  /**
   * The verdict of the scan is exact: it reports no corruption and no shared block if and only if
   * every file is mapped without extents or deep indirection, every pointer is in range, no two
   * positions anywhere in the filesystem point at one block, and no allocation failed on the way.
   */
  lemma ScanVerdict(fs: Fs, starved: set<nat>)
    requires Geometry(fs)
    requires Starvable(Outcomes(fs, fs.sb.inodesCount), starved)
    ensures ReportsClean(Outcomes(fs, fs.sb.inodesCount), starved) <==> OneOwner(fs) && starved == {}
  {
    hide Injective, OneOwner, ReportsClean, Starvable, WellNumbered, AllFit;
    OutcomesWellNumbered(fs, fs.sb.inodesCount);
    ScanFits(fs);
    Verdict(Outcomes(fs, fs.sb.inodesCount), Files(fs), fs.blocksCount, starved);
    InjectiveIsOneOwner(fs);
  }

  lemma ScanFits(fs: Fs)
    requires Geometry(fs)
    ensures AllFit(Outcomes(fs, fs.sb.inodesCount), Files(fs), fs.blocksCount)
  {
    hide Examine, Mapped, RefsOf, Fits;
    var os, files := Outcomes(fs, fs.sb.inodesCount), Files(fs);
    forall i | 0 <= i < |os|
      ensures Fits(os[i], files[i], fs.blocksCount)
    {
      ExamineFits(fs, i + 1, os[i], files[i]);
    }
  }

  /**
   * The scan behind `ext4_print_corruption_scan`: `clean` means that it counts no corruption and
   * proposes to duplicate no block. The scan gives up only if memory was refused, and a completed
   * one is clean exactly when ownership is injective and no request was refused.
   */
  method CorruptionScan(heap: Heap, fs: Fs) returns (status: Status, clean: bool)
    requires Geometry(fs) && fs.sb.inodesCount < U32_MAX
    modifies heap
    ensures status == Done || (status == NoMemory && heap.RefusedSince(old(heap.requests)))
    ensures status == Done ==>
              (clean <==> OneOwner(fs) && !heap.RefusedSince(old(heap.requests)))
    ensures !heap.RefusedSince(old(heap.requests)) ==>
              status == Done && (clean <==> OneOwner(fs))
  {
    hide Examine, OneOwner, ChainsOf, IndexChains, CorruptionCount;
    var analysis := new ChainAnalysis();
    status := analysis.Build(heap, fs);
    if status != Done {
      return status, false;
    }
    ScanVerdict(fs, analysis.starved);
    clean := analysis.corruptionCount == 0;
    for i := 0 to |analysis.owners|
      invariant clean <==> analysis.corruptionCount == 0 && forall j | 0 <= j < i :: !ReportedShared(analysis.owners[j])
    {
      if |analysis.owners[i].inodes| > 1 {
        clean := false;
      }
    }
  }

  /** The two structures of an analysis: exact inverse, one record per block, equal totals. */
  ghost predicate Agree(chains: seq<Chain>, owners: seq<Owner>) {
    && (forall inode: nat, block: nat ::
          inode in InodesAt(owners, block) <==>
          exists i :: 0 <= i < |chains| && chains[i].inode == inode && References(chains[i], block))
    && (forall block: nat :: DuplicateFree(InodesAt(owners, block)))
    && WellFormed(owners)
    && OwnerTotal(owners) == RefTotal(chains)
  }

  lemma StructuresAgree(os: seq<Outcome>, starved: set<nat>)
    requires WellNumbered(os)
    ensures Agree(ChainsOf(os, starved), IndexChains(ChainsOf(os, starved)))
  {
    hide IndexChains, ChainsOf, InodesAt, WellFormed, References;
    var chains := ChainsOf(os, starved);
    ChainsShape(os, starved);
    forall block: nat
      ensures DuplicateFree(InodesAt(IndexChains(chains), block))
      ensures forall inode: nat ::
                inode in InodesAt(IndexChains(chains), block) <==>
                exists i :: 0 <= i < |chains| && chains[i].inode == inode && References(chains[i], block)
    {
      OwnersInvertChains(chains, block);
      forall inode: nat
        ensures inode in InodesWith(chains, block) <==>
                exists i :: 0 <= i < |chains| && chains[i].inode == inode && References(chains[i], block)
      {
        ReferencingInodes(chains, block, inode);
      }
      InodesWithDuplicateFree(chains, block);
    }
    IndexWellFormed(chains);
    Conservation(chains);
  }

  lemma ReferencingInodes(chains: seq<Chain>, block: nat, inode: nat)
    ensures inode in InodesWith(chains, block) <==>
            exists i :: 0 <= i < |chains| && chains[i].inode == inode && References(chains[i], block)
  {
    InodesWithMembers(chains, block, inode);
  }

  /**
   * What `ext4_build_chain_analysis` leaves behind when it returns 0: the chains are those of the
   * analyzed inodes, none missing but the starved ones, and the two structures agree.
   */
  lemma AnalysisAgrees(fs: Fs, analysis: ChainAnalysis)
    requires Geometry(fs) && analysis.Reflects(Outcomes(fs, fs.sb.inodesCount))
    ensures Agree(analysis.chains, analysis.owners)
    ensures forall c | c in analysis.chains ::
              1 <= c.inode <= fs.sb.inodesCount && c.inode !in analysis.starved && Examine(fs, c.inode) == Analyzed(c)
    ensures forall n: nat | 1 <= n <= fs.sb.inodesCount && n !in analysis.starved && Examine(fs, n).Analyzed? ::
              Examine(fs, n).chain in analysis.chains
  {
    hide Examine, ChainsOf, IndexChains, Agree, CorruptionCount, WellNumbered, Increasing, Starvable;
    var os := Outcomes(fs, fs.sb.inodesCount);
    OutcomesWellNumbered(fs, fs.sb.inodesCount);
    StructuresAgree(os, analysis.starved);
    ChainsShape(os, analysis.starved);
    forall n: nat | 1 <= n <= fs.sb.inodesCount && n !in analysis.starved && Examine(fs, n).Analyzed?
      ensures Examine(fs, n).chain in analysis.chains
    {
      assert os[n - 1] == Examine(fs, n);
      ChainsComplete(os, analysis.starved, n);
    }
  }
}
