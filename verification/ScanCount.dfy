/** What the number of corruptions counts, and which inodes contribute to it. */
module ScanCount {
  import opened Bytes
  import opened Arithmetic
  import opened Device
  import opened Super
  import opened Group
  import opened Inode
  import opened InodeAddress
  import opened Block
  import opened Chain
  import opened CleanScan

  /** The corruptions found in the chains. */
  function CorruptionTotal(chains: seq<Chain>): nat {
    if chains == [] then 0
    else CorruptionTotal(chains[..|chains| - 1]) + chains[|chains| - 1].corruptions
  }

  /** The inodes that could not be analyzed, or were given up for lack of memory. */
  function GivenUp(os: seq<Outcome>, starved: set<nat>): set<int> {
    set n | 1 <= n <= |os| && (os[n - 1].Failed? || n in starved)
  }

  lemma TotalOneMore(chains: seq<Chain>, c: Chain)
    ensures CorruptionTotal(chains + [c]) == CorruptionTotal(chains) + c.corruptions
  {
    assert (chains + [c])[..|chains|] == chains;
  }

  /**
   * The corruption count is the number of inodes given up plus the corruptions found in the chains
   * recorded; inodes that are free or of another kind add nothing.
   */
  lemma {:induction false} CountExactly(os: seq<Outcome>, starved: set<nat>)
    requires forall i | 0 <= i < |os| && i + 1 in starved :: os[i].Analyzed?
    ensures CorruptionCount(os, starved) == |GivenUp(os, starved)| + CorruptionTotal(ChainsOf(os, starved))
  {
    hide CorruptionTotal;
    if os == [] {
      NothingCounted(starved);
    } else {
      var n := |os|;
      var init := os[..n - 1];
      CountExactly(init, starved);
      var before, now := GivenUp(init, starved), GivenUp(os, starved);
      assert now == if os[n - 1].Failed? || n in starved then before + {n} else before;
      if os[n - 1].Analyzed? && n !in starved {
        TotalOneMore(ChainsOf(init, starved), os[n - 1].chain);
      }
    }
  }

  lemma NothingCounted(starved: set<nat>)
    ensures CorruptionCount([], starved) == 0 && CorruptionTotal(ChainsOf([], starved)) == 0
    ensures GivenUp([], starved) == {}
  {
  }

  /** The indirect table of file `n`, if it uses one, cannot be read. */
  ghost predicate TableLost(fs: Fs, n: nat)
    requires Geometry(fs)
  {
    exists inode :: FileInode(fs, n, inode) && inode.flags / 0x8_0000 % 2 == 0
      && inode.block[12] != 0 && ReadBlock(fs.dev, fs.blockSize, inode.block[12]) == None
  }

  /**
   * Inode `n` is given up exactly if its mode cannot be read, or it is in use and cannot be loaded or
   * its indirect table cannot be read; it gets a chain exactly if it is a file or directory otherwise.
   */
  lemma ExaminedExactly(fs: Fs, n: nat)
    requires Geometry(fs)
    ensures Examine(fs, n).Failed? <==>
            Allocated(fs, n) == None ||
            (Allocated(fs, n) == Some(true) && (ReadInode(fs, n) == None || TableLost(fs, n)))
    ensures Examine(fs, n).Analyzed? <==> (exists inode :: FileInode(fs, n, inode)) && !TableLost(fs, n)
  {
    hide ReadInode, Allocated, Candidates, BitAnd, Kept, Refused;
    if ReadInode(fs, n).Some? {
      LoadedIsAllocated(fs, n);
      FileKinds(fs, n);
      var inode := ReadInode(fs, n).value;
      TableNeeded(fs, inode);
      assert FileInode(fs, n, inode) <==> Traversable(inode);
    }
  }

  /** Whether inode `n` is in use is read from the first two bytes of its slot, if its place is accepted. */
  lemma ModeExactly(fs: Fs, n: nat, group: nat, slot: nat)
    requires Geometry(fs) && 1 <= n <= fs.sb.inodesCount
    requires slot < fs.sb.inodesPerGroup && n - 1 == group * fs.sb.inodesPerGroup + slot
    ensures InodeOffset(fs, n).None? ==> Allocated(fs, n) == None
    ensures InodeOffset(fs, n).Some? ==>
              ReadGroupDesc(fs, group).Some? &&
              Allocated(fs, n) == SlotInUse(fs, ReadGroupDesc(fs, group).value.inodeTable, slot)
  {
    InPlace(fs, n, group, slot);
    if InodeOffset(fs, n).Some? {
      hide ReadGroupDesc, InodeOffset;
      OffsetIsExact(fs, n);
    }
  }
}
