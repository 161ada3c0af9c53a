/** The owners index is the exact inverse of the chains, and nothing is lost between the two. */
module Ownership {
  import opened Growth
  import opened Block
  import opened Chain

  /** The inode list filed under `block`. */
  function InodesAt(owners: seq<Owner>, block: nat): seq<nat> {
    var i := Find(owners, block);
    if i < |owners| then owners[i].inodes else []
  }

  /** The inodes of the chains that reference `block`, in chain order. */
  function InodesWith(chains: seq<Chain>, block: nat): seq<nat> {
    if chains == [] then []
    else
      var before, last := InodesWith(chains[..|chains| - 1], block), chains[|chains| - 1];
      if block in BlocksOf(last.refs) then before + [last.inode] else before
  }

  function Include(inodes: seq<nat>, inode: nat): seq<nat> {
    if inode in inodes then inodes else inodes + [inode]
  }

  lemma InodesAfterRef(owners: seq<Owner>, block: nat, inode: nat, b: nat)
    ensures InodesAt(IndexRef(owners, block, inode), b) ==
            if b == block then Include(InodesAt(owners, b), inode) else InodesAt(owners, b)
  {
    var i, after := Find(owners, block), IndexRef(owners, block, inode);
    assert forall j | 0 <= j < |owners| && j != i :: after[j] == owners[j];
    assert i < |after| && after[i].block == block;
    if b != block && Find(owners, b) < |owners| {
      assert after[Find(owners, b)] == owners[Find(owners, b)];
    }
  }

  lemma {:induction false} InodesAfterRefs(owners: seq<Owner>, refs: seq<BlockRef>, inode: nat, b: nat)
    ensures InodesAt(IndexRefs(owners, refs, inode), b) ==
            if b in BlocksOf(refs) then Include(InodesAt(owners, b), inode) else InodesAt(owners, b)
  {
    if refs != [] {
      var init, last := refs[..|refs| - 1], refs[|refs| - 1];
      assert refs == init + [last];
      BlocksOfAppend(init, last);
      InodesAfterRefs(owners, init, inode, b);
      InodesAfterRef(IndexRefs(owners, init, inode), last.block, inode, b);
    }
  }

  predicate Increasing(chains: seq<Chain>) {
    forall i, j | 0 <= i < j < |chains| :: chains[i].inode < chains[j].inode
  }

  lemma {:induction false} InodesWithMembers(chains: seq<Chain>, block: nat, inode: nat)
    ensures inode in InodesWith(chains, block) <==>
            exists i :: 0 <= i < |chains| && chains[i].inode == inode && block in BlocksOf(chains[i].refs)
  {
    if chains != [] {
      var init := chains[..|chains| - 1];
      InodesWithMembers(init, block, inode);
      assert chains == init + [chains[|chains| - 1]];
    }
  }

  lemma {:induction false} InodesWithDuplicateFree(chains: seq<Chain>, block: nat)
    requires Increasing(chains)
    ensures DuplicateFree(InodesWith(chains, block))
  {
    if chains != [] {
      var init, last := chains[..|chains| - 1], chains[|chains| - 1];
      InodesWithDuplicateFree(init, block);
      InodesWithMembers(init, block, last.inode);
      DuplicateFreeIf(InodesWith(init, block), last.inode);
    }
  }

  lemma DuplicateFreeIf(s: seq<nat>, x: nat)
    requires DuplicateFree(s)
    ensures x !in s ==> DuplicateFree(s + [x])
  {
  }

  /** The inode list under a block is exactly the list of chains that reference it, in scan order. */
  lemma {:induction false} OwnersInvertChains(chains: seq<Chain>, block: nat)
    requires Increasing(chains)
    ensures InodesAt(IndexChains(chains), block) == InodesWith(chains, block)
  {
    if chains != [] {
      var init, last := chains[..|chains| - 1], chains[|chains| - 1];
      OwnersInvertChains(init, block);
      InodesAfterRefs(IndexChains(init), last.refs, last.inode, block);
      InodesWithMembers(init, block, last.inode);
    }
  }

  /** One record per block, and no record without an owner. */
  ghost predicate WellFormed(owners: seq<Owner>) {
    && (forall i, j | 0 <= i < j < |owners| :: owners[i].block != owners[j].block)
    && (forall i | 0 <= i < |owners| :: owners[i].inodes != [])
  }

  lemma IndexRefWellFormed(owners: seq<Owner>, block: nat, inode: nat)
    requires WellFormed(owners)
    ensures WellFormed(IndexRef(owners, block, inode))
  {
    var i, after := Find(owners, block), IndexRef(owners, block, inode);
    assert forall j | 0 <= j < |after| && j != i :: after[j] == owners[j];
    assert after[i].block == block && after[i].inodes != [];
  }

  lemma {:induction false} IndexRefsWellFormed(owners: seq<Owner>, refs: seq<BlockRef>, inode: nat)
    requires WellFormed(owners)
    ensures WellFormed(IndexRefs(owners, refs, inode))
  {
    if refs != [] {
      IndexRefsWellFormed(owners, refs[..|refs| - 1], inode);
      IndexRefWellFormed(IndexRefs(owners, refs[..|refs| - 1], inode), refs[|refs| - 1].block, inode);
    }
  }

  lemma {:induction false} IndexWellFormed(chains: seq<Chain>)
    ensures WellFormed(IndexChains(chains))
  {
    if chains != [] {
      IndexWellFormed(chains[..|chains| - 1]);
      var last := chains[|chains| - 1];
      IndexRefsWellFormed(IndexChains(chains[..|chains| - 1]), last.refs, last.inode);
    }
  }

  /** Every record of the index holds, for its block, exactly the chains that reference it. */
  lemma RecordsAreExact(chains: seq<Chain>, i: nat)
    requires Increasing(chains) && i < |IndexChains(chains)|
    ensures var owner := IndexChains(chains)[i];
            && owner.inodes == InodesWith(chains, owner.block) && owner.inodes != []
            && DuplicateFree(owner.inodes)
            && Find(IndexChains(chains), owner.block) == i
  {
    IndexWellFormed(chains);
    var owners := IndexChains(chains);
    OwnersInvertChains(chains, owners[i].block);
    InodesWithDuplicateFree(chains, owners[i].block);
  }

  // Shared blocks.

  predicate References(chain: Chain, block: nat) {
    block in BlocksOf(chain.refs)
  }

  /** Two different chains reference `block`. */
  ghost predicate Shared(chains: seq<Chain>, block: nat) {
    exists i, j :: 0 <= i < j < |chains| && References(chains[i], block) && References(chains[j], block)
  }

  /** The test of `ext4_print_shared_blocks` for one record. */
  predicate ReportedShared(owner: Owner) {
    |owner.inodes| >= 2
  }

  lemma {:induction false} SharedCount(chains: seq<Chain>, block: nat)
    ensures |InodesWith(chains, block)| >= 1 <==>
            exists i :: 0 <= i < |chains| && References(chains[i], block)
    ensures |InodesWith(chains, block)| >= 2 <==> Shared(chains, block)
  {
    if chains != [] {
      var n := |chains| - 1;
      var init, last := chains[..n], chains[n];
      SharedCount(init, block);
      assert forall k | 0 <= k < n :: chains[k] == init[k];
      if References(last, block) && |InodesWith(init, block)| >= 1 {
        var i :| 0 <= i < |init| && References(init[i], block);
        assert References(chains[i], block) && References(chains[n], block);
      }
    }
  }

  /** The scan reports a block as shared exactly when two different inodes reference it. */
  lemma SharedBlocksAreExact(chains: seq<Chain>, block: nat)
    requires Increasing(chains)
    ensures (exists i :: 0 <= i < |IndexChains(chains)| && IndexChains(chains)[i].block == block
                         && ReportedShared(IndexChains(chains)[i])) <==> Shared(chains, block)
  {
    var owners := IndexChains(chains);
    OwnersInvertChains(chains, block);
    SharedCount(chains, block);
    var i := Find(owners, block);
    if i < |owners| {
      IndexWellFormed(chains);
    }
  }

  /** Each record is reported exactly when its block is shared. */
  lemma RecordShared(chains: seq<Chain>, i: nat)
    requires Increasing(chains) && i < |IndexChains(chains)|
    ensures ReportedShared(IndexChains(chains)[i]) <==> Shared(chains, IndexChains(chains)[i].block)
  {
    RecordsAreExact(chains, i);
    SharedCount(chains, IndexChains(chains)[i].block);
  }

  /** The records that `ext4_print_shared_blocks` prints: their blocks are exactly the shared ones. */
  method SharedRecords(owners: seq<Owner>, ghost chains: seq<Chain>) returns (shared: seq<Owner>)
    requires Increasing(chains) && owners == IndexChains(chains)
    ensures forall b :: (exists o :: o in shared && o.block == b) <==> Shared(chains, b)
    ensures forall o | o in shared :: o in owners && o.inodes == InodesWith(chains, o.block)
  {
    hide Shared, IndexChains;
    shared := [];
    for i := 0 to |owners|
      invariant forall o :: o in shared <==> ReportedShared(o) && exists j :: 0 <= j < i && owners[j] == o
    {
      if |owners[i].inodes| < 2 {
        continue;
      }
      shared := shared + [owners[i]];
    }
    forall o | o in shared
      ensures o in owners && o.inodes == InodesWith(chains, o.block)
    {
      var j :| 0 <= j < |owners| && owners[j] == o;
      RecordsAreExact(chains, j);
    }
    forall b
      ensures (exists o :: o in shared && o.block == b) <==> Shared(chains, b)
    {
      SharedBlocksAreExact(chains, b);
    }
  }

  // Conservation.

  function OwnerTotal(owners: seq<Owner>): nat {
    if owners == [] then 0 else OwnerTotal(owners[..|owners| - 1]) + |owners[|owners| - 1].inodes|
  }

  function RefTotal(chains: seq<Chain>): nat {
    if chains == [] then 0 else RefTotal(chains[..|chains| - 1]) + |chains[|chains| - 1].refs|
  }

  lemma {:induction false} OwnerTotalUpdate(owners: seq<Owner>, i: nat, owner: Owner)
    requires i < |owners|
    ensures OwnerTotal(owners[i := owner]) == OwnerTotal(owners) - |owners[i].inodes| + |owner.inodes|
  {
    var n := |owners| - 1;
    var after := owners[i := owner];
    if i == n {
      assert after[..n] == owners[..n];
    } else {
      OwnerTotalUpdate(owners[..n], i, owner);
      assert after[..n] == owners[..n][i := owner];
    }
  }

  lemma OwnerTotalAfterRef(owners: seq<Owner>, block: nat, inode: nat)
    ensures OwnerTotal(IndexRef(owners, block, inode)) ==
            OwnerTotal(owners) + if inode in InodesAt(owners, block) then 0 else 1
  {
    var i := Find(owners, block);
    if i < |owners| {
      OwnerTotalUpdate(owners, i, AddInode(owners[i], inode));
    } else {
      var after := IndexRef(owners, block, inode);
      assert after[..|owners|] == owners;
    }
  }

  lemma {:induction false} OwnerTotalAfterRefs(owners: seq<Owner>, refs: seq<BlockRef>, inode: nat)
    requires DuplicateFree(BlocksOf(refs))
    requires forall b | b in BlocksOf(refs) :: inode !in InodesAt(owners, b)
    ensures OwnerTotal(IndexRefs(owners, refs, inode)) == OwnerTotal(owners) + |refs|
  {
    if refs != [] {
      var init, last := refs[..|refs| - 1], refs[|refs| - 1];
      assert refs == init + [last];
      BlocksOfAppend(init, last);
      DuplicateFreeInit(BlocksOf(init), last.block);
      OwnerTotalAfterRefs(owners, init, inode);
      InodesAfterRefs(owners, init, inode, last.block);
      OwnerTotalAfterRef(IndexRefs(owners, init, inode), last.block, inode);
    }
  }

  lemma DuplicateFreeInit(s: seq<nat>, x: nat)
    requires DuplicateFree(s + [x])
    ensures DuplicateFree(s) && x !in s
  {
    assert forall i | 0 <= i < |s| :: (s + [x])[i] == s[i];
    assert (s + [x])[|s|] == x;
  }

  /** The owner lists hold, in total, as many entries as the chains hold references. */
  lemma {:induction false} Conservation(chains: seq<Chain>)
    requires Increasing(chains)
    requires forall i | 0 <= i < |chains| :: DuplicateFree(BlocksOf(chains[i].refs))
    ensures OwnerTotal(IndexChains(chains)) == RefTotal(chains)
  {
    if chains != [] {
      var init, last := chains[..|chains| - 1], chains[|chains| - 1];
      Conservation(init);
      forall b | b in BlocksOf(last.refs)
        ensures last.inode !in InodesAt(IndexChains(init), b)
      {
        OwnersInvertChains(init, b);
        InodesWithMembers(init, b, last.inode);
      }
      OwnerTotalAfterRefs(IndexChains(init), last.refs, last.inode);
    }
  }
}
