/** ext4_chain.c: the whole-filesystem scan that builds the chains and the index of block owners. */
module Chain {
  import opened Bytes
  import opened Device
  import opened Super
  import opened Inode
  import opened Growth
  import opened Block

  /** An entry of `analysis->chains`. */
  datatype Chain = Chain(inode: nat, kind: InodeKind, refs: seq<BlockRef>, corruptions: nat)

  /** An entry of `analysis->owners`. */
  datatype Owner = Owner(block: nat, inodes: seq<nat>, capacity: nat)

  // The owners index as a value.

  /** The position of the record of `block`, or the number of records if there is none. */
  function Find(owners: seq<Owner>, block: nat): (i: nat)
    ensures i <= |owners|
    ensures i < |owners| ==> owners[i].block == block
    ensures forall j | 0 <= j < i :: owners[j].block != block
  {
    if owners == [] then 0
    else if owners[0].block == block then 0
    else 1 + Find(owners[1..], block)
  }

  function AddInode(owner: Owner, inode: nat): Owner {
    if inode in owner.inodes then owner
    else owner.(inodes := owner.inodes + [inode],
                capacity := Grown(|owner.inodes|, owner.capacity, 4))
  }

  function IndexRef(owners: seq<Owner>, block: nat, inode: nat): seq<Owner> {
    var i := Find(owners, block);
    if i < |owners| then owners[i := AddInode(owners[i], inode)]
    else owners + [AddInode(Owner(block, [], 0), inode)]
  }

  function IndexRefs(owners: seq<Owner>, refs: seq<BlockRef>, inode: nat): seq<Owner> {
    if refs == [] then owners
    else IndexRef(IndexRefs(owners, refs[..|refs| - 1], inode), refs[|refs| - 1].block, inode)
  }

  function IndexChains(chains: seq<Chain>): seq<Owner> {
    if chains == [] then []
    else
      var last := chains[|chains| - 1];
      IndexRefs(IndexChains(chains[..|chains| - 1]), last.refs, last.inode)
  }

  // The scan as a function of the image and of the inodes that were given up for lack of memory.

  /** `inode_appears_allocated`: nothing if the mode cannot be located or read. */
  function Allocated(fs: Fs, n: nat): Option<bool>
    requires Geometry(fs)
  {
    match InodeOffset(fs, n)
    case None => None
    case Some(offset) =>
      match ReadAt(fs.dev, offset, 2)
      case None => None
      case Some(header) => Some(Le16(header, 0) != 0)
  }

  /** Being allocated means having a nonzero mode, whenever the whole record can be read; loaded inodes are. */
  lemma AllocatedIsMode(fs: Fs, n: nat)
    requires Geometry(fs) && RawInode(fs, n).Some?
    ensures Allocated(fs, n) == Some(DecodeInode(n, RawInode(fs, n).value).mode != 0)
    ensures ReadInode(fs, n).Some? ==> Allocated(fs, n) == Some(true)
  {
    hide InodeOffset;
    var raw := RawInode(fs, n).value;
    var offset := InodeOffset(fs, n).value;
    assert fs.dev.bytes[offset..offset + 2] == raw[..2];
  }

  datatype Outcome = Skipped | Failed | Analyzed(chain: Chain)

  /** What the scan does with inode `n` when memory suffices. */
  function Examine(fs: Fs, n: nat): Outcome
    requires Geometry(fs)
  {
    match Allocated(fs, n)
    case None => Failed
    case Some(false) => Skipped
    case Some(true) =>
      match ReadInode(fs, n)
      case None => Failed
      case Some(inode) =>
        if !Traversable(inode) then Skipped
        else
          match Traverse(fs, inode)
          case None => Failed
          case Some(t) => Analyzed(Chain(n, inode.kind, t.refs, t.corruptions))
  }

  /** The outcomes for the inodes 1 .. n. */
  function Outcomes(fs: Fs, n: nat): (os: seq<Outcome>)
    requires Geometry(fs)
    ensures |os| == n
  {
    seq(n, i requires 0 <= i < n => Examine(fs, i + 1))
  }

  lemma OneMoreOutcome(fs: Fs, n: nat)
    requires Geometry(fs) && n > 0
    ensures Outcomes(fs, n) == Outcomes(fs, n - 1) + [Examine(fs, n)]
  {
    hide Examine, Geometry;
  }

  /** The chains recorded for the outcomes `os` of the inodes 1 .. |os|. */
  function ChainsOf(os: seq<Outcome>, starved: set<nat>): seq<Chain> {
    if os == [] then []
    else
      var before := ChainsOf(os[..|os| - 1], starved);
      var last := os[|os| - 1];
      if last.Analyzed? && |os| !in starved then before + [last.chain] else before
  }

  function CorruptionOf(outcome: Outcome, starved: bool): nat {
    match outcome
    case Skipped => 0
    case Failed => 1
    case Analyzed(chain) => if starved then 1 else chain.corruptions
  }

  function CorruptionCount(os: seq<Outcome>, starved: set<nat>): nat {
    if os == [] then 0
    else CorruptionCount(os[..|os| - 1], starved) + CorruptionOf(os[|os| - 1], |os| in starved)
  }

  /** The inodes in `starved` are ones that the scan would have analyzed. */
  ghost predicate Starvable(os: seq<Outcome>, starved: set<nat>) {
    forall i | i in starved :: 1 <= i <= |os| && os[i - 1].Analyzed?
  }

  lemma {:induction false} StarvedLater(os: seq<Outcome>, starved: set<nat>, n: nat)
    requires n > |os|
    ensures ChainsOf(os, starved + {n}) == ChainsOf(os, starved)
    ensures CorruptionCount(os, starved + {n}) == CorruptionCount(os, starved)
  {
    if os != [] {
      StarvedLater(os[..|os| - 1], starved, n);
    }
  }

  /** The 32-bit loop counter of the scan after `k` turns. */
  function Counter(k: nat): nat {
    (1 + k) % U32
  }

  /** The loop over the inodes comes to an end exactly when there are fewer than 2^32 - 1 of them. */
  lemma LoopEnds(inodesCount: nat)
    requires inodesCount < U32
    ensures (exists k: nat :: Counter(k) > inodesCount) <==> inodesCount < U32_MAX
  {
    if inodesCount < U32_MAX {
      assert Counter(inodesCount) == inodesCount + 1;
    }
  }

  /** What one more outcome adds, whether its inode is given up or not. */
  lemma OneMoreRecorded(os: seq<Outcome>, starved: set<nat>, full: Outcome)
    requires Starvable(os, starved)
    ensures var more := os + [full];
            && Starvable(more, starved)
            && ChainsOf(more, starved) ==
               (if full.Analyzed? then ChainsOf(os, starved) + [full.chain] else ChainsOf(os, starved))
            && CorruptionCount(more, starved) == CorruptionCount(os, starved) + CorruptionOf(full, false)
    ensures full.Analyzed? ==>
              var more, fewer := os + [full], starved + {|os| + 1};
              && Starvable(more, fewer) && ChainsOf(more, fewer) == ChainsOf(os, starved)
              && CorruptionCount(more, fewer) == CorruptionCount(os, starved) + 1
  {
    assert (os + [full])[..|os|] == os && (os + [full])[|os|] == full;
    assert |os| + 1 !in starved;
    StarvedLater(os, starved, |os| + 1);
  }

  lemma IndexOneMore(chains: seq<Chain>, chain: Chain)
    ensures IndexChains(chains + [chain]) == IndexRefs(IndexChains(chains), chain.refs, chain.inode)
  {
    assert (chains + [chain])[..|chains|] == chains;
  }

  lemma NothingScanned(fs: Fs)
    requires Geometry(fs)
    ensures Outcomes(fs, 0) == [] && ChainsOf([], {}) == [] && IndexChains([]) == [] && CorruptionCount([], {}) == 0
  {
    hide Geometry;
  }

  // The scan itself.

  method InodeAppearsAllocated(fs: Fs, n: nat) returns (inUse: Option<bool>)
    requires Geometry(fs)
    ensures inUse == Allocated(fs, n)
  {
    var offset := InodeOffset(fs, n);
    if offset == None {
      return None;
    }
    var header := ReadAt(fs.dev, offset.value, 2);
    return if header == None then None else Some(Le16(header.value, 0) != 0);
  }

  /** `ext4_build_chain_for_inode`. */
  method BuildChainForInode(heap: Heap, fs: Fs, n: nat) returns (status: Status, chain: InodeChain?)
    requires Geometry(fs)
    modifies heap
    ensures old(heap.requests) <= heap.requests
    ensures status == NoMemory <==> heap.RefusedSince(old(heap.requests))
    ensures chain != null ==> fresh(chain) && chain.Valid() && chain.number == n
    ensures status == Done ==>
              && chain != null && ReadInode(fs, n).Some? && chain.kind == ReadInode(fs, n).value.kind
              && Traverse(fs, ReadInode(fs, n).value) == Some(Traversal(chain.refs, chain.corruptionCount))
    ensures status == BadImage ==>
              ReadInode(fs, n).None? || Traverse(fs, ReadInode(fs, n).value).None?
  {
    var inode := LoadInode(fs, n);
    if inode == None {
      return BadImage, null;
    }
    chain := new InodeChain(n, inode.value.kind);
    status := TraverseInodeBlocks(heap, fs, inode.value, chain);
  }

  /** The steps of the scan for one inode up to its finished chain. */
  method ExamineInode(heap: Heap, fs: Fs, n: nat) returns (outcome: Outcome)
    requires Geometry(fs)
    modifies heap
    ensures old(heap.requests) <= heap.requests
    ensures outcome == if heap.RefusedSince(old(heap.requests)) then Failed else Examine(fs, n)
    ensures !Examine(fs, n).Skipped? || !heap.RefusedSince(old(heap.requests))
  {
    var inUse := InodeAppearsAllocated(fs, n);
    if inUse == None {
      return Failed;
    }
    if !inUse.value {
      return Skipped;
    }
    var inode := LoadInode(fs, n);
    if inode == None {
      return Failed;
    }
    if inode.value.kind != Regular && inode.value.kind != Directory {
      return Skipped;
    }
    var built, record := BuildChainForInode(heap, fs, n);
    if built != Done {
      return Failed;
    }
    return Analyzed(Chain(n, record.kind, record.refs, record.corruptionCount));
  }

  predicate OwnersFit(owners: seq<Owner>) {
    forall i | 0 <= i < |owners| :: |owners[i].inodes| <= owners[i].capacity
  }

  /** A failed `add_block_owner` leaves the index as it was, but for a record it may have opened. */
  predicate Untouched(before: seq<Owner>, after: seq<Owner>, block: nat) {
    after == before || (Find(before, block) == |before| && after == before + [Owner(block, [], 0)])
  }

  /** The first references of the chain, perhaps all of them, have been filed, and then memory ran out. */
  ghost predicate IndexedInPart(before: seq<Owner>, after: seq<Owner>, chain: Chain) {
    exists k: nat :: k <= |chain.refs| && StoppedAt(before, after, chain, k)
  }

  /** Filing stopped at reference `k` of the chain, or after the last one. */
  predicate StoppedAt(before: seq<Owner>, after: seq<Owner>, chain: Chain, k: nat)
    requires k <= |chain.refs|
  {
    var filed := IndexRefs(before, chain.refs[..k], chain.inode);
    if k == |chain.refs| then after == filed else Untouched(filed, after, chain.refs[k].block)
  }

  class ChainAnalysis {
    var chains: seq<Chain>
    var chainCapacity: nat
    var owners: seq<Owner>
    var ownerCapacity: nat
    var corruptionCount: nat
    /** The inodes counted as corrupt only because an allocation failed during their traversal. */
    ghost var starved: set<nat>

    ghost predicate Valid()
      reads this
    {
      |chains| <= chainCapacity && |owners| <= ownerCapacity && OwnersFit(owners)
    }

    constructor ()
      ensures Valid()
    {
      chains, chainCapacity, owners, ownerCapacity, corruptionCount := [], 0, [], 0, 0;
      starved := {};
    }

    /** `add_chain`. */
    method AddChain(heap: Heap, chain: Chain) returns (status: Status)
      requires Valid()
      modifies this`chains, this`chainCapacity, heap
      ensures Valid()
      ensures old(heap.requests) <= heap.requests
      ensures status == if heap.RefusedSince(old(heap.requests)) then NoMemory else Done
      ensures status == Done ==> chains == old(chains) + [chain]
      ensures status == NoMemory ==> chains == old(chains) && |chains| == chainCapacity == old(chainCapacity)
    {
      var room, grown := Reserve(heap, |chains|, chainCapacity, 16);
      if !room {
        return NoMemory;
      }
      chainCapacity := grown;
      chains := chains + [chain];
      return Done;
    }

    /** `find_owner`. */
    method FindOwner(block: nat) returns (i: nat)
      ensures i == Find(owners, block)
    {
      i := 0;
      while i < |owners|
        invariant i <= |owners|
        invariant Find(owners, block) == i + Find(owners[i..], block)
      {
        if owners[i].block == block {
          return;
        }
        i := i + 1;
      }
    }

    /** `owner_has_inode`. */
    static method OwnerHasInode(owner: Owner, inode: nat) returns (found: bool)
      ensures found <==> inode in owner.inodes
    {
      for i := 0 to |owner.inodes|
        invariant inode !in owner.inodes[..i]
      {
        if owner.inodes[i] == inode {
          return true;
        }
      }
      return false;
    }

    /** `add_owner_inode` on the record at `i`. */
    method AddOwnerInode(heap: Heap, i: nat, inode: nat) returns (status: Status)
      requires Valid() && i < |owners|
      modifies this`owners, heap
      ensures Valid() && |owners| == |old(owners)|
      ensures old(heap.requests) <= heap.requests
      ensures status == if heap.RefusedSince(old(heap.requests)) then NoMemory else Done
      ensures status == Done ==> owners == old(owners)[i := AddInode(old(owners)[i], inode)]
      ensures status == NoMemory ==>
                owners == old(owners) && inode !in owners[i].inodes && |owners[i].inodes| == owners[i].capacity
    {
      var owner := owners[i];
      var present := OwnerHasInode(owner, inode);
      if present {
        assert owners[i := owner] == owners;
        return Done;
      }
      var room, grown := Reserve(heap, |owner.inodes|, owner.capacity, 4);
      if !room {
        return NoMemory;
      }
      owners := owners[i := owner.(inodes := owner.inodes + [inode], capacity := grown)];
      return Done;
    }

    /** `add_block_owner`. */
    method AddBlockOwner(heap: Heap, block: nat, inode: nat) returns (status: Status)
      requires Valid()
      modifies this`owners, this`ownerCapacity, heap
      ensures Valid()
      ensures old(heap.requests) <= heap.requests
      ensures status == if heap.RefusedSince(old(heap.requests)) then NoMemory else Done
      ensures status == Done ==> owners == IndexRef(old(owners), block, inode)
      ensures status == NoMemory ==> Untouched(old(owners), owners, block)
    {
      var i := FindOwner(block);
      if i == |owners| {
        var room, grown := Reserve(heap, |owners|, ownerCapacity, 32);
        if !room {
          return NoMemory;
        }
        ownerCapacity := grown;
        owners := owners + [Owner(block, [], 0)];
      }
      status := AddOwnerInode(heap, i, inode);
    }

    /** `index_chain_owners`. */
    method IndexChainOwners(heap: Heap, chain: Chain) returns (status: Status)
      requires Valid()
      modifies this`owners, this`ownerCapacity, heap
      ensures Valid()
      ensures old(heap.requests) <= heap.requests
      ensures status == if heap.RefusedSince(old(heap.requests)) then NoMemory else Done
      ensures status == Done ==> owners == IndexRefs(old(owners), chain.refs, chain.inode)
      ensures status == NoMemory ==> IndexedInPart(old(owners), owners, chain)
    {
      for i := 0 to |chain.refs|
        invariant Valid()
        invariant old(heap.requests) <= heap.requests && !heap.RefusedSince(old(heap.requests))
        invariant owners == IndexRefs(old(owners), chain.refs[..i], chain.inode)
      {
        assert chain.refs[..i + 1][..i] == chain.refs[..i];
        status := AddBlockOwner(heap, chain.refs[i].block, chain.inode);
        if status != Done {
          assert StoppedAt(old(owners), owners, chain, i);
          return;
        }
      }
      assert chain.refs[..|chain.refs|] == chain.refs;
      return Done;
    }

    /** The state after the inodes whose outcomes are `os`. */
    ghost predicate Reflects(os: seq<Outcome>)
      reads this
    {
      && Starvable(os, starved)
      && chains == ChainsOf(os, starved)
      && corruptionCount == CorruptionCount(os, starved)
      && owners == IndexChains(chains)
    }

    /** How the scan loop records the outcome of one inode. */
    method Record(heap: Heap, outcome: Outcome, ghost os: seq<Outcome>, ghost full: Outcome) returns (status: Status)
      requires Valid() && Reflects(os)
      requires outcome == full || (outcome == Failed && full.Analyzed?)
      modifies this, heap
      ensures Valid()
      ensures old(heap.requests) <= heap.requests
      ensures status == if heap.RefusedSince(old(heap.requests)) then NoMemory else Done
      ensures status == Done ==> Reflects(os + [full])
      ensures status == Done ==> starved == if outcome == full then old(starved) else old(starved) + {|os| + 1}
      ensures status == Done ==> corruptionCount == old(corruptionCount) + CorruptionOf(outcome, false)
      ensures status == NoMemory ==>
                && outcome.Analyzed? && chains == old(chains)
                && corruptionCount == old(corruptionCount) + outcome.chain.corruptions
                && IndexedInPart(old(owners), owners, outcome.chain)
    {
      hide ChainsOf, IndexChains, CorruptionCount, Starvable, IndexRefs, Untouched;
      OneMoreRecorded(os, starved, full);
      match outcome
      case Skipped =>
        return Done;
      case Failed =>
        corruptionCount := corruptionCount + 1;
        if full.Analyzed? {
          starved := starved + {|os| + 1};
        }
        return Done;
      case Analyzed(chain) =>
        corruptionCount := corruptionCount + chain.corruptions;
        status := IndexChainOwners(heap, chain);
        if status == Done {
          IndexOneMore(chains, chain);
          assert chain.refs[..|chain.refs|] == chain.refs;
          assert StoppedAt(old(owners), owners, chain, |chain.refs|);
          status := AddChain(heap, chain);
        }
    }

    /** `ext4_build_chain_analysis`; the 32-bit counter passes the last inode only below 2^32 - 1. */
    method Build(heap: Heap, fs: Fs) returns (status: Status)
      requires Geometry(fs) && fs.sb.inodesCount < U32_MAX
      modifies this, heap
      ensures Valid()
      ensures old(heap.requests) <= heap.requests
      ensures status == Done || (status == NoMemory && heap.RefusedSince(old(heap.requests)))
      ensures status == Done ==> Reflects(Outcomes(fs, fs.sb.inodesCount))
      ensures status == Done ==>
                if heap.RefusedSince(old(heap.requests)) then corruptionCount > 0 else starved == {}
    {
      hide Examine, Outcomes, ChainsOf, IndexChains, CorruptionCount, IndexedInPart;
      NothingScanned(fs);
      chains, chainCapacity, owners, ownerCapacity, corruptionCount := [], 0, [], 0, 0;
      starved := {};
      var n := 1;
      while n <= fs.sb.inodesCount
        invariant 1 <= n <= fs.sb.inodesCount + 1
        invariant Valid() && Reflects(Outcomes(fs, n - 1))
        invariant old(heap.requests) <= heap.requests
        invariant if heap.RefusedSince(old(heap.requests)) then corruptionCount > 0 else starved == {}
      {
        var outcome := ExamineInode(heap, fs, n);
        OneMoreOutcome(fs, n);
        status := Record(heap, outcome, Outcomes(fs, n - 1), Examine(fs, n));
        if status != Done {
          return;
        }
        n := n + 1;
      }
      return Done;
    }
  }
}
