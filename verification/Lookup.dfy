/** ext4_dir.c: looking a name up in a directory, and how lookup and listing agree. */
module Lookup {
  import opened Bytes
  import opened Device
  import opened Super
  import opened Inode
  import opened Dir
  import opened DirTiling
  import opened Extent

  function LastMatch(es: seq<DirEntry>, name: seq<byte>): Option<DirEntry> {
    if es == [] then None
    else if Matches(name, es[|es| - 1]) then Some(es[|es| - 1])
    else LastMatch(es[..|es| - 1], name)
  }

  function FirstMatch(es: seq<DirEntry>, name: seq<byte>): Option<DirEntry> {
    if es == [] then None
    else if Matches(name, es[0]) then Some(es[0])
    else FirstMatch(es[1..], name)
  }

  /** `ext4_find_entry_in_directory`: nothing if it fails. */
  function FindEntry(fs: Fs, dir: nat, name: seq<byte>): Option<DirEntry>
    requires Geometry(fs)
  {
    if |name| > NAME_MAX then None else LastMatch(ListDirectory(fs, dir, Lookup(name)).entries, name)
  }

  /** `ext4_find_entry_in_directory`: the callback overwrites its context at every match it is given. */
  method FindEntryInDirectory(fs: Fs, dir: nat, name: seq<byte>) returns (r: Option<DirEntry>)
    requires Geometry(fs) && (|name| <= NAME_MAX ==> Contained(fs, dir))
    ensures r == FindEntry(fs, dir, name)
  {
    hide ListDirectory;
    if |name| > NAME_MAX {
      return None;
    }
    var scan := ListDirectoryInode(fs, dir, Lookup(name));
    r := None;
    for i := 0 to |scan.entries|
      invariant r == LastMatch(scan.entries[..i], name)
    {
      assert scan.entries[..i + 1][..i] == scan.entries[..i];
      if Matches(name, scan.entries[i]) {
        r := Some(scan.entries[i]);
      }
    }
    assert scan.entries[..|scan.entries|] == scan.entries;
  }

  // A listing, block by block.

  /** The entries of each block of a walk, in order. */
  function EntriesByBlock(fs: Fs, size: nat, blocks: seq<Mapping>): seq<seq<DirEntry>> {
    if blocks == [] then []
    else
      [BlockScan(fs, size, blocks[0].logical, blocks[0].physical, Every).entries]
      + EntriesByBlock(fs, size, blocks[1..])
  }

  /** The full listing of a directory, split into its blocks. */
  function ListingByBlock(fs: Fs, dir: nat): seq<seq<DirEntry>>
    requires Geometry(fs)
  {
    match ReadInode(fs, dir)
    case None => []
    case Some(inode) =>
      if inode.kind != Directory then []
      else EntriesByBlock(fs, inode.size, WalkInode(fs, inode).blocks)
  }

  function Flatten(bs: seq<seq<DirEntry>>): seq<DirEntry> {
    if bs == [] then [] else bs[0] + Flatten(bs[1..])
  }

  /** The first match of the last block that has one. */
  function FirstOfLast(bs: seq<seq<DirEntry>>, name: seq<byte>): Option<DirEntry> {
    if bs == [] then None
    else
      var later := FirstOfLast(bs[1..], name);
      if later.Some? then later else FirstMatch(bs[0], name)
  }

  lemma {:induction false} LastMatchAppend(a: seq<DirEntry>, b: seq<DirEntry>, name: seq<byte>)
    ensures LastMatch(a + b, name) == if LastMatch(b, name).Some? then LastMatch(b, name) else LastMatch(a, name)
    decreases b
  {
    hide Matches;
    if b == [] {
      assert a + b == a;
    } else {
      var n := |b| - 1;
      assert (a + b)[..|a + b| - 1] == a + b[..n];
      LastMatchAppend(a, b[..n], name);
    }
  }

  /** A scan that stops at the first match keeps that match as its only, hence last, one. */
  lemma {:induction false} ThroughFirst(es: seq<DirEntry>, name: seq<byte>)
    ensures LastMatch(Through(es, Lookup(name)), name) == FirstMatch(es, name)
  {
    hide Matches;
    if es != [] {
      ThroughFirst(es[1..], name);
      if !Matches(name, es[0]) {
        LastMatchAppend([es[0]], Through(es[1..], Lookup(name)), name);
        assert [es[0]][..0] == [];
      } else {
        assert [es[0]][|[es[0]]| - 1] == es[0];
      }
    }
  }

  lemma BlockLookup(fs: Fs, size: nat, logical: nat, physical: nat, name: seq<byte>)
    ensures LastMatch(BlockScan(fs, size, logical, physical, Lookup(name)).entries, name) ==
            FirstMatch(BlockScan(fs, size, logical, physical, Every).entries, name)
  {
    hide Records, Delivered;
    if BlockIndexValid(fs, physical) && !(Limit(fs, size, logical) == 0 && fs.blockSize > 0) {
      match ReadBlock(fs.dev, fs.blockSize, physical)
      case None =>
      case Some(block) =>
        var es := Delivered(Records(fs, block, logical, physical, 0, Limit(fs, size, logical)));
        ThroughFirst(es, name);
        ThroughEvery(es);
    }
  }

  lemma {:induction false} BlocksLookup(fs: Fs, size: nat, blocks: seq<Mapping>, name: seq<byte>)
    ensures LastMatch(ScanBlocks(fs, size, blocks, Lookup(name)).entries, name) ==
            FirstOfLast(EntriesByBlock(fs, size, blocks), name)
  {
    hide BlockScan, Matches, LastMatch;
    if blocks == [] {
      NoLastMatch(name);
    } else {
      BlocksLookup(fs, size, blocks[1..], name);
      BlockLookup(fs, size, blocks[0].logical, blocks[0].physical, name);
      LastMatchAppend(BlockScan(fs, size, blocks[0].logical, blocks[0].physical, Lookup(name)).entries,
                      ScanBlocks(fs, size, blocks[1..], Lookup(name)).entries, name);
      var bs := EntriesByBlock(fs, size, blocks);
      assert bs[1..] == EntriesByBlock(fs, size, blocks[1..]);
    }
  }

  lemma NoLastMatch(name: seq<byte>)
    ensures LastMatch([], name) == None
  {
  }

  lemma {:induction false} ListingFlattens(fs: Fs, size: nat, blocks: seq<Mapping>)
    ensures ScanBlocks(fs, size, blocks, Every).entries == Flatten(EntriesByBlock(fs, size, blocks))
  {
    hide BlockScan;
    if blocks != [] {
      ListingFlattens(fs, size, blocks[1..]);
      assert EntriesByBlock(fs, size, blocks)[1..] == EntriesByBlock(fs, size, blocks[1..]);
    }
  }

  lemma {:induction false} FirstMatchMember(es: seq<DirEntry>, name: seq<byte>)
    ensures FirstMatch(es, name).Some? <==> exists e :: e in es && Matches(name, e)
    ensures FirstMatch(es, name).Some? ==> FirstMatch(es, name).value in es && Matches(name, FirstMatch(es, name).value)
  {
    hide Matches;
    if es != [] {
      FirstMatchMember(es[1..], name);
      assert es == [es[0]] + es[1..];
    }
  }

  lemma {:induction false} FirstOfLastMember(bs: seq<seq<DirEntry>>, name: seq<byte>)
    ensures FirstOfLast(bs, name).Some? <==> exists e :: e in Flatten(bs) && Matches(name, e)
    ensures FirstOfLast(bs, name).Some? ==>
              FirstOfLast(bs, name).value in Flatten(bs) && Matches(name, FirstOfLast(bs, name).value)
  {
    hide Matches, FirstMatch;
    if bs != [] {
      FirstOfLastMember(bs[1..], name);
      FirstMatchMember(bs[0], name);
    }
  }

  /** The listing is the concatenation of its blocks. */
  lemma ListingByBlockFlattens(fs: Fs, dir: nat)
    requires Geometry(fs)
    ensures ListDirectory(fs, dir, Every).entries == Flatten(ListingByBlock(fs, dir))
  {
    hide ReadInode, WalkInode;
    if ReadInode(fs, dir).Some? && ReadInode(fs, dir).value.kind == Directory {
      var inode := ReadInode(fs, dir).value;
      ListingFlattens(fs, inode.size, WalkInode(fs, inode).blocks);
    }
  }

  /** Lookup finds the first match of the last block that has one. */
  lemma LookupIsFirstOfLast(fs: Fs, dir: nat, name: seq<byte>)
    requires Geometry(fs) && |name| <= NAME_MAX
    ensures FindEntry(fs, dir, name) == FirstOfLast(ListingByBlock(fs, dir), name)
  {
    hide ReadInode, WalkInode, LastMatch;
    NoLastMatch(name);
    if ReadInode(fs, dir).Some? && ReadInode(fs, dir).value.kind == Directory {
      var inode := ReadInode(fs, dir).value;
      BlocksLookup(fs, inode.size, WalkInode(fs, inode).blocks, name);
    }
  }

  /**
   * Lookup agrees with listing: a valid name is found exactly when the full listing delivers an
   * intact entry of that name, what is found is such an entry, and it is the only one if names are
   * unique.
   */
  lemma LookupAgreesWithListing(fs: Fs, dir: nat, name: seq<byte>)
    requires Geometry(fs) && |name| <= NAME_MAX
    ensures var listing := ListDirectory(fs, dir, Every).entries;
            && (FindEntry(fs, dir, name).Some? <==> exists e :: e in listing && Matches(name, e))
            && (FindEntry(fs, dir, name).Some? ==>
                  FindEntry(fs, dir, name).value in listing && Matches(name, FindEntry(fs, dir, name).value))
            && (forall e | e in listing && Matches(name, e) ::
                  (forall f | f in listing && Matches(name, f) :: f == e) ==> FindEntry(fs, dir, name) == Some(e))
  {
    hide ListDirectory, FindEntry, ListingByBlock, Matches, FirstOfLast, Flatten;
    ListingByBlockFlattens(fs, dir);
    LookupIsFirstOfLast(fs, dir, name);
    FirstOfLastMember(ListingByBlock(fs, dir), name);
  }
}
