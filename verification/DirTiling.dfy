/** What the record scan guarantees on arbitrary bytes. */
module DirTiling {
  import opened Bytes
  import opened Super
  import opened Dir

  function TotalLength(rs: seq<DirEntry>): nat {
    if rs == [] then 0 else rs[0].recLen + TotalLength(rs[1..])
  }

  ghost predicate NoneCorrupt(rs: seq<DirEntry>) {
    forall i | 0 <= i < |rs| :: !Corrupt(rs[i])
  }

  /** An intact name is the bytes after its header, and ends inside the record, which ends inside the range. */
  ghost predicate NameInside(block: seq<byte>, limit: nat, e: DirEntry)
    requires limit <= |block|
  {
    !Corrupt(e) ==>
      && 8 + e.nameLen <= e.recLen && e.offset + e.recLen <= limit
      && e.name == block[e.offset + 8..e.offset + 8 + e.nameLen]
  }

  /** The record list starts at `offset`, each record starting where the one before it ends. */
  ghost predicate Chained(block: seq<byte>, rs: seq<DirEntry>, offset: nat, limit: nat)
    requires limit <= |block|
    decreases rs
  {
    if rs == [] then offset == limit
    else
      && rs[0].offset == offset < limit && NameInside(block, limit, rs[0])
      && ((|rs| == 1 && Corrupt(rs[0])) ||
          (8 <= rs[0].recLen && rs[0].recLen % 4 == 0 && Chained(block, rs[1..], offset + rs[0].recLen, limit)))
  }

  lemma ParsedName(fs: Fs, block: seq<byte>, logical: nat, physical: nat, offset: nat, limit: nat)
    requires offset < limit <= |block|
    ensures NameInside(block, limit, ParseEntry(fs, block, logical, physical, offset, limit).entry)
  {
  }

  lemma RecordsPast(fs: Fs, block: seq<byte>, logical: nat, physical: nat, offset: nat, limit: nat)
    requires limit <= |block| && offset >= limit
    ensures Records(fs, block, logical, physical, offset, limit) == []
  {
  }

  /** The scan of any bytes chains its records. */
  lemma {:induction false} RecordsChained(fs: Fs, block: seq<byte>, logical: nat, physical: nat, offset: nat,
                                          limit: nat)
    requires offset <= limit <= |block|
    ensures Chained(block, Records(fs, block, logical, physical, offset, limit), offset, limit)
    decreases limit - offset
  {
    hide Records, ParseEntry, NameInside;
    if offset == limit {
      RecordsPast(fs, block, logical, physical, offset, limit);
    } else {
      var p := ParseEntry(fs, block, logical, physical, offset, limit);
      RecordsStep(fs, block, logical, physical, offset, limit);
      ParsedName(fs, block, logical, physical, offset, limit);
      var rs := Records(fs, block, logical, physical, offset, limit);
      if !p.fatal {
        RecordsChained(fs, block, logical, physical, offset + p.entry.recLen, limit);
        assert rs[1..] == Records(fs, block, logical, physical, offset + p.entry.recLen, limit);
      }
    }
  }

  lemma {:induction false} ChainedMember(block: seq<byte>, rs: seq<DirEntry>, offset: nat, limit: nat, i: nat)
    requires limit <= |block| && Chained(block, rs, offset, limit) && i < |rs|
    ensures offset <= rs[i].offset < limit && rs[i].offset % 4 == offset % 4 && NameInside(block, limit, rs[i])
    ensures i < |rs| - 1 ==> 8 <= rs[i].recLen
    decreases rs
  {
    hide NameInside;
    if i > 0 {
      ChainedMember(block, rs[1..], offset + rs[0].recLen, limit, i - 1);
    }
  }

  lemma {:induction false} ChainedOrder(block: seq<byte>, rs: seq<DirEntry>, offset: nat, limit: nat, i: nat, j: nat)
    requires limit <= |block| && Chained(block, rs, offset, limit) && i < j < |rs|
    ensures rs[i].offset + rs[i].recLen <= rs[j].offset
    decreases rs
  {
    hide NameInside;
    if i == 0 {
      ChainedMember(block, rs[1..], offset + rs[0].recLen, limit, j - 1);
    } else {
      ChainedOrder(block, rs[1..], offset + rs[0].recLen, limit, i - 1, j - 1);
    }
  }

  lemma {:induction false} ChainedCount(block: seq<byte>, rs: seq<DirEntry>, offset: nat, limit: nat)
    requires offset <= limit <= |block| && Chained(block, rs, offset, limit)
    ensures 8 * |rs| <= limit - offset + 8
    ensures NoneCorrupt(rs) ==> TotalLength(rs) == limit - offset
    decreases rs
  {
    hide NameInside;
    if rs != [] && Chained(block, rs[1..], offset + rs[0].recLen, limit) {
      if rs[1..] != [] {
        ChainedMember(block, rs[1..], offset + rs[0].recLen, limit, 0);
      }
      ChainedCount(block, rs[1..], offset + rs[0].recLen, limit);
    }
  }

  /** `a` is a full record that ends where `b` starts or earlier. */
  predicate Before(a: DirEntry, b: DirEntry) {
    8 <= a.recLen && a.offset + a.recLen <= b.offset
  }

  /**
   * The records of any block lie inside it and are aligned to four bytes, pairwise disjoint and at
   * most one per eight bytes, plus the one the scan gives up on. Intact names lie inside their
   * records, and without corruption the record lengths add up to exactly the scanned range.
   */
  lemma Tiling(fs: Fs, block: seq<byte>, logical: nat, physical: nat, limit: nat)
    requires limit <= |block|
    ensures var rs := Records(fs, block, logical, physical, 0, limit);
            && (forall i | 0 <= i < |rs| ::
                  rs[i].offset < limit && rs[i].offset % 4 == 0 && NameInside(block, limit, rs[i]))
            && (forall i, j | 0 <= i < j < |rs| :: Before(rs[i], rs[j]))
            && |rs| <= limit / 8 + 1
            && (NoneCorrupt(rs) ==> TotalLength(rs) == limit)
  {
    hide Records, NameInside, Chained;
    RecordsChained(fs, block, logical, physical, 0, limit);
    var rs := Records(fs, block, logical, physical, 0, limit);
    ChainedCount(block, rs, 0, limit);
    forall i | 0 <= i < |rs|
      ensures rs[i].offset < limit && rs[i].offset % 4 == 0 && NameInside(block, limit, rs[i])
    {
      ChainedMember(block, rs, 0, limit, i);
    }
    forall i, j | 0 <= i < j < |rs|
      ensures Before(rs[i], rs[j])
    {
      ChainedMember(block, rs, 0, limit, i);
      ChainedOrder(block, rs, 0, limit, i, j);
    }
  }

  /** The callback is given exactly the records in use and the corrupt ones, in order. */
  lemma {:induction false} DeliveredMembers(rs: seq<DirEntry>, e: DirEntry)
    ensures e in Delivered(rs) <==> e in rs && Live(e)
    ensures e in Delivered(rs) <==> e in rs && (e.inode != 0 || e.fault != None)
  {
    if rs != [] {
      DeliveredMembers(rs[1..], e);
      assert rs == [rs[0]] + rs[1..];
    }
  }

  lemma {:induction false} ThroughEvery(es: seq<DirEntry>)
    ensures Through(es, Every) == es
  {
    if es != [] {
      ThroughEvery(es[1..]);
    }
  }

  /** The scan of a block returns 0 exactly when no record is corrupt, and then the records tile the range. */
  lemma CleanBlockTiles(fs: Fs, block: seq<byte>, logical: nat, physical: nat, limit: nat)
    requires limit <= |block|
    ensures var rs := Records(fs, block, logical, physical, 0, limit);
            && (ScanOf(Delivered(rs), Every).ok <==> NoneCorrupt(rs))
            && (ScanOf(Delivered(rs), Every).ok ==> TotalLength(rs) == limit)
  {
    Tiling(fs, block, logical, physical, limit);
    var rs := Records(fs, block, logical, physical, 0, limit);
    var es := Delivered(rs);
    ThroughEvery(es);
    hide Records, Delivered, Through;
    forall i | 0 <= i < |es|
      ensures es[i] in rs
    {
      DeliveredMembers(rs, es[i]);
    }
    forall i | 0 <= i < |rs| && Corrupt(rs[i])
      ensures rs[i] in es
    {
      DeliveredMembers(rs, rs[i]);
    }
  }
}
