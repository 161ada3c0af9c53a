/** The retry loops of ext4_io.c over a disk whose transfers may be short or fail. */
module Io {
  import opened Bytes
  import opened Device

  datatype Transfer = Failed | Moved(count: nat)

  /** The transfer stopped short of any byte, with an error or without. */
  predicate Stalled(t: Transfer) {
    t == Failed || t == Moved(0)
  }

  /** `s` with `data` stored at `offset`; a store past the end first extends `s` with zeros. */
  function Overwrite(s: seq<byte>, offset: nat, data: seq<byte>): (r: seq<byte>)
    ensures |r| == if data == [] || offset + |data| <= |s| then |s| else offset + |data|
  {
    if data == [] then s
    else
      seq(if offset + |data| <= |s| then |s| else offset + |data|,
          p requires p >= 0 => StoredByte(s, offset, data, p))
  }

  function StoredByte(s: seq<byte>, offset: nat, data: seq<byte>, p: nat): byte {
    if offset <= p < offset + |data| then data[p - offset] else if p < |s| then s[p] else 0
  }

  lemma OverwriteAt(s: seq<byte>, offset: nat, data: seq<byte>, p: nat)
    requires p < |Overwrite(s, offset, data)|
    ensures Overwrite(s, offset, data)[p] == StoredByte(s, offset, data, p)
  {
  }

  lemma OverwriteNothing(s: seq<byte>, offset: nat)
    ensures Overwrite(s, offset, []) == s
  {
  }

  /** Storing a buffer in two pieces is storing it whole. */
  lemma OverwriteInPieces(s: seq<byte>, offset: nat, a: seq<byte>, b: seq<byte>)
    ensures Overwrite(Overwrite(s, offset, a), offset + |a|, b) == Overwrite(s, offset, a + b)
  {
    hide Overwrite, StoredByte;
    if b == [] {
      OverwriteNothing(Overwrite(s, offset, a), offset + |a|);
      assert a + b == a;
    } else if a == [] {
      OverwriteNothing(s, offset);
      assert a + b == b;
    } else {
      var first, once := Overwrite(s, offset, a), Overwrite(s, offset, a + b);
      var twice := Overwrite(first, offset + |a|, b);
      forall p | 0 <= p < |once|
        ensures once[p] == twice[p]
      {
        OverwriteAt(s, offset, a + b, p);
        OverwriteAt(first, offset + |a|, b, p);
        StoredInPieces(s, offset, a, b, p);
      }
    }
  }

  lemma StoredInPieces(s: seq<byte>, offset: nat, a: seq<byte>, b: seq<byte>, p: nat)
    requires a != []
    ensures StoredByte(s, offset, a + b, p) == StoredByte(Overwrite(s, offset, a), offset + |a|, b, p)
  {
    if offset <= p < offset + |a| {
      assert (a + b)[p - offset] == a[p - offset];
    }
  }

  /** One more transfer of `n` bytes prolongs the stored prefix by `n`. */
  lemma OverwriteProlonged(s: seq<byte>, offset: nat, data: seq<byte>, k: nat, n: nat)
    requires k + n <= |data|
    ensures Overwrite(Overwrite(s, offset, data[..k]), offset + k, data[k..][..n]) ==
            Overwrite(s, offset, data[..k + n])
  {
    assert data[..k] + data[k..][..n] == data[..k + n];
    OverwriteInPieces(s, offset, data[..k], data[k..][..n]);
  }

  class Disk {
    var bytes: seq<byte>
    const faulty: set<nat>
    /** How far each `pwrite` will get, unless its buffer ends first. */
    const fate: nat -> Transfer
    var writes: nat

    constructor (image: seq<byte>, bad: set<nat>, fate: nat -> Transfer)
      ensures bytes == image && faulty == bad && this.fate == fate && writes == 0
    {
      bytes := image;
      faulty := bad;
      this.fate := fate;
      writes := 0;
    }

    /** Of the writes after the first `from`, one stalled. */
    ghost predicate StalledSince(from: nat)
      reads this
    {
      exists k: nat :: from <= k < writes && Stalled(fate(k))
    }

    function Snapshot(): Device
      reads this
    {
      Device(bytes, faulty)
    }

    /** One `pread`: fails on a faulty byte, reports 0 at end of file, may otherwise stop anywhere. */
    method Pread(offset: nat, count: nat) returns (t: Transfer)
      requires count > 0
      ensures t == Failed <==> offset < |bytes| && offset in faulty
      ensures t.Moved? && t.count > 0 ==> t.count <= count && Readable(Snapshot(), offset, t.count)
      ensures t == Moved(0) <==> offset >= |bytes|
    {
      if offset >= |bytes| {
        return Moved(0);
      }
      if offset in faulty {
        return Failed;
      }
      assert Readable(Snapshot(), offset, 1);
      var n: nat :| 1 <= n <= count && Readable(Snapshot(), offset, n);
      return Moved(n);
    }

    /** One `pwrite`: fails, stores nothing, or stores any nonempty prefix of `data`. */
    method Pwrite(offset: nat, data: seq<byte>) returns (t: Transfer)
      requires data != []
      modifies this
      ensures writes == old(writes) + 1 && (Stalled(t) <==> Stalled(fate(old(writes))))
      ensures t.Failed? ==> bytes == old(bytes)
      ensures t.Moved? ==> t.count <= |data| && bytes == Overwrite(old(bytes), offset, data[..t.count])
    {
      t := fate(writes);
      writes := writes + 1;
      if t.Moved? {
        t := Moved(if t.count < |data| then t.count else |data|);
        bytes := Overwrite(bytes, offset, data[..t.count]);
      }
    }

    /** `ext4_io_read_exact_at`: however the transfers are cut, the outcome is that of `ReadAt`. */
    method ReadExactAt(offset: nat, size: nat) returns (r: Option<seq<byte>>)
      ensures r == ReadAt(Snapshot(), offset, size)
    {
      if !OffsetRequestValid(offset, size) {
        return None;
      }
      var total: nat := 0;
      var buffer: seq<byte> := [];
      while total < size
        invariant total <= size && |buffer| == total
        invariant total > 0 ==> Readable(Snapshot(), offset, total) && buffer == bytes[offset..offset + total]
      {
        var t := Pread(offset + total, size - total);
        if t == Failed || t == Moved(0) {
          assert !Readable(Snapshot(), offset, size);
          return None;
        }
        buffer := buffer + bytes[offset + total..offset + total + t.count];
        total := total + t.count;
      }
      return Some(buffer);
    }

    /** `ext4_io_write_exact_at`: the whole buffer is stored, or a prefix of it and failure is reported. */
    method WriteExactAt(offset: nat, buffer: seq<byte>) returns (ok: bool, ghost stored: nat)
      modifies this
      ensures stored <= |buffer| && bytes == Overwrite(old(bytes), offset, buffer[..stored])
      ensures old(writes) <= writes
      ensures ok <==> OffsetRequestValid(offset, |buffer|) && stored == |buffer|
      ensures ok <==> OffsetRequestValid(offset, |buffer|) && !StalledSince(old(writes))
    {
      stored := 0;
      if !OffsetRequestValid(offset, |buffer|) {
        return false, 0;
      }
      var total: nat := 0;
      while total < |buffer|
        invariant total <= |buffer| && stored == total
        invariant bytes == Overwrite(old(bytes), offset, buffer[..total])
        invariant old(writes) <= writes && !StalledSince(old(writes))
      {
        var t := Pwrite(offset + total, buffer[total..]);
        if t == Failed || t == Moved(0) {
          return false, total;
        }
        OverwriteProlonged(old(bytes), offset, buffer, total, t.count);
        total := total + t.count;
        stored := total;
      }
      assert buffer[..total] == buffer;
      return true, total;
    }
  }
}
