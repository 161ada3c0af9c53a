/** Backups and the restore in terms of the bytes of the image: no decoded field and no record in between. */
module RestoreBytes {
  import opened Bytes
  import opened Arithmetic
  import opened Device
  import opened Super
  import opened Sparse
  import opened Backup
  import opened Recovery
  import Crc
  import CrcValues

  /** The checksum is that of one run over the uuid, the record without its last four bytes, and four zeros. */
  lemma OneRun(raw: seq<byte>)
    requires |raw| == 1024
    ensures Checksum(raw) == Crc.Update(Crc.Word(0xFFFF_FFFF), raw[104..120] + (raw[..1020] + [0, 0, 0, 0]))
  {
    CrcValues.UpdateComposes(Crc.Word(0xFFFF_FFFF), raw[104..120], raw[..1020] + [0, 0, 0, 0]);
  }

  /** What is said about a superblock that can be read. */
  lemma VerdictsExactly(dev: Device, group: nat, block: nat, offset: nat, isPrimary: bool, raw: seq<byte>)
    requires |raw| == 1024 && ReadAt(dev, offset, 1024) == Some(raw)
    ensures var b := BackupAt(dev, group, block, offset, isPrimary);
            && b.readOk && b.raw == raw && (b.magicOk <==> Le16(raw, 56) == 0xEF53)
            && (b.structureOk <==> Validate(Decode(raw)))
            && (b.checksumChecked <==> Le32(raw, 100) / 0x400 % 2 == 1 || Le32(raw, 1020) != 0)
            && (b.checksumOk <==>
                  && b.checksumChecked
                  && Crc.Update(Crc.Word(0xFFFF_FFFF), raw[104..120] + (raw[..1020] + [0, 0, 0, 0])) ==
                     Crc.Word(Le32(raw, 1020)))
  {
    OneRun(raw);
    SuperSizes(raw);
    ValidatesExactly(raw);
    Masks(Le32(raw, 100));
    hide Checksum, BitAnd, Le16, Le32, Decode, Validate, InodeBytes, DescBytes, ReadAt, Crc.Update, Crc.Word;
  }

  /** Exactly one value of the checksum field is found right, whatever the other bytes are. */
  lemma OneSeal(raw: seq<byte>) returns (sum: nat)
    requires |raw| == 1024
    ensures sum < 0x1_0000_0000
    ensures forall v: nat | v < 0x1_0000_0000 :: SealIntact(raw[..1020] + Put32(v)) <==> v == sum
  {
    sum := CrcValues.SomeWord(Checksum(raw));
    PowersOfTwo();
    hide Crc.Update, Crc.ToBits, Put32;
    forall v: nat | v < 0x1_0000_0000
      ensures SealIntact(raw[..1020] + Put32(v)) <==> v == sum
    {
      SealWith(raw, v);
      if Crc.Word(v) == Crc.Word(sum) {
        Crc.ToBitsInjective(v, sum, 32);
      }
    }
  }

  lemma SealWith(raw: seq<byte>, v: nat)
    requires |raw| == 1024 && v < 0x1_0000_0000
    ensures var r := raw[..1020] + Put32(v); Checksum(r) == Checksum(raw) && Decode(r).checksum == v
  {
    var r := raw[..1020] + Put32(v);
    Le32Put(r, 1020, v);
    assert r[..1020] == raw[..1020] && r[104..120] == raw[104..120];
    hide Crc.Update, Le16, Le32, Put32;
  }

  // Which backup a restore writes.

  /** The geometry that discovery computes from the bytes of the primary superblock. */
  function Blocks(raw: seq<byte>): nat
    requires |raw| == 1024
  {
    Le32(raw, 4) + 0x1_0000_0000 * Le32(raw, 336)
  }

  ghost predicate Measurable(raw: seq<byte>)
    requires |raw| == 1024
  {
    && Le32(raw, 24) <= 6 && Blocks(raw) != 0 && Le32(raw, 32) != 0
    && CeilDiv(Blocks(raw), Le32(raw, 32)) < 0x1_0000_0000
  }

  lemma MeasuredExactly(raw: seq<byte>)
    requires |raw| == 1024
    ensures SafeGroupCount(Decode(raw)).Some? <==> Measurable(raw)
    ensures Measurable(raw) ==>
              && SafeGroupCount(Decode(raw)).value.blockSize == 1024 * Pow(2, Le32(raw, 24))
              && SafeGroupCount(Decode(raw)).value.groupsCount == CeilDiv(Blocks(raw), Le32(raw, 32))
  {
    SuperSizes(raw);
    GroupCountIsExact(Blocks(raw), Le32(raw, 32));
    if Le32(raw, 24) <= 6 {
      SmallPowers(Le32(raw, 24));
    }
    if Blocks(raw) != 0 && Le32(raw, 32) != 0 {
      CeilDivPositive(Blocks(raw), Le32(raw, 32));
    }
    hide Decode, Le16, Le32, GroupCount, SafeGroupCount, BlockSize, BlocksCount, InodeBytes, DescBytes, Pow, CeilDiv;
    if Le32(raw, 24) <= 6 && Blocks(raw) != 0 {
      GroupCountsAgree(Decode(raw));
    } else {
      NotMeasured(Decode(raw));
    }
  }

  lemma NotMeasured(sb: Superblock)
    requires BlockSize(sb) == 0 || BlocksCount(sb) == 0
    ensures SafeGroupCount(sb) == None
  {
  }

  /** Where the superblock of group `g` lies, from the bytes of the primary. */
  function PlaceIn(raw: seq<byte>, g: nat): nat
    requires |raw| == 1024
  {
    FirstByte(g, Le32(raw, 32), Le32(raw, 20), Le32(raw, 24))
  }

  /** The first byte of group `g`, in blocks of 1024 * 2^log bytes. */
  function FirstByte(g: nat, perGroup: nat, first: nat, log: nat): nat {
    (g * perGroup + first) * (1024 * Pow(2, log))
  }

  /** The superblock of some group that is to carry a backup would end past the largest offset. */
  ghost predicate SomeTooFar(raw: seq<byte>, groups: nat)
    requires |raw| == 1024
  {
    exists g: nat :: 1 <= g < groups && TooFar(raw, g)
  }

  ghost predicate TooFar(raw: seq<byte>, g: nat)
    requires |raw| == 1024
  {
    (IsPower(3, g) || IsPower(5, g) || IsPower(7, g)) && PlaceIn(raw, g) + 1024 > 0x7FFF_FFFF_FFFF_FFFF
  }

  /** The bytes of the backup with this index in the report, if the report gets that far. */
  ghost function IndexedBytes(dev: Device, index: nat): Option<seq<byte>> {
    match ReadAt(dev, 1024, 1024)
    case None => None
    case Some(raw) =>
      if !Measurable(raw) then None
      else
        var groups := CeilDiv(Blocks(raw), Le32(raw, 32));
        if SomeTooFar(raw, groups) || index >= |SparseGroups(groups)| then None
        else ReadAt(dev, PlaceIn(raw, SparseGroups(groups)[index]), 1024)
  }

  lemma SamePlaces(raw: seq<byte>, groups: nat)
    requires |raw| == 1024
    ensures OutOfReach(Decode(raw), 1024 * Pow(2, Le32(raw, 24)), groups) <==> SomeTooFar(raw, groups)
    ensures forall g: nat :: GroupOffset(Decode(raw), 1024 * Pow(2, Le32(raw, 24)), g) == PlaceIn(raw, g)
  {
    SuperSizes(raw);
    hide Decode, Le16, Le32, Pow, IsPower, BlockSize, BlocksCount, InodeSize, DescSize, InodeBytes, DescBytes;
    var sb, size := Decode(raw), 1024 * Pow(2, Le32(raw, 24));
    assert forall g: nat :: GroupOffset(sb, size, g) == PlaceIn(raw, g);
    forall g: nat | g >= 1
      ensures Unreachable(sb, size, g) <==> TooFar(raw, g)
    {
    }
  }

  /**
   * A restore has a backup to write exactly if that superblock can be read at its place, has the
   * magic and passes the structural validation; its checksum does not matter. The bytes written are
   * the ones read there.
   */
  lemma SelectedExactly(dev: Device, index: nat)
    ensures (exists b :: Selected(dev, index, b)) <==>
            && IndexedBytes(dev, index).Some?
            && var raw := IndexedBytes(dev, index).value;
               |raw| == 1024 && Le16(raw, 56) == 0xEF53 && Validate(Decode(raw))
    ensures forall b :: Selected(dev, index, b) ==> IndexedBytes(dev, index) == Some(b.raw)
  {
    var read := ReadAt(dev, 1024, 1024);
    if read.Some? {
      var raw := read.value;
      MeasuredExactly(raw);
      SelectedWhen(dev, index, raw);
      hide Selected, Decode, Validate, SafeGroupCount, ReadAt, OutOfReach, SomeTooFar, Measurable, SparseGroups;
      if Measurable(raw) {
        var groups := CeilDiv(Blocks(raw), Le32(raw, 32));
        SamePlaces(raw, groups);
        if !SomeTooFar(raw, groups) && index < |SparseGroups(groups)| {
          SelectedItem(dev, index, raw, SparseGroups(groups)[index]);
        }
      }
    }
  }

  /** Selection, once the primary has been read. */
  lemma SelectedWhen(dev: Device, index: nat, raw: seq<byte>)
    requires |raw| == 1024 && ReadAt(dev, 1024, 1024) == Some(raw)
    ensures var sb, geometry := Decode(raw), SafeGroupCount(Decode(raw));
            forall b :: Selected(dev, index, b) <==>
              && geometry.Some? && !OutOfReach(sb, geometry.value.blockSize, geometry.value.groupsCount)
              && var groups := SparseGroups(geometry.value.groupsCount);
                 index < |groups| && b == Expected(dev, sb, geometry.value.blockSize, groups[index], index) && Safe(b)
  {
    PrimaryIs(dev, raw);
    hide BackupAt, Decode, Expected, SafeGroupCount, ReadAt, OutOfReach, SparseGroups, Safe;
  }

  lemma PrimaryIs(dev: Device, raw: seq<byte>)
    requires |raw| == 1024 && ReadAt(dev, 1024, 1024) == Some(raw)
    ensures var primary := BackupAt(dev, 0, 0, 1024, true); primary.readOk && primary.sb == Decode(raw)
  {
    hide ReadAt, Decode, Validate, Sealed, SealIntact;
  }

  lemma SelectedItem(dev: Device, index: nat, raw: seq<byte>, g: nat)
    requires |raw| == 1024 && ReadAt(dev, 1024, 1024) == Some(raw)
    requires Decode(raw).blocksPerGroup > 0
    requires GroupOffset(Decode(raw), 1024 * Pow(2, Le32(raw, 24)), g) == PlaceIn(raw, g)
    ensures var b := Expected(dev, Decode(raw), 1024 * Pow(2, Le32(raw, 24)), g, index);
            var bytes := ReadAt(dev, PlaceIn(raw, g), 1024);
            && (Safe(b) <==> && bytes.Some? && |bytes.value| == 1024 && Le16(bytes.value, 56) == 0xEF53
                             && Validate(Decode(bytes.value)))
            && (bytes.Some? ==> b.raw == bytes.value)
  {
  }
}
