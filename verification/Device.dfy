/** What a read of the image delivers: the outcome that the retry loops of ext4_io.c are proved to have. */
module Device {
  import opened Bytes
  import opened Arithmetic

  /** An image file: its bytes, and the positions whose transfer the kernel refuses with an I/O error. */
  datatype Device = Device(bytes: seq<byte>, faulty: set<nat>)

  predicate Readable(dev: Device, offset: nat, size: nat) {
    offset + size <= |dev.bytes| && forall p | offset <= p < offset + size :: p !in dev.faulty
  }

  predicate OffsetRequestValid(offset: nat, size: nat) {
    size <= LLONG_MAX && offset <= LLONG_MAX && size <= LLONG_MAX - offset
  }

  function ReadAt(dev: Device, offset: nat, size: nat): (r: Option<seq<byte>>)
    ensures r.Some? ==> |r.value| == size
    ensures r.Some? && size > 0 ==> Readable(dev, offset, size) && r.value == dev.bytes[offset..offset + size]
  {
    if !OffsetRequestValid(offset, size) then None
    else if size == 0 then Some([])
    else if Readable(dev, offset, size) then Some(dev.bytes[offset..offset + size])
    else None
  }

  /** `read_block`: the guards of `validate_block_request`, the wrapping product, then the exact read. */
  function ReadBlock(dev: Device, blockSize: nat, index: nat): (r: Option<seq<byte>>)
    ensures r.Some? ==> |r.value| == blockSize
  {
    if blockSize == 0 || blockSize > LLONG_MAX then None
    else if index > (LLONG_MAX - (blockSize - 1)) / blockSize then None
    else
      var offset := Wrap64(index * blockSize);
      if offset / blockSize != index then None else ReadAt(dev, offset, blockSize)
  }

  /** The guards never wrap and never turn away a block whose bytes could be read. */
  lemma ReadBlockIsReadAt(dev: Device, blockSize: nat, index: nat)
    requires blockSize > 0
    ensures ReadBlock(dev, blockSize, index) == ReadAt(dev, index * blockSize, blockSize)
  {
    if blockSize <= LLONG_MAX {
      QuotientBound(LLONG_MAX - (blockSize - 1), blockSize, index);
      DivOfProduct(index, blockSize);
    } else if index > 0 {
      MulMonotone(1, index, blockSize);
    }
  }
}
