/** Bytes, fixed-width unsigned arithmetic and the little-endian readers of ext4_super.c. */
module Bytes {
  type byte = x: int | 0 <= x < 256

  datatype Option<+T> = None | Some(value: T)

  const U16: int := 0x1_0000
  const U32: int := 0x1_0000_0000
  const U64: int := 0x1_0000_0000_0000_0000
  const U32_MAX: int := U32 - 1
  const U64_MAX: int := U64 - 1
  const LLONG_MAX: int := 0x7FFF_FFFF_FFFF_FFFF

  function Zeros(n: nat): (r: seq<byte>)
    ensures |r| == n
  {
    seq(n, _ => 0)
  }

  /** The value a `uint64_t` holds after an operation whose exact result is `x`. */
  function Wrap64(x: int): (r: nat)
    ensures r < U64
    ensures 0 <= x < U64 ==> r == x
  {
    x % U64
  }

  function Le16(b: seq<byte>, o: nat): (r: nat)
    requires o + 2 <= |b|
    ensures r < U16
  {
    b[o] as int + 0x100 * (b[o + 1] as int)
  }

  function Le32(b: seq<byte>, o: nat): (r: nat)
    requires o + 4 <= |b|
    ensures r < U32
  {
    Le16(b, o) + 0x1_0000 * Le16(b, o + 2)
  }

  /** The readers put the byte at the lowest offset in the lowest place. */
  lemma LittleEndian(b: seq<byte>, o: nat)
    requires o + 4 <= |b|
    ensures Le16(b, o) == b[o] as int + 0x100 * b[o + 1] as int
    ensures Le32(b, o) ==
            b[o] as int + 0x100 * b[o + 1] as int + 0x1_0000 * b[o + 2] as int + 0x100_0000 * b[o + 3] as int
  {
  }

  /** The bytes a little-endian store of `v` leaves behind. */
  function Put16(v: nat): (r: seq<byte>)
    requires v < U16
    ensures |r| == 2
  {
    [v % 0x100, v / 0x100]
  }

  function Put32(v: nat): (r: seq<byte>)
    requires v < U32
    ensures |r| == 4
  {
    Put16(v % 0x1_0000) + Put16(v / 0x1_0000)
  }

  lemma Le16Put(b: seq<byte>, o: nat, v: nat)
    requires v < U16 && o + 2 <= |b| && b[o..o + 2] == Put16(v)
    ensures Le16(b, o) == v
  {
    assert b[o] == b[o..o + 2][0] && b[o + 1] == b[o..o + 2][1];
  }

  lemma Le32Put(b: seq<byte>, o: nat, v: nat)
    requires v < U32 && o + 4 <= |b| && b[o..o + 4] == Put32(v)
    ensures Le32(b, o) == v
  {
    assert b[o..o + 2] == Put32(v)[..2] && b[o + 2..o + 4] == Put32(v)[2..];
    Le16Put(b, o, v % 0x1_0000);
    Le16Put(b, o + 2, v / 0x1_0000);
  }

  lemma Put16Le(b: seq<byte>, o: nat)
    requires o + 2 <= |b|
    ensures Put16(Le16(b, o)) == b[o..o + 2]
  {
    var v := Le16(b, o);
    assert v % 0x100 == b[o] && v / 0x100 == b[o + 1];
  }

  lemma Put32Le(b: seq<byte>, o: nat)
    requires o + 4 <= |b|
    ensures Put32(Le32(b, o)) == b[o..o + 4]
  {
    Put16Le(b, o);
    Put16Le(b, o + 2);
    var lo, hi := Le16(b, o), Le16(b, o + 2);
    assert Le32(b, o) % 0x1_0000 == lo && Le32(b, o) / 0x1_0000 == hi;
    assert b[o..o + 4] == b[o..o + 2] + b[o + 2..o + 4];
  }
}
