/** The CRC-32C register of ext4_backup.c (section 12.1 of RFC 3720) and what it detects. */
module Crc {
  import opened Bytes
  import opened Arithmetic

  /** A `uint32_t` as its 32 bits, least significant first. */
  type Register = r: seq<bool> | |r| == 32 witness Falses(32)

  function Falses(n: nat): (r: seq<bool>)
    ensures |r| == n && forall i | 0 <= i < n :: !r[i]
  {
    if n == 0 then [] else [false] + Falses(n - 1)
  }

  function ToBits(n: nat, width: nat): (r: seq<bool>)
    ensures |r| == width
  {
    if width == 0 then [] else [n % 2 == 1] + ToBits(n / 2, width - 1)
  }

  function Word(n: nat): Register {
    ToBits(n, 32)
  }

  function Polynomial(): Register {
    Word(0x82F6_3B78)
  }

  function Zero(): Register {
    Falses(32)
  }

  function Xor(a: Register, b: Register): Register {
    seq(32, i requires 0 <= i < 32 => a[i] != b[i])
  }

  function Complement(a: Register): Register {
    seq(32, i requires 0 <= i < 32 => !a[i])
  }

  function ShiftRight(a: Register): Register {
    a[1..] + [false]
  }

  /** One turn of the bit loop. */
  function Step(crc: Register): Register {
    if crc[0] then Xor(ShiftRight(crc), Polynomial()) else ShiftRight(crc)
  }

  function Steps(k: nat, crc: Register): Register {
    if k == 0 then crc else Steps(k - 1, Step(crc))
  }

  function Feed(crc: Register, b: byte): Register {
    Steps(8, Xor(crc, Word(b)))
  }

  function FeedAll(crc: Register, data: seq<byte>): Register {
    if data == [] then crc else Feed(FeedAll(crc, data[..|data| - 1]), data[|data| - 1])
  }

  /** The value of `crc32c_update`. */
  function Update(crc: Register, data: seq<byte>): Register {
    Complement(FeedAll(Complement(crc), data))
  }

  /** The bit loop for one byte. */
  method FeedByte(before: Register, b: byte) returns (crc: Register)
    ensures crc == Feed(before, b)
  {
    hide Xor, ShiftRight, Word, Polynomial;
    crc := Xor(before, Word(b));
    for bit := 0 to 8
      invariant Steps(8 - bit, crc) == Feed(before, b)
    {
      if crc[0] {
        crc := Xor(ShiftRight(crc), Polynomial());
      } else {
        crc := ShiftRight(crc);
      }
    }
  }

  /** `crc32c_update`. */
  method Crc32cUpdate(initial: Register, data: seq<byte>) returns (crc: Register)
    ensures crc == Update(initial, data)
  {
    hide Feed, Complement;
    crc := Complement(initial);
    for i := 0 to |data|
      invariant crc == FeedAll(Complement(initial), data[..i])
    {
      crc := FeedByte(crc, data[i]);
      assert data[..i + 1][..i] == data[..i];
    }
    assert data[..|data|] == data;
    return Complement(crc);
  }

  // Linearity: the difference of two registers evolves by the same steps.

  lemma StepAt(c: Register, i: nat)
    requires i < 32
    ensures Step(c)[i] == ((i < 31 && c[i + 1]) != (c[0] && Polynomial()[i]))
  {
  }

  lemma StepXor(a: Register, b: Register)
    ensures Step(Xor(a, b)) == Xor(Step(a), Step(b))
  {
    hide Step;
    var l, r := Step(Xor(a, b)), Xor(Step(a), Step(b));
    forall i | 0 <= i < 32
      ensures l[i] == r[i]
    {
      StepAt(a, i);
      StepAt(b, i);
      StepAt(Xor(a, b), i);
    }
  }

  lemma {:induction false} StepsXor(k: nat, a: Register, b: Register)
    ensures Steps(k, Xor(a, b)) == Xor(Steps(k, a), Steps(k, b))
  {
    hide Step, Xor;
    if k > 0 {
      StepXor(a, b);
      StepsXor(k - 1, Step(a), Step(b));
    }
  }

  lemma {:induction false} StepsAdd(j: nat, k: nat, c: Register)
    ensures Steps(j + k, c) == Steps(k, Steps(j, c))
    decreases j
  {
    hide Step;
    if j > 0 {
      StepsAdd(j - 1, k, Step(c));
    }
  }

  // A step loses nothing: the top bit of the polynomial records the bit shifted out.

  lemma {:induction false} TopBitSet(n: nat, width: nat)
    requires width > 0 && Pow(2, width - 1) <= n < Pow(2, width)
    ensures ToBits(n, width)[width - 1]
  {
    if width > 1 {
      TopBitSet(n / 2, width - 1);
    }
  }

  lemma PolynomialTop()
    ensures Polynomial()[31]
  {
    PowersOfTwo();
    TopBitSet(0x82F6_3B78, 32);
  }

  lemma StepInjective(a: Register, b: Register)
    requires Step(a) == Step(b)
    ensures a == b
  {
    PolynomialTop();
    hide Step, Word, Polynomial;
    StepAt(a, 31);
    StepAt(b, 31);
    forall i | 0 < i < 32
      ensures a[i] == b[i]
    {
      StepAt(a, i - 1);
      StepAt(b, i - 1);
    }
  }

  lemma {:induction false} StepsInjective(k: nat, a: Register, b: Register)
    requires Steps(k, a) == Steps(k, b)
    ensures a == b
  {
    hide Step;
    if k > 0 {
      StepsInjective(k - 1, Step(a), Step(b));
      StepInjective(a, b);
    }
  }

  lemma {:induction false} StepsOfZero(k: nat)
    ensures Steps(k, Zero()) == Zero()
  {
    hide Step;
    if k > 0 {
      StepOfZero();
      StepsOfZero(k - 1);
    }
  }

  lemma StepOfZero()
    ensures Step(Zero()) == Zero()
  {
    hide Polynomial;
  }

  // Laws of the bitwise sum.

  lemma XorCommutes(a: Register, b: Register)
    ensures Xor(a, b) == Xor(b, a)
  {
  }

  lemma XorZero(a: Register)
    ensures Xor(a, Zero()) == a && Xor(a, a) == Zero()
  {
  }

  lemma XorEqual(a: Register, b: Register)
    ensures Xor(a, b) == Zero() <==> a == b
  {
    if Xor(a, b) == Zero() {
      forall i | 0 <= i < 32
        ensures a[i] == b[i]
      {
        assert !Xor(a, b)[i];
      }
    }
  }

  lemma Exchange(a: Register, b: Register, x: Register, y: Register)
    ensures Xor(Xor(a, x), Xor(b, y)) == Xor(Xor(a, b), Xor(x, y))
  {
  }

  lemma ComplementEqual(a: Register, b: Register)
    ensures Complement(a) == Complement(b) <==> a == b
  {
    if Complement(a) == Complement(b) {
      forall i | 0 <= i < 32
        ensures a[i] == b[i]
      {
        assert Complement(a)[i] == Complement(b)[i];
      }
    }
  }

  // The same register, fed bit by bit.

  /** The bits of a byte string in the order the register takes them in: lowest bit of each byte first. */
  function Bits(data: seq<byte>): (r: seq<bool>)
    ensures |r| == 8 * |data|
  {
    if data == [] then [] else Bits(data[..|data| - 1]) + ToBits(data[|data| - 1], 8)
  }

  /** Up to 32 bits as a register. */
  function Pad(w: seq<bool>): Register
    requires |w| <= 32
  {
    w + Falses(32 - |w|)
  }

  function FeedBits(crc: Register, w: seq<bool>): Register {
    if w == [] then crc else Step(Xor(FeedBits(crc, w[..|w| - 1]), Pad([w[|w| - 1]])))
  }

  /** `e` moved up by `k` bits; the bits pushed past the top are lost. */
  function ShiftLeft(e: Register, k: nat): Register
    requires k <= 32
  {
    Falses(k) + e[..32 - k]
  }

  lemma ShiftAt(e: Register, k: nat, q: nat)
    requires k <= 32 && q < 32
    ensures ShiftLeft(e, k)[q] == (q >= k && e[q - k])
  {
  }

  lemma ShiftedStep(e: Register, k: nat)
    requires 1 <= k <= 32 && !e[32 - k]
    ensures Step(ShiftLeft(e, k)) == ShiftLeft(e, k - 1)
  {
    hide ShiftLeft, Step;
    ShiftAt(e, k, 0);
    var c, d := ShiftLeft(e, k), ShiftLeft(e, k - 1);
    forall i | 0 <= i < 32
      ensures Step(c)[i] == d[i]
    {
      StepAt(c, i);
      ShiftAt(e, k - 1, i);
      if i < 31 {
        ShiftAt(e, k, i + 1);
      }
    }
  }

  lemma {:induction false} ShiftedOut(e: Register, k: nat)
    requires k <= 32 && forall i | 32 - k <= i < 32 :: !e[i]
    ensures Steps(k, ShiftLeft(e, k)) == e
  {
    if k == 0 {
      assert ShiftLeft(e, 0) == e;
    } else {
      ShiftedStep(e, k);
      ShiftedOut(e, k - 1);
    }
  }

  lemma PadOneMore(w: seq<bool>, b: bool)
    requires |w| < 32
    ensures Pad(w + [b]) == Xor(Pad(w), ShiftLeft(Pad([b]), |w|))
  {
    hide ShiftLeft;
    forall i | 0 <= i < 32
      ensures Pad(w + [b])[i] == Xor(Pad(w), ShiftLeft(Pad([b]), |w|))[i]
    {
      ShiftAt(Pad([b]), |w|, i);
    }
  }

  lemma XorAssociates(a: Register, b: Register, c: Register)
    ensures Xor(Xor(a, b), c) == Xor(a, Xor(b, c))
  {
  }

  /** Feeding up to 32 bits is adding them all at once and then stepping as often. */
  lemma {:induction false} FeedAtOnce(crc: Register, w: seq<bool>)
    requires |w| <= 32
    ensures FeedBits(crc, w) == Steps(|w|, Xor(crc, Pad(w)))
  {
    hide Step, Xor, ShiftLeft, Pad;
    if w == [] {
      PadNothing(crc);
    } else {
      var n := |w| - 1;
      var init, b := w[..n], w[n];
      assert w == init + [b];
      FeedAtOnce(crc, init);
      PadBit(b);
      ShiftedOut(Pad([b]), n);
      StepsXor(n, Xor(crc, Pad(init)), ShiftLeft(Pad([b]), n));
      XorAssociates(crc, Pad(init), ShiftLeft(Pad([b]), n));
      PadOneMore(init, b);
      StepsAdd(n, 1, Xor(crc, Pad(w)));
      OneStep(Steps(n, Xor(crc, Pad(w))));
    }
  }

  lemma OneStep(c: Register)
    ensures Steps(1, c) == Step(c)
  {
    hide Step;
    assert Steps(0, Step(c)) == Step(c);
  }

  lemma PadNothing(crc: Register)
    ensures Xor(crc, Pad([])) == crc
  {
  }

  lemma PadBit(b: bool)
    ensures Pad([b])[0] == b && forall i | 1 <= i < 32 :: !Pad([b])[i]
  {
  }

  /** The low byte of a register holds a byte; the rest is clear. */
  lemma PadByte(b: byte)
    ensures Word(b) == Pad(ToBits(b, 8))
  {
    hide ToBits;
    PrependByte(b, 0, 24);
    ZeroBits(24);
  }

  lemma {:induction false} SplitBits(a: nat, b: nat, k: nat, width: nat)
    requires a < Pow(2, k)
    ensures ToBits(a + Pow(2, k) * b, k + width) == ToBits(a, k) + ToBits(b, width)
    decreases k
  {
    if k == 0 {
      assert a + Pow(2, k) * b == b;
    } else {
      var n, rest := a + Pow(2, k) * b, Pow(2, k - 1) * b;
      assert Pow(2, k) * b == 2 * rest;
      assert n / 2 == a / 2 + rest && n % 2 == a % 2;
      SplitBits(a / 2, b, k - 1, width);
    }
  }

  /** The low byte of a number, then the rest. */
  lemma PrependByte(b: byte, rest: nat, width: nat)
    ensures ToBits(b as int + 0x100 * rest, 8 + width) == ToBits(b, 8) + ToBits(rest, width)
  {
    PowersOfTwo();
    SplitBits(b, rest, 8, width);
  }

  lemma {:induction false} ZeroBits(width: nat)
    ensures ToBits(0, width) == Falses(width)
  {
    if width > 0 {
      ZeroBits(width - 1);
    }
  }

  /** The byte loop of the source is feeding all bits in order. */
  lemma {:induction false} FeedAllIsFeedBits(crc: Register, data: seq<byte>)
    ensures FeedAll(crc, data) == FeedBits(crc, Bits(data))
  {
    hide Steps, Xor, Word, ToBits, Step, Pad;
    if data != [] {
      var n := |data| - 1;
      FeedAllIsFeedBits(crc, data[..n]);
      PadByte(data[n]);
      FeedAtOnce(FeedAll(crc, data[..n]), ToBits(data[n], 8));
      FeedBitsAppend(crc, Bits(data[..n]), ToBits(data[n], 8));
    }
  }

  lemma {:induction false} FeedBitsAppend(crc: Register, u: seq<bool>, w: seq<bool>)
    ensures FeedBits(crc, u + w) == FeedBits(FeedBits(crc, u), w)
    decreases w
  {
    hide Step, Xor, Pad;
    if w == [] {
      assert u + w == u;
    } else {
      assert (u + w)[..|u + w| - 1] == u + w[..|w| - 1];
      FeedBitsAppend(crc, u, w[..|w| - 1]);
    }
  }

  lemma {:induction false} BitsAppend(x: seq<byte>, y: seq<byte>)
    ensures Bits(x + y) == Bits(x) + Bits(y)
    decreases y
  {
    hide ToBits;
    if y == [] {
      assert x + y == x;
    } else {
      assert (x + y)[..|x + y| - 1] == x + y[..|y| - 1];
      BitsAppend(x, y[..|y| - 1]);
    }
  }

  // Two strings leave registers that differ by what feeding their differences leaves.

  function Differences(u: seq<bool>, w: seq<bool>): (r: seq<bool>)
    requires |u| == |w|
    ensures |r| == |u|
  {
    seq(|u|, i requires 0 <= i < |u| => u[i] != w[i])
  }

  lemma DifferencesButLast(u: seq<bool>, w: seq<bool>)
    requires |u| == |w| > 0
    ensures var n := |u| - 1;
            Differences(u, w)[..n] == Differences(u[..n], w[..n]) && Differences(u, w)[n] == (u[n] != w[n])
  {
  }

  lemma {:induction false} FeedDifferences(a: Register, b: Register, u: seq<bool>, w: seq<bool>)
    requires |u| == |w|
    ensures Xor(FeedBits(a, u), FeedBits(b, w)) == FeedBits(Xor(a, b), Differences(u, w))
  {
    if u != [] {
      hide Xor, Step, Pad;
      var n := |u| - 1;
      FeedDifferences(a, b, u[..n], w[..n]);
      DifferencesButLast(u, w);
      hide Differences;
      var c, d := FeedBits(a, u[..n]), FeedBits(b, w[..n]);
      StepXor(Xor(c, Pad([u[n]])), Xor(d, Pad([w[n]])));
      Exchange(c, d, Pad([u[n]]), Pad([w[n]]));
      PadDifference(u[n], w[n]);
    }
  }

  lemma PadDifference(b: bool, c: bool)
    ensures Xor(Pad([b]), Pad([c])) == Pad([b != c])
  {
  }

  /** Strings of equal length have equal checksums exactly when feeding their differences leaves nothing. */
  lemma EqualChecksums(initial: Register, x: seq<byte>, y: seq<byte>)
    requires |x| == |y|
    ensures Update(initial, x) == Update(initial, y) <==>
            FeedBits(Zero(), Differences(Bits(x), Bits(y))) == Zero()
  {
    hide Xor, Complement, FeedAll, FeedBits, Bits, Differences;
    var start := Complement(initial);
    FeedAllIsFeedBits(start, x);
    FeedAllIsFeedBits(start, y);
    FeedDifferences(start, start, Bits(x), Bits(y));
    XorZero(start);
    XorEqual(FeedAll(start, x), FeedAll(start, y));
    ComplementEqual(FeedAll(start, x), FeedAll(start, y));
  }

  /** Equal bits on both sides neither create nor remove a difference. */
  lemma {:induction false} FeedEqual(c: Register, n: nat)
    ensures FeedBits(c, Falses(n)) == Zero() <==> c == Zero()
  {
    if n > 0 {
      hide Step, Xor, Pad;
      var rest := FeedBits(c, Falses(n - 1));
      FeedEqual(c, n - 1);
      assert Falses(n)[..n - 1] == Falses(n - 1);
      PadFalse();
      XorZero(rest);
      StepsOfZero(1);
      OneStep(Zero());
      if Step(rest) == Zero() {
        StepInjective(rest, Zero());
      }
    }
  }

  lemma PadFalse()
    ensures Pad([false]) == Zero()
  {
  }

  /** Whatever surrounds a window, the differences in it decide. */
  lemma WindowDecides(before: nat, w: seq<bool>, after: nat)
    ensures FeedBits(Zero(), Falses(before) + w + Falses(after)) == Zero() <==> FeedBits(Zero(), w) == Zero()
  {
    hide FeedBits;
    FeedBitsAppend(Zero(), Falses(before) + w, Falses(after));
    FeedBitsAppend(Zero(), Falses(before), w);
    FeedEqual(Zero(), before);
    FeedEqual(FeedBits(FeedBits(Zero(), Falses(before)), w), after);
  }

  /** A window of at most 32 differences leaves nothing only if it holds none. */
  lemma WindowDetected(w: seq<bool>)
    requires |w| <= 32 && FeedBits(Zero(), w) == Zero()
    ensures forall i | 0 <= i < |w| :: !w[i]
  {
    hide Xor, Steps, FeedBits;
    FeedAtOnce(Zero(), w);
    XorCommutes(Zero(), Pad(w));
    XorZero(Pad(w));
    StepsOfZero(|w|);
    StepsInjective(|w|, Pad(w), Zero());
    assert forall i | 0 <= i < |w| :: Pad(w)[i] == w[i];
  }

  // Bursts.

  /** The strings agree on every bit outside the `width` bits from `from` on. */
  ghost predicate SameOutside(x: seq<byte>, y: seq<byte>, from: nat, width: nat) {
    |x| == |y| && forall k | 0 <= k < 8 * |x| && !(from <= k < from + width) :: Bits(x)[k] == Bits(y)[k]
  }

  lemma {:induction false} ToBitsInjective(m: nat, n: nat, width: nat)
    requires m < Pow(2, width) && n < Pow(2, width) && ToBits(m, width) == ToBits(n, width)
    ensures m == n
  {
    if width > 0 {
      var a, b := ToBits(m, width), ToBits(n, width);
      assert a[0] == b[0] && a[1..] == b[1..];
      ToBitsInjective(m / 2, n / 2, width - 1);
    }
  }

  lemma {:induction false} BitsInjective(x: seq<byte>, y: seq<byte>)
    requires |x| == |y| && Bits(x) == Bits(y)
    ensures x == y
  {
    hide ToBits;
    if x != [] {
      var n := |x| - 1;
      assert Bits(x)[..8 * n] == Bits(x[..n]) && Bits(y)[..8 * n] == Bits(y[..n]);
      assert Bits(x)[8 * n..] == ToBits(x[n], 8) && Bits(y)[8 * n..] == ToBits(y[n], 8);
      BitsInjective(x[..n], y[..n]);
      PowersOfTwo();
      ToBitsInjective(x[n], y[n], 8);
      assert x == x[..n] + [x[n]] && y == y[..n] + [y[n]];
    }
  }

  lemma Surroundings(x: seq<byte>, y: seq<byte>, from: nat, to: nat)
    requires |x| == |y| && from <= to <= 8 * |x| && SameOutside(x, y, from, to - from)
    ensures var d := Differences(Bits(x), Bits(y));
            d == Falses(from) + d[from..to] + Falses(8 * |x| - to)
  {
    hide Bits;
  }

  /** Every change confined to 32 consecutive bits, at any alignment, changes the checksum. */
  lemma BurstDetected(initial: Register, x: seq<byte>, y: seq<byte>, from: nat)
    requires SameOutside(x, y, from, 32) && x != y
    ensures Update(initial, x) != Update(initial, y)
  {
    hide Update, FeedBits, Bits;
    var total := 8 * |x|;
    var a := if from < total then from else total;
    var b := if from + 32 < total then from + 32 else total;
    var d := Differences(Bits(x), Bits(y));
    EqualChecksums(initial, x, y);
    Surroundings(x, y, a, b);
    WindowDecides(a, d[a..b], total - b);
    if FeedBits(Zero(), d) == Zero() {
      WindowDetected(d[a..b]);
      forall k | 0 <= k < total
        ensures Bits(x)[k] == Bits(y)[k]
      {
        if a <= k < b {
          assert !d[a..b][k - a];
        }
      }
      BitsInjective(x, y);
    }
  }

  /** Strings that agree outside four consecutive bytes agree outside the 32 bits of those bytes. */
  lemma FourBytesAre32Bits(x: seq<byte>, y: seq<byte>, i: nat)
    requires |x| == |y| && i + 4 <= |x| && x[..i] == y[..i] && x[i + 4..] == y[i + 4..]
    ensures SameOutside(x, y, 8 * i, 32)
  {
    hide Bits;
    assert x == x[..i] + x[i..i + 4] + x[i + 4..] && y == y[..i] + y[i..i + 4] + y[i + 4..];
    BitsAppend(x[..i] + x[i..i + 4], x[i + 4..]);
    BitsAppend(x[..i], x[i..i + 4]);
    BitsAppend(y[..i] + y[i..i + 4], y[i + 4..]);
    BitsAppend(y[..i], y[i..i + 4]);
  }

  /** Replacing what follows by something common keeps agreement outside a window. */
  lemma CommonTail(x: seq<byte>, y: seq<byte>, n: nat, t: seq<byte>, from: nat, width: nat)
    requires SameOutside(x, y, from, width) && n <= |x|
    ensures SameOutside(x[..n] + t, y[..n] + t, from, width)
  {
    hide Bits;
    assert x == x[..n] + x[n..] && y == y[..n] + y[n..];
    BitsAppend(x[..n], x[n..]);
    BitsAppend(y[..n], y[n..]);
    BitsAppend(x[..n], t);
    BitsAppend(y[..n], t);
    forall k | 0 <= k < 8 * n && !(from <= k < from + width)
      ensures Bits(x[..n])[k] == Bits(y[..n])[k]
    {
      assert Bits(x)[k] == Bits(y)[k];
    }
  }

  // 32 bits are the most that can be promised: the polynomial spans 33.

  /** The 33 coefficients of the polynomial, highest power first. */
  function Coefficients(): seq<bool> {
    [true] + Polynomial()
  }

  /** Of all 33-bit patterns only that of the polynomial, and no change at all, leave nothing. */
  lemma OnlyThePolynomial(w: seq<bool>)
    requires |w| == 33
    ensures FeedBits(Zero(), w) == Zero() <==> w == Falses(33) || w == Coefficients()
  {
    hide Steps, Step, Polynomial, FeedBits, Coefficients, Falses, Word;
    var h, top := w[..32], [true] + Polynomial()[..31];
    LastBit(h, w[32]);
    PolynomialDrift();
    StepsOfZero(32);
    SameSteps(h, top);
    SameSteps(h, Zero());
    SplitLast(w, top, true);
    SplitLast(w, Zero(), false);
    CoefficientsSplit();
  }

  lemma SplitLast(w: seq<bool>, h: Register, b: bool)
    requires |w| == 33
    ensures w == w[..32] + [w[32]]
    ensures w == h + [b] <==> w[..32] == h && w[32] == b
  {
    if w == h + [b] {
      assert w[..32] == (h + [b])[..32] == h && w[32] == (h + [b])[32] == b;
    }
  }

  lemma CoefficientsSplit()
    ensures Coefficients() == [true] + Polynomial()[..31] + [true]
    ensures Falses(33) == Zero() + [false]
  {
    hide Polynomial;
    PolynomialTop();
    assert Polynomial() == Polynomial()[..31] + [true];
  }

  lemma SameSteps(a: Register, b: Register)
    ensures Steps(32, a) == Steps(32, b) <==> a == b
  {
    hide Steps;
    if Steps(32, a) == Steps(32, b) {
      StepsInjective(32, a, b);
    }
  }

  lemma LastBit(h: Register, b: bool)
    ensures FeedBits(Zero(), h + [b]) == Zero() <==> Steps(32, h) == if b then Word(1) else Zero()
  {
    hide Step, Steps, Xor, Pad, Word;
    FeedAtOnce(Zero(), h);
    PadFull(h);
    XorCommutes(Zero(), h);
    XorZero(h);
    assert (h + [b])[..32] == h;
    LastStep(Steps(32, h), b);
    OneWord();
  }

  lemma PadFull(h: Register)
    ensures Pad(h) == h
  {
  }

  lemma OneWord()
    ensures Pad([true]) == Word(1) && Pad([false]) == Zero()
  {
    hide Word;
    WordOne();
  }

  lemma LastStep(c: Register, b: bool)
    ensures Step(Xor(c, Pad([b]))) == Zero() <==> c == Pad([b])
  {
    hide Step, Xor, Pad;
    XorEqual(c, Pad([b]));
    StepsOfZero(1);
    OneStep(Zero());
    if Step(Xor(c, Pad([b]))) == Zero() {
      StepInjective(Xor(c, Pad([b])), Zero());
    }
  }

  /**
   * A change confined to 33 consecutive bits goes unnoticed exactly when the bits that change are
   * those of the polynomial.
   */
  lemma BurstUndetected(initial: Register, x: seq<byte>, y: seq<byte>, from: nat)
    requires SameOutside(x, y, from, 33) && from + 33 <= 8 * |x|
    ensures Update(initial, x) == Update(initial, y) <==>
            x == y || Differences(Bits(x), Bits(y))[from..from + 33] == Coefficients()
  {
    hide Update, FeedBits, Bits, Coefficients;
    var d := Differences(Bits(x), Bits(y));
    var w := d[from..from + 33];
    EqualChecksums(initial, x, y);
    Surroundings(x, y, from, from + 33);
    WindowDecides(from, w, 8 * |x| - (from + 33));
    OnlyThePolynomial(w);
    if w == Falses(33) {
      forall k | 0 <= k < 8 * |x|
        ensures Bits(x)[k] == Bits(y)[k]
      {
        if from <= k < from + 33 {
          assert !w[k - from];
        }
      }
      BitsInjective(x, y);
    }
    if x == y {
      assert w == Falses(33);
    }
  }

  /** The 33 coefficients of the polynomial, highest power first, byte by byte. */
  lemma PolynomialBytes()
    ensures Coefficients() ==
            ToBits(0xF1, 8) + (ToBits(0x76, 8) + (ToBits(0xEC, 8) + (ToBits(0x05, 8) + ToBits(0x01, 1))))
  {
    hide ToBits;
    OddBits(0x82F6_3B78, 32);
    ByteByByte(0xF1, 0x0105_EC76, 0x76, 0x0001_05EC, 0xEC, 0x0105, 0x05, 0x01);
  }

  lemma OddBits(n: nat, width: nat)
    ensures ToBits(2 * n + 1, width + 1) == [true] + ToBits(n, width)
  {
    assert (2 * n + 1) % 2 == 1 && (2 * n + 1) / 2 == n;
    assert ToBits(2 * n + 1, width + 1) == [true] + ToBits((2 * n + 1) / 2, width);
  }

  lemma ByteByByte(b0: byte, n1: nat, b1: byte, n2: nat, b2: byte, n3: nat, b3: byte, n4: nat)
    requires n1 == b1 as int + 0x100 * n2 && n2 == b2 as int + 0x100 * n3 && n3 == b3 as int + 0x100 * n4
    ensures ToBits(b0 as int + 0x100 * n1, 33) ==
            ToBits(b0, 8) + (ToBits(b1, 8) + (ToBits(b2, 8) + (ToBits(b3, 8) + ToBits(n4, 1))))
  {
    hide ToBits;
    PrependByte(b0, n1, 25);
    PrependByte(b1, n2, 17);
    PrependByte(b2, n3, 9);
    PrependByte(b3, n4, 1);
  }

  /** Those 32 bits leave just the last one behind. */
  lemma PolynomialDrift()
    ensures Steps(32, [true] + Polynomial()[..31]) == Word(1)
  {
    hide Polynomial, Word, Step, ShiftLeft;
    PolynomialTop();
    WordOne();
    var top, one := [true] + Polynomial()[..31], Word(1);
    forall i | 0 <= i < 32
      ensures Step(top)[i] == ShiftLeft(one, 31)[i]
    {
      StepAt(top, i);
      ShiftAt(one, 31, i);
    }
    assert Step(top) == ShiftLeft(one, 31);
    ShiftedOut(one, 31);
  }

  lemma WordOne()
    ensures Word(1)[0] && forall i | 1 <= i < 32 :: !Word(1)[i]
  {
    ZeroBits(31);
    assert Word(1) == [true] + ToBits(0, 31);
  }

  lemma {:induction false} ZeroBytes(n: nat)
    ensures Bits(Zeros(n)) == Falses(8 * n)
  {
    if n > 0 {
      ZeroBytes(n - 1);
      ZeroBits(8);
      assert Zeros(n)[..n - 1] == Zeros(n - 1);
    }
  }

  lemma FiveBytes(a: byte, b: byte, c: byte, d: byte, e: byte)
    ensures Bits([a, b, c, d, e]) == ToBits(a, 8) + (ToBits(b, 8) + (ToBits(c, 8) + (ToBits(d, 8) + ToBits(e, 8))))
  {
    hide ToBits, Bits;
    OneByte(a);
    OneByte(b);
    OneByte(c);
    OneByte(d);
    OneByte(e);
    assert [a, b, c, d, e] == [a] + ([b] + ([c] + ([d] + [e])));
    BitsAppend([a], [b] + ([c] + ([d] + [e])));
    BitsAppend([b], [c] + ([d] + [e]));
    BitsAppend([c], [d] + [e]);
    BitsAppend([d], [e]);
  }

  lemma OneByte(b: byte)
    ensures Bits([b]) == ToBits(b, 8)
  {
    hide ToBits;
    assert [b][..0] == [];
  }

  lemma {:induction false} OnlyMiddle(p: seq<bool>, w: seq<bool>, t: seq<bool>)
    ensures Differences(p + w + t, p + Falses(|w|) + t) == Falses(|p|) + w + Falses(|t|)
  {
  }

  /** The five bytes of the polynomial change any five zero bytes without changing the checksum. */
  lemma FiveBytesUndetected(initial: Register, p: seq<byte>, t: seq<byte>)
    ensures Update(initial, p + [0xF1, 0x76, 0xEC, 0x05, 0x01] + t) == Update(initial, p + Zeros(5) + t)
  {
    hide Update, FeedBits, Bits, ToBits, Polynomial, Differences;
    var five: seq<byte> := [0xF1, 0x76, 0xEC, 0x05, 0x01];
    BitsAppend(p + five, t);
    BitsAppend(p, five);
    BitsAppend(p + Zeros(5), t);
    BitsAppend(p, Zeros(5));
    ZeroBytes(5);
    OnlyMiddle(Bits(p), Bits(five), Bits(t));
    EqualChecksums(initial, p + five + t, p + Zeros(5) + t);
    PolynomialInBytes();
    OnlyThePolynomial(Coefficients());
    var rest := 7 + 8 * |t|;
    assert Falses(7) + Falses(8 * |t|) == Falses(rest);
    assert Falses(8 * |p|) + Bits(five) + Falses(8 * |t|) == Falses(8 * |p|) + Coefficients() + Falses(rest);
    WindowDecides(8 * |p|, Coefficients(), rest);
  }

  lemma PolynomialInBytes()
    ensures Bits([0xF1, 0x76, 0xEC, 0x05, 0x01]) == Coefficients() + Falses(7)
  {
    hide ToBits, Bits, Polynomial;
    PolynomialBytes();
    FiveBytes(0xF1, 0x76, 0xEC, 0x05, 0x01);
    ZeroBits(7);
    SplitBits(1, 0, 1, 7);
    assert ToBits(0x01, 8) == ToBits(0x01, 1) + Falses(7);
  }
}
