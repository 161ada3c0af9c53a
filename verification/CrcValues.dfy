/** That the register of ext4_backup.c computes CRC-32C: its laws and its published values. */
module CrcValues {
  import opened Bytes
  import opened Arithmetic
  import opened Crc

  // The register as a machine word.

  function Low(v: bv32): bool {
    v & 1 != 0
  }

  function Half(v: bv32): bv32 {
    v >> 1
  }

  function Mix(a: bv32, b: bv32): bv32 {
    a ^ b
  }

  function VectorBits(v: bv32, width: nat): (r: seq<bool>)
    ensures |r| == width
  {
    if width == 0 then [] else [Low(v)] + VectorBits(Half(v), width - 1)
  }

  function Vector(v: bv32): Register {
    VectorBits(v, 32)
  }

  /** One turn of the bit loop, as the source writes it. */
  function StepVector(v: bv32): bv32 {
    if Low(v) then Mix(Half(v), 0x82F6_3B78) else Half(v)
  }

  function Halve(v: bv32, k: nat): bv32 {
    if k == 0 then v else Halve(Half(v), k - 1)
  }

  lemma {:induction false} HalveAdd(v: bv32, j: nat, k: nat)
    ensures Halve(v, j + k) == Halve(Halve(v, j), k)
    decreases j
  {
    hide Half;
    if j > 0 {
      HalveAdd(Half(v), j - 1, k);
    }
  }

  lemma HalveTwo(v: bv32)
    ensures Halve(v, 1) == Half(v) && Halve(v, 2) == Half(Half(v))
  {
    hide Half;
    assert Halve(v, 2) == Halve(Half(v), 1);
  }

  function Nibble(v: bv32): bv32 {
    v >> 4
  }

  lemma FourShifts(v: bv32)
    ensures Half(Half(Half(Half(v)))) == Nibble(v)
  {
  }

  lemma HalveFour(v: bv32)
    ensures Halve(v, 4) == Nibble(v)
  {
    FourShifts(v);
    hide Half, Halve, Nibble;
    HalveAdd(v, 2, 2);
    HalveTwo(v);
    HalveTwo(Half(Half(v)));
  }

  lemma HalveEight(v: bv32)
    ensures Halve(v, 8) == Nibble(Nibble(v))
  {
    hide Halve, Nibble;
    HalveAdd(v, 4, 4);
    HalveFour(v);
    HalveFour(Nibble(v));
  }

  lemma EightNibbles(v: bv32)
    ensures Nibble(Nibble(Nibble(Nibble(Nibble(Nibble(Nibble(Nibble(v)))))))) == 0
  {
  }

  /** Nothing is left of a word after 32 halvings. */
  lemma HalveAway(v: bv32)
    ensures Halve(v, 32) == 0
  {
    EightNibbles(v);
    hide Halve, Nibble;
    var a := Nibble(Nibble(v));
    var b := Nibble(Nibble(a));
    var c := Nibble(Nibble(b));
    HalveEight(v);
    HalveEight(a);
    HalveEight(b);
    HalveEight(c);
    HalveAdd(v, 8, 24);
    HalveAdd(a, 8, 16);
    HalveAdd(b, 8, 8);
  }

  lemma NothingLeft(v: bv32)
    ensures !Low(Halve(Half(v), 31))
  {
    LowOfZero();
    hide Half, Halve, Low;
    HalveAway(v);
    HalveAdd(v, 1, 31);
    HalveTwo(v);
  }

  lemma LowOfZero()
    ensures !Low(0)
  {
  }

  lemma {:induction false} OneMoreBit(v: bv32, width: nat)
    ensures VectorBits(v, width + 1) == VectorBits(v, width) + [Low(Halve(v, width))]
    decreases width
  {
    hide Low, Half;
    if width > 0 {
      OneMoreBit(Half(v), width - 1);
    }
  }

  lemma ShiftVector(v: bv32)
    ensures ShiftRight(Vector(v)) == Vector(Half(v))
  {
    hide Low, Half, Halve;
    OneMoreBit(Half(v), 31);
    NothingLeft(v);
  }

  lemma MixShift(a: bv32, b: bv32)
    ensures Half(Mix(a, b)) == Mix(Half(a), Half(b)) && Low(Mix(a, b)) == (Low(a) != Low(b))
  {
  }

  lemma {:induction false} XorVectorBits(a: bv32, b: bv32, width: nat, i: nat)
    requires i < width
    ensures VectorBits(Mix(a, b), width)[i] == (VectorBits(a, width)[i] != VectorBits(b, width)[i])
    decreases width
  {
    MixShift(a, b);
    hide Low, Half, Mix;
    if i > 0 {
      XorVectorBits(Half(a), Half(b), width - 1, i - 1);
    }
  }

  lemma XorVectors(a: bv32, b: bv32)
    ensures Xor(Vector(a), Vector(b)) == Vector(Mix(a, b))
  {
    hide VectorBits, Mix;
    forall i | 0 <= i < 32
      ensures Xor(Vector(a), Vector(b))[i] == Vector(Mix(a, b))[i]
    {
      XorVectorBits(a, b, 32, i);
    }
  }

  /** The two ways to write down a word agree in the lowest four bits. */
  predicate SameNibble(v: bv32, n: nat) {
    && (v & 1 != 0) == (n % 2 == 1) && (v & 2 != 0) == (n / 2 % 2 == 1)
    && (v & 4 != 0) == (n / 4 % 2 == 1) && (v & 8 != 0) == (n / 8 % 2 == 1)
  }

  predicate SameNibbles(v: bv32, n: nat, k: nat) {
    k == 0 || (SameNibble(v, n) && SameNibbles(Nibble(v), n / 0x10, k - 1))
  }

  lemma TwoVectorBits(v: bv32, width: nat)
    ensures VectorBits(v, width + 2) == [Low(v), Low(Half(v))] + VectorBits(Half(Half(v)), width)
  {
    hide Low, Half;
    assert VectorBits(v, width + 2) == [Low(v)] + VectorBits(Half(v), width + 1);
  }

  lemma TwoNatBits(n: nat, width: nat)
    ensures ToBits(n, width + 2) == [n % 2 == 1, n / 2 % 2 == 1] + ToBits(n / 4, width)
  {
    assert n / 2 / 2 == n / 4;
    assert ToBits(n, width + 2) == [n % 2 == 1] + ToBits(n / 2, width + 1);
  }

  lemma NibbleOfVector(v: bv32)
    ensures Low(v) == (v & 1 != 0) && Low(Half(v)) == (v & 2 != 0)
    ensures Low(Half(Half(v))) == (v & 4 != 0) && Low(Half(Half(Half(v)))) == (v & 8 != 0)
  {
  }

  lemma NibbleBits(v: bv32, n: nat, width: nat)
    requires SameNibble(v, n) && VectorBits(Nibble(v), width) == ToBits(n / 0x10, width)
    ensures VectorBits(v, width + 4) == ToBits(n, width + 4)
  {
    FourShifts(v);
    NibbleOfVector(v);
    hide VectorBits, ToBits, Low, Half, Nibble;
    TwoVectorBits(v, width + 2);
    TwoVectorBits(Half(Half(v)), width);
    TwoNatBits(n, width + 2);
    TwoNatBits(n / 4, width);
    assert n / 4 / 2 == n / 8 && n / 4 / 4 == n / 0x10;
  }

  lemma {:induction false} NibblesBits(v: bv32, n: nat, k: nat)
    requires SameNibbles(v, n, k)
    ensures VectorBits(v, 4 * k) == ToBits(n, 4 * k)
    decreases k
  {
    hide SameNibble, Nibble, Low, Half;
    if k > 0 {
      NibblesBits(Nibble(v), n / 0x10, k - 1);
      NibbleBits(v, n, 4 * (k - 1));
    }
  }

  predicate SameByte(v: bv32, n: nat) {
    SameNibble(v, n) && SameNibble(Nibble(v), n / 0x10)
  }

  function Byte(v: bv32): bv32 {
    v >> 8
  }

  predicate SameWord(v: bv32, n: nat) {
    && SameByte(v, n) && SameByte(Byte(v), n / 0x100)
    && SameByte(Byte(Byte(v)), n / 0x1_0000) && SameByte(Byte(Byte(Byte(v))), n / 0x100_0000)
  }

  /** A word and a number agree if their bytes do, lowest first. */
  lemma SameByByte(v: bv32, n: nat, a: bv32, b: bv32, c: bv32, i: nat, j: nat, k: nat)
    requires a == Byte(v) && b == Byte(a) && c == Byte(b) && i == n / 0x100 && j == i / 0x100 && k == j / 0x100
    requires SameByte(v, n) && SameByte(a, i) && SameByte(b, j) && SameByte(c, k)
    ensures SameWord(v, n)
  {
    hide SameByte, Byte;
    assert n / 0x100 / 0x100 == n / 0x1_0000 && n / 0x1_0000 / 0x100 == n / 0x100_0000;
  }

  lemma ByteIs(v: bv32)
    ensures Byte(v) == Nibble(Nibble(v))
  {
  }

  lemma BytesNibbles(v: bv32, n: nat, k: nat)
    requires SameByte(v, n) && SameNibbles(Byte(v), n / 0x100, k)
    ensures SameNibbles(v, n, k + 2)
  {
    ByteIs(v);
    hide SameNibble, Nibble, Byte;
    assert n / 0x10 / 0x10 == n / 0x100;
    assert SameNibbles(Nibble(v), n / 0x10, k + 1);
  }

  lemma SameVector(v: bv32, n: nat)
    requires SameWord(v, n)
    ensures Vector(v) == Word(n)
  {
    hide SameByte, VectorBits, ToBits, Byte, Nibble;
    assert n / 0x100 / 0x100 == n / 0x1_0000 && n / 0x1_0000 / 0x100 == n / 0x100_0000;
    NoNibbles(Byte(Byte(Byte(Byte(v)))), n / 0x100_0000 / 0x100);
    hide SameNibbles;
    BytesNibbles(Byte(Byte(Byte(v))), n / 0x100_0000, 0);
    BytesNibbles(Byte(Byte(v)), n / 0x1_0000, 2);
    BytesNibbles(Byte(v), n / 0x100, 4);
    BytesNibbles(v, n, 6);
    NibblesBits(v, n, 8);
  }

  lemma NoNibbles(v: bv32, n: nat)
    ensures SameNibbles(v, n, 0)
  {
  }

  lemma PolynomialVector()
    ensures Polynomial() == Vector(0x82F6_3B78)
  {
    hide SameWord, Vector, Word;
    PolynomialWord();
    SameVector(0x82F6_3B78, 0x82F6_3B78);
  }

  lemma PolynomialWord()
    ensures SameWord(0x82F6_3B78, 0x82F6_3B78)
  {
    hide SameWord;
    SameByByte(0x82F6_3B78, 0x82F6_3B78, 0x82_F63B, 0x82F6, 0x82, 0x82_F63B, 0x82F6, 0x82);
  }

  lemma StepVectors(v: bv32)
    ensures Step(Vector(v)) == Vector(StepVector(v))
  {
    LowestBit(v);
    hide Vector, Polynomial, Xor, ShiftRight, Low, Half, Mix;
    PolynomialVector();
    ShiftVector(v);
    XorVectors(Half(v), 0x82F6_3B78);
  }

  lemma LowestBit(v: bv32)
    ensures Vector(v)[0] == Low(v)
  {
    hide Low, Half;
  }

  /** Eight turns of the bit loop. */
  function EightSteps(v: bv32): bv32 {
    var a := StepVector(StepVector(v));
    var b := StepVector(StepVector(a));
    var c := StepVector(StepVector(b));
    StepVector(StepVector(c))
  }

  lemma EightVectors(v: bv32)
    ensures Steps(8, Vector(v)) == Vector(EightSteps(v))
  {
    hide Step, StepVector, Vector;
    var a := StepVector(StepVector(v));
    var b := StepVector(StepVector(a));
    var c := StepVector(StepVector(b));
    TwoVectors(v);
    TwoVectors(a);
    TwoVectors(b);
    TwoVectors(c);
    StepsAdd(2, 6, Vector(v));
    StepsAdd(2, 4, Vector(a));
    StepsAdd(2, 2, Vector(b));
  }

  lemma TwoVectors(v: bv32)
    ensures Steps(2, Vector(v)) == Vector(StepVector(StepVector(v)))
  {
    hide Step, StepVector, Vector;
    StepVectors(v);
    StepVectors(StepVector(v));
    assert Steps(2, Vector(v)) == Steps(1, Step(Vector(v))) == Step(Step(Vector(v)));
  }

  // Laws.

  lemma ComplementTwice(c: Register)
    ensures Complement(Complement(c)) == c
  {
  }

  lemma {:induction false} FeedAllAppend(c: Register, x: seq<byte>, y: seq<byte>)
    ensures FeedAll(c, x + y) == FeedAll(FeedAll(c, x), y)
    decreases y
  {
    hide Feed;
    if y == [] {
      assert x + y == x;
    } else {
      assert (x + y)[..|x + y| - 1] == x + y[..|y| - 1];
      FeedAllAppend(c, x, y[..|y| - 1]);
    }
  }

  /** A checksum may be computed piece by piece, each piece starting from the result before it. */
  lemma UpdateComposes(c: Register, x: seq<byte>, y: seq<byte>)
    ensures Update(Update(c, x), y) == Update(c, x + y)
    ensures Update(c, []) == c
  {
    hide FeedAll, Complement;
    ComplementTwice(FeedAll(Complement(c), x));
    ComplementTwice(c);
    FeedAllAppend(Complement(c), x, y);
    FeedNothing(Complement(c));
  }

  lemma FeedNothing(c: Register)
    ensures FeedAll(c, []) == c
  {
  }

  // Values.

  lemma FeedVector(v: bv32, b: byte, w: bv32)
    requires SameWord(w, b)
    ensures Feed(Vector(v), b) == Vector(EightSteps(Mix(v, w)))
  {
    hide Steps, EightSteps, Xor, VectorBits, ToBits, Mix, SameWord;
    SameVector(w, b);
    XorVectors(v, w);
    EightVectors(Mix(v, w));
  }

  lemma AllOnes()
    ensures Complement(Zero()) == Vector(0xFFFF_FFFF)
  {
    hide SameWord, Vector, Word;
    SameOnes();
    SameVector(0xFFFF_FFFF, 0xFFFF_FFFF);
    OnesWord();
  }

  lemma SameOnes()
    ensures SameWord(0xFFFF_FFFF, 0xFFFF_FFFF)
  {
    hide SameWord;
    SameByByte(0xFFFF_FFFF, 0xFFFF_FFFF, 0xFF_FFFF, 0xFFFF, 0xFF, 0xFF_FFFF, 0xFFFF, 0xFF);
  }

  lemma OnesWord()
    ensures Complement(Zero()) == Word(0xFFFF_FFFF)
  {
    OnesBits(32);
    PowersOfTwo();
  }

  lemma {:induction false} OnesBits(width: nat)
    ensures Pow(2, width) >= 1 && ToBits(Pow(2, width) - 1, width) == seq(width, _ => true)
  {
    if width > 0 {
      OnesBits(width - 1);
      assert (Pow(2, width) - 1) / 2 == Pow(2, width - 1) - 1;
    }
  }

  /** A word below 256 agrees with a number if their lowest bytes do. */
  lemma SmallWord(v: bv32, n: nat)
    requires SameByte(v, n) && Byte(v) == 0 && n < 0x100
    ensures SameWord(v, n)
  {
    ZeroByte();
    hide SameByte, Byte;
  }

  lemma ZeroByte()
    ensures SameByte(0, 0) && Byte(0) == 0
  {
  }

  lemma Digit(v: bv32, n: nat)
    requires 0x30 <= v <= 0x3F && 0x30 <= n <= 0x3F && SameNibble(v, n)
    ensures SameWord(v, n)
  {
    assert Nibble(v) == 3 && n / 0x10 == 3 && Byte(v) == 0;
    assert SameNibble(3, 3);
    hide SameNibble;
    SmallWord(v, n);
  }

  lemma Digits()
    ensures SameWord(0x31, 0x31) && SameWord(0x32, 0x32) && SameWord(0x33, 0x33)
    ensures SameWord(0x34, 0x34) && SameWord(0x35, 0x35) && SameWord(0x36, 0x36)
    ensures SameWord(0x37, 0x37) && SameWord(0x38, 0x38) && SameWord(0x39, 0x39)
  {
    hide SameWord;
    Digit(0x31, 0x31);
    Digit(0x32, 0x32);
    Digit(0x33, 0x33);
    Digit(0x34, 0x34);
    Digit(0x35, 0x35);
    Digit(0x36, 0x36);
    Digit(0x37, 0x37);
    Digit(0x38, 0x38);
    Digit(0x39, 0x39);
  }

  lemma NineSteps()
    ensures EightSteps(Mix(0xFFFF_FFFF, 0x31)) == 0x6F0A_661C && EightSteps(Mix(0x6F0A_661C, 0x32)) == 0x8CAA_3B9F
    ensures EightSteps(Mix(0x8CAA_3B9F, 0x33)) == 0xEF84_D04D && EightSteps(Mix(0xEF84_D04D, 0x34)) == 0x09C5_0B11
    ensures EightSteps(Mix(0x09C5_0B11, 0x35)) == 0xE72E_DCCA && EightSteps(Mix(0xE72E_DCCA, 0x36)) == 0xBECA_8E79
    ensures EightSteps(Mix(0xBECA_8E79, 0x37)) == 0xEDBD_6815 && EightSteps(Mix(0xEDBD_6815, 0x38)) == 0x9F78_7F65
    ensures EightSteps(Mix(0x9F78_7F65, 0x39)) == 0x1CF9_6D7C
  {
  }

  lemma ResidueSteps()
    ensures EightSteps(EightSteps(EightSteps(EightSteps(0xFFFF_FFFF)))) == 0xB798_B438
  {
  }

  lemma ComplementVector(v: bv32)
    ensures Complement(Vector(v)) == Vector(Mix(v, 0xFFFF_FFFF))
  {
    hide Vector, Word, Mix;
    XorVectors(v, 0xFFFF_FFFF);
    AllOnes();
    ComplementIsXor(Vector(v));
  }

  lemma ComplementIsXor(c: Register)
    ensures Complement(c) == Xor(c, Complement(Zero()))
  {
  }

  lemma CheckWord()
    ensures Mix(0x1CF9_6D7C, 0xFFFF_FFFF) == 0xE306_9283 && SameWord(0xE306_9283, 0xE306_9283)
  {
    hide SameWord;
    SameByByte(0xE306_9283, 0xE306_9283, 0xE3_0692, 0xE306, 0xE3, 0xE3_0692, 0xE306, 0xE3);
  }

  lemma ResidueWord()
    ensures Mix(0xB798_B438, 0xFFFF_FFFF) == 0x4867_4BC7 && SameWord(0x4867_4BC7, 0x4867_4BC7)
  {
    hide SameWord;
    SameByByte(0x4867_4BC7, 0x4867_4BC7, 0x48_674B, 0x4867, 0x48, 0x48_674B, 0x4867, 0x48);
  }

  lemma FeedOne(c: Register, x: seq<byte>, b: byte)
    ensures FeedAll(c, x + [b]) == Feed(FeedAll(c, x), b)
  {
    hide Feed;
    assert (x + [b])[..|x|] == x;
  }

  /** The published check value: the checksum of the string "123456789". */
  lemma CheckValue()
    ensures Update(Word(0), [0x31, 0x32, 0x33, 0x34, 0x35, 0x36, 0x37, 0x38, 0x39]) == Word(0xE306_9283)
  {
    hide Word, Feed, Vector, Mix, EightSteps, SameWord, Complement, FeedAll;
    Digits();
    NineSteps();
    var d: seq<byte> := [0x31, 0x32, 0x33, 0x34, 0x35, 0x36, 0x37, 0x38, 0x39];
    var ones := Vector(0xFFFF_FFFF);
    FeedNothing(ones);
    ThreeMore(ones, [], 0xFFFF_FFFF, 0x31, 0x31, 0x32, 0x32, 0x33, 0x33);
    assert [] + [d[0], d[1], d[2]] == d[..3];
    ThreeMore(ones, d[..3], 0xEF84_D04D, 0x34, 0x34, 0x35, 0x35, 0x36, 0x36);
    assert d[..3] + [d[3], d[4], d[5]] == d[..6];
    ThreeMore(ones, d[..6], 0xBECA_8E79, 0x37, 0x37, 0x38, 0x38, 0x39, 0x39);
    assert d[..6] + [d[6], d[7], d[8]] == d;
    WordZero();
    AllOnes();
    CheckWord();
    ComplementVector(0x1CF9_6D7C);
    SameVector(0xE306_9283, 0xE306_9283);
  }

  lemma WordZero()
    ensures Word(0) == Zero()
  {
    ZeroBits(32);
  }

  /** Three more bytes, as numbers and as words. */
  lemma ThreeMore(start: Register, done: seq<byte>, v: bv32, a: byte, x: bv32, b: byte, y: bv32, c: byte, z: bv32)
    requires FeedAll(start, done) == Vector(v) && SameWord(x, a) && SameWord(y, b) && SameWord(z, c)
    ensures FeedAll(start, done + [a, b, c]) ==
            Vector(EightSteps(Mix(EightSteps(Mix(EightSteps(Mix(v, x)), y)), z)))
  {
    hide Vector, Mix, EightSteps, SameWord, Feed, FeedAll;
    assert done + [a, b, c] == done + [a] + [b] + [c];
    FeedOne(start, done, a);
    FeedOne(start, done + [a], b);
    FeedOne(start, done + [a] + [b], c);
    FeedVector(v, a, x);
    FeedVector(EightSteps(Mix(v, x)), b, y);
    FeedVector(EightSteps(Mix(EightSteps(Mix(v, x)), y)), c, z);
  }

  /** The bytes of a stored word carry its bits. */
  lemma StoredBits(n: nat)
    requires n < U32
    ensures Bits(Put32(n)) == Word(n)
  {
    hide ToBits, Bits;
    var b := Put32(n);
    assert b == [b[0], b[1], b[2], b[3]];
    FourBytes(b[0], b[1], b[2], b[3]);
    assert n == b[0] as int + 0x100 * (b[1] as int + 0x100 * (b[2] as int + 0x100 * b[3] as int));
    PrependByte(b[0], b[1] as int + 0x100 * (b[2] as int + 0x100 * b[3] as int), 24);
    PrependByte(b[1], b[2] as int + 0x100 * b[3] as int, 16);
    PrependByte(b[2], b[3], 8);
  }

  lemma FourBytes(a: byte, b: byte, c: byte, d: byte)
    ensures Bits([a, b, c, d]) == ToBits(a, 8) + (ToBits(b, 8) + (ToBits(c, 8) + ToBits(d, 8)))
  {
    hide ToBits, Bits;
    OneByte(a);
    OneByte(b);
    OneByte(c);
    OneByte(d);
    assert [a, b, c, d] == [a] + ([b] + ([c] + [d]));
    BitsAppend([a], [b] + ([c] + [d]));
    BitsAppend([b], [c] + [d]);
    BitsAppend([c], [d]);
  }

  /**
   * The residue: data followed by its own checksum, stored little-endian, has one and the same
   * checksum whatever the data.
   */
  lemma Residue(c: Register, data: seq<byte>, sum: nat)
    requires sum < U32 && Update(c, data) == Word(sum)
    ensures Update(c, data + Put32(sum)) == Word(0x4867_4BC7)
  {
    hide Word, Vector, Mix, EightSteps, SameWord, Complement, FeedAll, Put32, Xor, Steps, Bits;
    var r := FeedAll(Complement(c), data);
    FeedAllAppend(Complement(c), data, Put32(sum));
    FeedAllIsFeedBits(r, Put32(sum));
    StoredBits(sum);
    FeedAtOnce(r, Word(sum));
    PadFull(Word(sum));
    XorComplement(r);
    ResidueVector();
    ComplementVector(0xB798_B438);
    ResidueWord();
    SameVector(0x4867_4BC7, 0x4867_4BC7);
  }

  lemma XorComplement(r: Register)
    ensures Xor(r, Complement(r)) == Complement(Zero())
  {
  }

  lemma ResidueVector()
    ensures Steps(32, Complement(Zero())) == Vector(0xB798_B438)
  {
    ResidueSteps();
    hide Vector, EightSteps, Steps, Complement;
    AllOnes();
    var a := EightSteps(0xFFFF_FFFF);
    EightVectors(0xFFFF_FFFF);
    EightVectors(a);
    EightVectors(EightSteps(a));
    EightVectors(EightSteps(EightSteps(a)));
    StepsAdd(8, 24, Vector(0xFFFF_FFFF));
    StepsAdd(8, 16, Vector(a));
    StepsAdd(8, 8, Vector(EightSteps(a)));
  }

  lemma EvenBits(n: nat, width: nat)
    ensures ToBits(2 * n, width + 1) == [false] + ToBits(n, width)
  {
    assert 2 * n % 2 == 0 && 2 * n / 2 == n;
  }

  /** Every register is the word of some number, so a checksum can always be stored. */
  lemma {:induction false} SomeWord(bits: seq<bool>) returns (n: nat)
    ensures n < Pow(2, |bits|) && ToBits(n, |bits|) == bits
  {
    if bits == [] {
      return 0;
    }
    var width := |bits| - 1;
    var rest := SomeWord(bits[1..]);
    assert bits == [bits[0]] + bits[1..] && Pow(2, width + 1) == 2 * Pow(2, width);
    hide ToBits, Pow;
    if bits[0] {
      OddBits(rest, width);
      n := 2 * rest + 1;
    } else {
      EvenBits(rest, width);
      n := 2 * rest;
    }
  }
}
