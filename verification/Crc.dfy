/**
 The CRC-32 register of `wokcore-diagnostics/src/export.rs`: reflected, polynomial 0xedb88320. A register is its
 bits, lowest first.
 */
module Crc {
  import opened Prelude

  type Register = r: seq<bool> | |r| == 32 witness seq(32, _ => false)

  const POLYNOMIAL: Register := BitsOf(0xedb8_8320, 32)

  /** The lowest bits of a number. */
  function BitsOf(value: nat, width: nat): (bits: seq<bool>)
    ensures |bits| == width
    decreases width
  {
    if width == 0 then [] else [value % 2 == 1] + BitsOf(value / 2, width - 1)
  }

  function ValueOf(bits: seq<bool>): nat {
    if bits == [] then 0 else (if bits[0] then 1 else 0) + 2 * ValueOf(bits[1..])
  }

  function Xor(a: seq<bool>, b: seq<bool>): (c: seq<bool>)
    requires |a| == |b|
    ensures |c| == |a| && forall i :: 0 <= i < |a| ==> c[i] == (a[i] != b[i])
  {
    seq(|a|, i requires 0 <= i < |a| => a[i] != b[i])
  }

  /** One bit: shift right, and fold the polynomial in when a one falls out. */
  function Round(register: Register): Register {
    var shifted := register[1..] + [false];
    if register[0] then Xor(shifted, POLYNOMIAL) else shifted
  }

  function Rounds(register: Register, n: nat): Register
    decreases n
  {
    if n == 0 then register else Rounds(Round(register), n - 1)
  }

  function Feed(register: Register, b: byte): Register {
    Rounds(Xor(register, BitsOf(b, 32)), 8)
  }

  function FeedAll(register: Register, bytes: Bytes): Register {
    if bytes == [] then register else Feed(FeedAll(register, bytes[..|bytes| - 1]), bytes[|bytes| - 1])
  }

  function Start(): Register {
    seq(32, _ => true)
  }

  function Finish(register: Register): (crc: nat)
    ensures crc <= U32_MAX
  {
    ValueFits(Xor(register, Start()));
    ValueOf(Xor(register, Start()))
  }

  function Checksum(bytes: Bytes): (crc: nat)
    ensures crc <= U32_MAX
  {
    Finish(FeedAll(Start(), bytes))
  }

  function Power(n: nat): nat {
    if n == 0 then 1 else 2 * Power(n - 1)
  }

  lemma FourMore(n: nat)
    ensures Power(n + 4) == 16 * Power(n)
  {
    assert Power(n + 2) == 4 * Power(n);
    assert Power(n + 4) == 4 * Power(n + 2);
  }

  lemma Powers()
    ensures Power(31) == 0x8000_0000 && Power(32) == 0x1_0000_0000
  {
    FourMore(0);
    FourMore(4);
    FourMore(8);
    FourMore(12);
    FourMore(16);
    FourMore(20);
    FourMore(24);
    FourMore(28);
    assert Power(0) == 1;
    assert Power(32) == 2 * Power(31);
  }

  lemma {:induction false} ValueBelow(bits: seq<bool>)
    ensures ValueOf(bits) < Power(|bits|)
  {
    if bits != [] {
      ValueBelow(bits[1..]);
    }
  }

  lemma ValueFits(register: Register)
    ensures ValueOf(register) <= U32_MAX
  {
    ValueBelow(register);
    Powers();
  }

  lemma {:induction false} BitsOfValue(value: nat, width: nat)
    requires value < Power(width)
    ensures ValueOf(BitsOf(value, width)) == value
    decreases width
  {
    if width > 0 {
      BitsOfValue(value / 2, width - 1);
      assert BitsOf(value, width)[1..] == BitsOf(value / 2, width - 1);
    }
  }

  lemma {:induction false} ValueIsInjective(a: seq<bool>, b: seq<bool>)
    requires |a| == |b| && ValueOf(a) == ValueOf(b)
    ensures a == b
  {
    if a != [] {
      assert a[0] == b[0];
      ValueIsInjective(a[1..], b[1..]);
      assert a == [a[0]] + a[1..] && b == [b[0]] + b[1..];
    }
  }

  lemma {:induction false} LastBit(value: nat, width: nat)
    requires 0 < width && Power(width - 1) <= value < Power(width)
    ensures BitsOf(value, width)[width - 1]
    decreases width
  {
    if width > 1 {
      LastBit(value / 2, width - 1);
      assert BitsOf(value, width)[width - 1] == BitsOf(value / 2, width - 1)[width - 2];
    }
  }

  /** The polynomial has its top bit set, which is what makes a round reversible. */
  lemma PolynomialTop()
    ensures ValueOf(POLYNOMIAL) == 0xedb8_8320 && POLYNOMIAL[31]
  {
    hide BitsOf, Power;
    Powers();
    BitsOfValue(0xedb8_8320, 32);
    LastBit(0xedb8_8320, 32);
  }

  /** A round loses nothing: its top bit tells which bit fell out. */
  lemma RoundIsInjective(x: Register, y: Register)
    requires Round(x) == Round(y)
    ensures x == y
  {
    PolynomialTop();
    hide BitsOf;
    assert Round(x)[31] == x[0] && Round(y)[31] == y[0];
    forall i | 1 <= i < 32
      ensures x[i] == y[i]
    {
      assert Round(x)[i - 1] == (x[i] != (x[0] && POLYNOMIAL[i - 1]));
      assert Round(y)[i - 1] == (y[i] != (y[0] && POLYNOMIAL[i - 1]));
    }
  }

  lemma {:induction false} RoundsAreInjective(x: Register, y: Register, n: nat)
    requires Rounds(x, n) == Rounds(y, n)
    ensures x == y
    decreases n
  {
    hide Round;
    if n > 0 {
      RoundsAreInjective(Round(x), Round(y), n - 1);
      RoundIsInjective(x, y);
    }
  }

  lemma XorIsInjective(x: seq<bool>, y: seq<bool>, z: seq<bool>)
    requires |x| == |y| == |z| && (Xor(x, z) == Xor(y, z) || Xor(z, x) == Xor(z, y))
    ensures x == y
  {
    if Xor(x, z) == Xor(y, z) {
      assert forall i :: 0 <= i < |x| ==> Xor(x, z)[i] == Xor(y, z)[i];
    } else {
      assert forall i :: 0 <= i < |x| ==> Xor(z, x)[i] == Xor(z, y)[i];
    }
  }

  lemma FeedIsInjective(x: Register, y: Register, b: byte)
    requires Feed(x, b) == Feed(y, b)
    ensures x == y
  {
    hide Rounds, Xor, BitsOf;
    RoundsAreInjective(Xor(x, BitsOf(b, 32)), Xor(y, BitsOf(b, 32)), 8);
    XorIsInjective(x, y, BitsOf(b, 32));
  }

  lemma BytesAreTold(register: Register, x: byte, y: byte)
    ensures x != y ==> Feed(register, x) != Feed(register, y)
  {
    hide Rounds, Xor, BitsOf, Power;
    if Feed(register, x) == Feed(register, y) {
      RoundsAreInjective(Xor(register, BitsOf(x, 32)), Xor(register, BitsOf(y, 32)), 8);
      XorIsInjective(BitsOf(x, 32), BitsOf(y, 32), register);
      Powers();
      BitsOfValue(x, 32);
      BitsOfValue(y, 32);
    }
  }

  lemma {:induction false} FeedAllIsInjective(x: Register, y: Register, bytes: Bytes)
    requires FeedAll(x, bytes) == FeedAll(y, bytes)
    ensures x == y
  {
    hide Feed;
    if bytes != [] {
      var n := |bytes| - 1;
      FeedIsInjective(FeedAll(x, bytes[..n]), FeedAll(y, bytes[..n]), bytes[n]);
      FeedAllIsInjective(x, y, bytes[..n]);
    }
  }

  /** Feeding chunk by chunk is feeding everything at once. */
  lemma {:induction false} FeedChunks(register: Register, a: Bytes, b: Bytes)
    ensures FeedAll(FeedAll(register, a), b) == FeedAll(register, a + b)
  {
    hide Feed;
    if b == [] {
      assert a + b == a;
    } else {
      var n := |b| - 1;
      FeedChunks(register, a, b[..n]);
      assert (a + b)[..|a| + n] == a + b[..n];
    }
  }

  lemma FeedOne(register: Register, bytes: Bytes, b: byte)
    ensures FeedAll(register, bytes + [b]) == Feed(FeedAll(register, bytes), b)
  {
    hide Feed;
    assert (bytes + [b])[..|bytes|] == bytes;
  }

  /** Changing one byte anywhere changes the checksum. */
  lemma OneByteIsDetected(before: Bytes, x: byte, y: byte, after: Bytes)
    ensures x != y ==> Checksum(before + [x] + after) != Checksum(before + [y] + after)
  {
    hide Feed, FeedAll, Xor, ValueOf;
    var r := FeedAll(Start(), before);
    FeedChunks(Start(), before + [x], after);
    FeedChunks(Start(), before + [y], after);
    FeedOne(Start(), before, x);
    FeedOne(Start(), before, y);
    BytesAreTold(r, x, y);
    if Checksum(before + [x] + after) == Checksum(before + [y] + after) {
      FinishIsInjective(FeedAll(Start(), before + [x] + after), FeedAll(Start(), before + [y] + after));
      FeedAllIsInjective(Feed(r, x), Feed(r, y), after);
    }
  }

  lemma FinishIsInjective(x: Register, y: Register)
    requires Finish(x) == Finish(y)
    ensures x == y
  {
    hide Xor, ValueOf;
    ValueIsInjective(Xor(x, Start()), Xor(y, Start()));
    XorIsInjective(x, y, Start());
  }

  /** The register as the source feeds it: byte by byte, eight rounds each. */
  method Update(register: Register, bytes: Bytes) returns (after: Register)
    ensures after == FeedAll(register, bytes)
  {
    hide Feed, Round;
    after := register;
    for i := 0 to |bytes|
      invariant after == FeedAll(register, bytes[..i])
    {
      ghost var fed := Feed(after, bytes[i]);
      after := Xor(after, BitsOf(bytes[i], 32));
      FeedIsRounds(FeedAll(register, bytes[..i]), bytes[i]);
      for k := 0 to 8
        invariant Rounds(after, 8 - k) == fed
      {
        after := Round(after);
      }
      assert bytes[..i + 1][..i] == bytes[..i];
    }
    assert bytes[..|bytes|] == bytes;
  }

  lemma FeedIsRounds(register: Register, b: byte)
    ensures Feed(register, b) == Rounds(Xor(register, BitsOf(b, 32)), 8)
  {
  }

  // Registers as words.

  /** A bit of the 32-bit word that the source keeps. */
  function Bit(w: bv32, i: nat): bool
    decreases i
  {
    if i == 0 then Odd(w) else Bit(Half(w), i - 1)
  }

  predicate Odd(w: bv32) {
    w & 1 == 1
  }

  function Half(w: bv32): bv32 {
    w >> 1
  }

  function Bits(w: bv32): (bits: Register)
    ensures forall i :: 0 <= i < 32 ==> bits[i] == Bit(w, i)
  {
    seq(32, i requires 0 <= i < 32 => Bit(w, i))
  }

  /** One bit, as the source computes it. */
  function WordRound(w: bv32): bv32 {
    (w >> 1) ^ (0xedb8_8320 & (0 - (w & 1)))
  }

  function WordFeed(w: bv32, b: bv32): bv32 {
    WordRound(WordRound(WordRound(WordRound(WordRound(WordRound(WordRound(WordRound(w ^ b))))))))
  }

  /** The lowest bits of a number and of a word are the same. */
  predicate Agree(v: nat, w: bv32, width: nat)
    decreases width
  {
    width == 0 || ((v % 2 == 1) == (w & 1 == 1) && Agree(v / 2, w >> 1, width - 1))
  }

  lemma {:induction false} AgreedBit(v: nat, w: bv32, width: nat, i: nat)
    requires Agree(v, w, width) && i < width
    ensures BitsOf(v, width)[i] == Bit(w, i)
    decreases width
  {
    if i > 0 {
      AgreedBit(v / 2, w >> 1, width - 1, i - 1);
    }
  }

  lemma AgreedBits(v: nat, w: bv32)
    requires Agree(v, w, 32)
    ensures BitsOf(v, 32) == Bits(w)
  {
    hide BitsOf, Agree, Bit;
    forall i | 0 <= i < 32
      ensures BitsOf(v, 32)[i] == Bits(w)[i]
    {
      AgreedBit(v, w, 32, i);
    }
  }

  lemma FourAgree(v: nat, w: bv32, width: nat)
    requires width >= 4 && Agree(v / 16, w >> 4, width - 4)
    requires (v % 2 == 1) == (w & 1 == 1) && (v / 2 % 2 == 1) == ((w >> 1) & 1 == 1)
    requires (v / 4 % 2 == 1) == ((w >> 2) & 1 == 1) && (v / 8 % 2 == 1) == ((w >> 3) & 1 == 1)
    ensures Agree(v, w, width)
  {
    assert v / 2 / 2 == v / 4 && v / 4 / 2 == v / 8 && v / 8 / 2 == v / 16;
    assert (w >> 1) >> 1 == w >> 2 && (w >> 2) >> 1 == w >> 3 && (w >> 3) >> 1 == w >> 4;
    assert Agree(v / 8, w >> 3, width - 3);
    assert Agree(v / 4, w >> 2, width - 2);
    assert Agree(v / 2, w >> 1, width - 1);
  }

  lemma {:induction false} ZerosAgree(width: nat)
    ensures Agree(0, 0, width)
    decreases width
  {
    if width > 0 {
      ZerosAgree(width - 1);
    }
  }

  lemma XorWords(a: bv32, b: bv32)
    ensures Half(a ^ b) == Half(a) ^ Half(b) && Odd(a ^ b) == (Odd(a) != Odd(b))
  {
  }

  lemma {:induction false} XorBit(a: bv32, b: bv32, i: nat)
    ensures Bit(a ^ b, i) == (Bit(a, i) != Bit(b, i))
    decreases i
  {
    hide Half, Odd;
    XorWords(a, b);
    if i > 0 {
      XorBit(Half(a), Half(b), i - 1);
    }
  }

  lemma XorBits(a: bv32, b: bv32)
    ensures Bits(a ^ b) == Xor(Bits(a), Bits(b))
  {
    hide Bit;
    forall i | 0 <= i < 32
      ensures Bits(a ^ b)[i] == Xor(Bits(a), Bits(b))[i]
    {
      XorBit(a, b, i);
    }
  }

  /** A 32-bit word has no bit 32. */
  lemma NoTopBit(w: bv32)
    ensures !Bit(w, 32)
  {
    hide Bit, DropByte;
    EightOn(w, 24);
    EightOn(DropByte(w), 16);
    EightOn(DropByte(DropByte(w)), 8);
    EightOn(DropByte(DropByte(DropByte(w))), 0);
    ShiftedOut(w);
    LowestBit(0);
  }

  function DropByte(w: bv32): bv32 {
    w >> 8
  }

  lemma ShiftedOut(w: bv32)
    ensures DropByte(DropByte(DropByte(DropByte(w)))) == 0
  {
  }

  lemma LowestBit(w: bv32)
    ensures Bit(w, 0) == (w & 1 == 1)
  {
  }

  lemma EightOn(w: bv32, i: nat)
    ensures Bit(w, 8 + i) == Bit(DropByte(w), i)
  {
    assert Bit(w, 8 + i) == Bit(w >> 1, 7 + i) == Bit((w >> 1) >> 1, 6 + i);
    assert (w >> 1) >> 1 == w >> 2;
    assert Bit(w >> 2, 6 + i) == Bit((w >> 2) >> 1, 5 + i) == Bit(((w >> 2) >> 1) >> 1, 4 + i);
    assert ((w >> 2) >> 1) >> 1 == w >> 4;
    assert Bit(w >> 4, 4 + i) == Bit((w >> 4) >> 1, 3 + i) == Bit(((w >> 4) >> 1) >> 1, 2 + i);
    assert ((w >> 4) >> 1) >> 1 == w >> 6;
    assert Bit(w >> 6, 2 + i) == Bit((w >> 6) >> 1, 1 + i) == Bit(((w >> 6) >> 1) >> 1, i);
    assert ((w >> 6) >> 1) >> 1 == w >> 8;
  }

  lemma PolynomialBits()
    ensures POLYNOMIAL == Bits(0xedb8_8320)
  {
    hide Agree, BitsOf;
    ZerosAgree(0);
    FourAgree(0xe, 0xe, 4);
    FourAgree(0xed, 0xed, 8);
    FourAgree(0xedb, 0xedb, 12);
    FourAgree(0xedb8, 0xedb8, 16);
    FourAgree(0xedb88, 0xedb88, 20);
    FourAgree(0xedb883, 0xedb883, 24);
    FourAgree(0xedb8832, 0xedb8832, 28);
    FourAgree(0xedb88320, 0xedb88320, 32);
    AgreedBits(0xedb8_8320, 0xedb8_8320);
  }

  /** The arithmetic of the source does what a round does. */
  lemma WordBits(w: bv32)
    ensures Bits(WordRound(w)) == Round(Bits(w))
  {
    PolynomialBits();
    hide BitsOf, Bit, Xor, WordRound;
    LowestBit(w);
    HalfBits(w);
    WordCases(w);
    XorBits(w >> 1, 0xedb8_8320);
  }

  lemma WordCases(w: bv32)
    ensures WordRound(w) == if w & 1 == 1 then (w >> 1) ^ 0xedb8_8320 else w >> 1
  {
  }

  lemma HalfBits(w: bv32)
    ensures Bits(w >> 1) == Bits(w)[1..] + [false]
  {
    hide Bit;
    NoTopBit(w);
    forall i | 0 <= i < 32
      ensures Bits(w >> 1)[i] == (Bits(w)[1..] + [false])[i]
    {
      NextBit(w, i);
    }
  }

  lemma NextBit(w: bv32, i: nat)
    ensures Bit(w >> 1, i) == Bit(w, i + 1)
  {
  }

  lemma WordFeeds(w: bv32, b: byte, c: bv32)
    requires BitsOf(b, 32) == Bits(c)
    ensures Bits(WordFeed(w, c)) == Feed(Bits(w), b)
  {
    hide BitsOf, Bits, Round, WordRound, Xor;
    XorBits(w, c);
    var r0 := w ^ c;
    var r1 := WordRound(r0);
    var r2 := WordRound(r1);
    var r3 := WordRound(r2);
    var r4 := WordRound(r3);
    var r5 := WordRound(r4);
    var r6 := WordRound(r5);
    var r7 := WordRound(r6);
    WordBits(r0);
    WordBits(r1);
    WordBits(r2);
    WordBits(r3);
    WordBits(r4);
    WordBits(r5);
    WordBits(r6);
    WordBits(r7);
    EightRounds(Bits(r0));
  }

  lemma EightRounds(r: Register)
    ensures Rounds(r, 8) == Round(Round(Round(Round(Round(Round(Round(Round(r))))))))
  {
    hide Round;
    var four := Round(Round(Round(Round(r))));
    assert Rounds(r, 8) == Rounds(Round(Round(r)), 6) == Rounds(four, 4);
    assert Rounds(four, 4) == Rounds(Round(Round(four)), 2) == Rounds(Round(Round(Round(Round(four)))), 0);
  }

  // The polynomial as coefficients.

  /** The exponents of the generator, x^32 + x^26 + ... + x + 1. */
  const EXPONENTS: set<nat> := {32, 26, 23, 22, 16, 12, 11, 10, 8, 7, 5, 4, 2, 1, 0}

  /** The generator, highest coefficient first. */
  function Generator(): (bits: seq<bool>)
    ensures |bits| == 33
  {
    seq(33, i requires 0 <= i < 33 => (32 - i) in EXPONENTS)
  }

  /** The bits of a word, from the lowest, are the coefficients from `top` down. */
  predicate Coefficients(w: bv32, top: int)
    decreases top + 1
  {
    top < 0 || ((w & 1 == 1) == (top in EXPONENTS) && Coefficients(w >> 1, top - 1))
  }

  lemma {:induction false} CoefficientBit(w: bv32, top: int, i: nat)
    requires Coefficients(w, top) && i <= top
    ensures Bit(w, i) == ((top - i) in EXPONENTS)
    decreases i
  {
    if i > 0 {
      CoefficientBit(w >> 1, top - 1, i - 1);
    }
  }

  lemma FourCoefficients(w: bv32, top: int)
    requires top >= 3 && Coefficients(w >> 4, top - 4)
    requires (w & 1 == 1) == (top in EXPONENTS) && ((w >> 1) & 1 == 1) == (top - 1 in EXPONENTS)
    requires ((w >> 2) & 1 == 1) == (top - 2 in EXPONENTS) && ((w >> 3) & 1 == 1) == (top - 3 in EXPONENTS)
    ensures Coefficients(w, top)
  {
    assert (w >> 1) >> 1 == w >> 2 && (w >> 2) >> 1 == w >> 3 && (w >> 3) >> 1 == w >> 4;
    assert Coefficients(w >> 3, top - 3);
    assert Coefficients(w >> 2, top - 2);
    assert Coefficients(w >> 1, top - 1);
  }

  /** The polynomial of a round is the generator without its top coefficient. */
  lemma PolynomialIsGenerator()
    ensures POLYNOMIAL == Generator()[1..]
  {
    hide BitsOf, Bit;
    PolynomialBits();
    assert Coefficients(0, -1);
    hide Coefficients;
    FourCoefficients(0xe, 3);
    FourCoefficients(0xed, 7);
    FourCoefficients(0xedb, 11);
    FourCoefficients(0xedb8, 15);
    FourCoefficients(0xedb88, 19);
    FourCoefficients(0xedb883, 23);
    FourCoefficients(0xedb8832, 27);
    FourCoefficients(0xedb88320, 31);
    forall i | 0 <= i < 32
      ensures POLYNOMIAL[i] == Generator()[1..][i]
    {
      CoefficientBit(0xedb8_8320, 31, i);
    }
  }

  // Long division.

  /** The remainder of a dividend, highest coefficient first: the generator is taken off its top while it is there. */
  function Remainder(dividend: seq<bool>): (remainder: Register)
    requires |dividend| >= 32
    decreases |dividend|
  {
    if |dividend| == 32 then dividend
    else if dividend[0] then Remainder((Xor(dividend[..33], Generator()) + dividend[33..])[1..])
    else Remainder(dividend[1..])
  }

  /** The bits of a message in the order they are sent: byte by byte, the lowest first. */
  function MessageBits(bytes: Bytes): (bits: seq<bool>)
    ensures |bits| == 8 * |bytes|
  {
    if bytes == [] then [] else MessageBits(bytes[..|bytes| - 1]) + BitsOf(bytes[|bytes| - 1], 8)
  }

  function Complement(bits: seq<bool>): (c: seq<bool>)
    ensures |c| == |bits| && forall i :: 0 <= i < |bits| ==> c[i] == !bits[i]
  {
    seq(|bits|, i requires 0 <= i < |bits| => !bits[i])
  }

  function Zeros(n: nat): (bits: seq<bool>)
    ensures |bits| == n && forall i :: 0 <= i < n ==> !bits[i]
  {
    seq(n, _ => false)
  }

  /**
   The checksum is CRC-32: the message followed by 32 zero bits, with its first 32 bits complemented, is divided by
   the generator, and the remainder is complemented.
   */
  lemma ChecksumIsRemainder(bytes: Bytes)
    ensures var padded := MessageBits(bytes) + Zeros(32);
            Checksum(bytes) == ValueOf(Complement(Remainder(Complement(padded[..32]) + padded[32..])))
  {
    hide FeedAll, Remainder, MessageBits, ValueOf;
    var message := MessageBits(bytes);
    var padded := message + Zeros(32);
    FeedAllIsShifts(Start(), bytes);
    DivisionIsShifts(Start(), message);
    assert Complement(padded[..32]) + padded[32..] == Xor(Start() + Zeros(|message|), padded);
    var register := FeedAll(Start(), bytes);
    assert Xor(register, Start()) == Complement(register);
  }

  /** One bit of the message against the bit that falls out. */
  function Shift(register: Register, bit: bool): Register {
    Round(register[0 := register[0] != bit])
  }

  function Shifts(register: Register, bits: seq<bool>): Register
    decreases |bits|
  {
    if bits == [] then register else Shifts(Shift(register, bits[0]), bits[1..])
  }

  /** A division of the register over the message takes the message bit by bit. */
  lemma {:induction false} DivisionIsShifts(register: Register, message: seq<bool>)
    ensures Remainder(Xor(register + Zeros(|message|), message + Zeros(32))) == Shifts(register, message)
    decreases |message|
  {
    hide Shift, Shifts, Generator;
    var dividend := Xor(register + Zeros(|message|), message + Zeros(32));
    if message == [] {
      assert dividend == register;
      NoShifts(register);
    } else {
      var shifted, rest := Shift(register, message[0]), message[1..];
      DivisionIsShifts(shifted, rest);
      DivisionStep(register, message);
      FirstShift(register, message);
    }
  }

  lemma NoShifts(register: Register)
    ensures Shifts(register, []) == register
  {
  }

  lemma FirstShift(register: Register, message: seq<bool>)
    requires message != []
    ensures Shifts(register, message) == Shifts(Shift(register, message[0]), message[1..])
  {
  }

  lemma DivisionStep(register: Register, message: seq<bool>)
    requires message != []
    ensures var rest := message[1..];
            Remainder(Xor(register + Zeros(|message|), message + Zeros(32)))
            == Remainder(Xor(Shift(register, message[0]) + Zeros(|rest|), rest + Zeros(32)))
  {
    PolynomialIsGenerator();
    hide BitsOf, Generator;
    var n, rest, g := |message|, message[1..], Generator();
    var dividend := Xor(register + Zeros(n), message + Zeros(32));
    var next := if dividend[0] then (Xor(dividend[..33], g) + dividend[33..])[1..] else dividend[1..];
    var shifted := Shift(register, message[0]);
    var expected := Xor(shifted + Zeros(|rest|), rest + Zeros(32));
    assert dividend[0] == (register[0] != message[0]);
    forall i | 0 <= i < n + 31
      ensures next[i] == expected[i]
    {
      assert (rest + Zeros(32))[i] == (message + Zeros(32))[i + 1];
      assert next[i] == (dividend[i + 1] != (dividend[0] && i < 32 && g[i + 1]));
      if i < 32 {
        assert POLYNOMIAL[i] == g[i + 1];
        assert shifted[i] == ((register + Zeros(n))[i + 1] != (dividend[0] && POLYNOMIAL[i]));
      }
    }
    assert next == expected;
  }

  lemma {:induction false} ShiftsAppend(register: Register, a: seq<bool>, b: seq<bool>)
    ensures Shifts(Shifts(register, a), b) == Shifts(register, a + b)
    decreases |a|
  {
    hide Shift;
    if a == [] {
      assert a + b == b;
    } else {
      ShiftsAppend(Shift(register, a[0]), a[1..], b);
      assert (a + b)[1..] == a[1..] + b;
    }
  }

  /** Folding several bits in at once and then shifting is shifting them in one by one. */
  lemma {:induction false} RoundsAreShifts(register: Register, bits: seq<bool>)
    requires |bits| <= 32
    ensures Rounds(Xor(register, bits + Zeros(32 - |bits|)), |bits|) == Shifts(register, bits)
    decreases |bits|
  {
    hide BitsOf;
    if bits == [] {
      assert Xor(register, bits + Zeros(32)) == register;
    } else {
      var rest := bits[1..];
      RoundsAreShifts(Shift(register, bits[0]), rest);
      var folded := Xor(register, bits + Zeros(32 - |bits|));
      assert Round(folded) == Xor(Shift(register, bits[0]), rest + Zeros(32 - |rest|));
    }
  }

  lemma {:induction false} NoBits(width: nat)
    ensures BitsOf(0, width) == Zeros(width)
    decreases width
  {
    if width > 0 {
      NoBits(width - 1);
    }
  }

  lemma {:induction false} MoreBits(value: nat, width: nat, more: nat)
    requires value < Power(width)
    ensures BitsOf(value, width + more) == BitsOf(value, width) + Zeros(more)
    decreases width
  {
    if width == 0 {
      NoBits(more);
    } else {
      MoreBits(value / 2, width - 1, more);
    }
  }

  lemma FeedIsShifts(register: Register, b: byte)
    ensures Feed(register, b) == Shifts(register, BitsOf(b, 8))
  {
    hide BitsOf, Shifts, Rounds, Power;
    FourMore(0);
    FourMore(4);
    assert Power(0) == 1 by { NoPower(); }
    MoreBits(b, 8, 24);
    RoundsAreShifts(register, BitsOf(b, 8));
  }

  lemma NoPower()
    ensures Power(0) == 1
  {
  }

  lemma {:induction false} FeedAllIsShifts(register: Register, bytes: Bytes)
    ensures FeedAll(register, bytes) == Shifts(register, MessageBits(bytes))
  {
    hide Feed, Shifts, BitsOf;
    if bytes == [] {
      NoShifts(register);
    } else {
      var n := |bytes| - 1;
      FeedAllIsShifts(register, bytes[..n]);
      FeedIsShifts(FeedAll(register, bytes[..n]), bytes[n]);
      ShiftsAppend(register, MessageBits(bytes[..n]), BitsOf(bytes[n], 8));
    }
  }

  // The check value.

  lemma {:induction false} OnesValue(bits: seq<bool>)
    requires forall i :: 0 <= i < |bits| ==> bits[i]
    ensures ValueOf(bits) == Power(|bits|) - 1
  {
    if bits != [] {
      OnesValue(bits[1..]);
    }
  }

  lemma StartBits()
    ensures Start() == Bits(0xffff_ffff)
  {
    hide Agree, BitsOf, ValueOf, Power, Bits;
    Powers();
    OnesValue(Start());
    BitsOfValue(0xffff_ffff, 32);
    ValueIsInjective(Start(), BitsOf(0xffff_ffff, 32));
    ZerosAgree(0);
    FourAgree(0xf, 0xf, 4);
    FourAgree(0xff, 0xff, 8);
    FourAgree(0xfff, 0xfff, 12);
    FourAgree(0xffff, 0xffff, 16);
    FourAgree(0xfffff, 0xfffff, 20);
    FourAgree(0xffffff, 0xffffff, 24);
    FourAgree(0xfffffff, 0xfffffff, 28);
    FourAgree(0xffffffff, 0xffffffff, 32);
    AgreedBits(0xffff_ffff, 0xffff_ffff);
  }

  lemma CheckBits()
    ensures ValueOf(Bits(0xcbf4_3926)) == 0xcbf4_3926
  {
    hide Agree, BitsOf, ValueOf, Power, Bits;
    Powers();
    BitsOfValue(0xcbf4_3926, 32);
    ZerosAgree(0);
    FourAgree(0xc, 0xc, 4);
    FourAgree(0xcb, 0xcb, 8);
    FourAgree(0xcbf, 0xcbf, 12);
    FourAgree(0xcbf4, 0xcbf4, 16);
    FourAgree(0xcbf43, 0xcbf43, 20);
    FourAgree(0xcbf439, 0xcbf439, 24);
    FourAgree(0xcbf4392, 0xcbf4392, 28);
    FourAgree(0xcbf43926, 0xcbf43926, 32);
    AgreedBits(0xcbf4_3926, 0xcbf4_3926);
  }

  lemma DigitBits(b: byte, c: bv32)
    requires 49 <= b <= 57 && (b == 49 ==> c == 49) && (b == 50 ==> c == 50) && (b == 51 ==> c == 51)
    requires (b == 52 ==> c == 52) && (b == 53 ==> c == 53) && (b == 54 ==> c == 54) && (b == 55 ==> c == 55)
    requires (b == 56 ==> c == 56) && (b == 57 ==> c == 57)
    ensures BitsOf(b, 32) == Bits(c)
  {
    hide Agree, BitsOf, Bits;
    ZerosAgree(24);
    assert b / 16 == 3 && c >> 4 == 3;
    FourAgree(3, 3, 28);
    FourAgree(b, c, 32);
    AgreedBits(b, c);
  }

  /** The register after each digit of the check message. */
  lemma CheckSteps()
    ensures WordFeed(0xffff_ffff, 49) == 0x7c23_1048
    ensures WordFeed(0x7c23_1048, 50) == 0xb0ac_bb32
    ensures WordFeed(0xb0ac_bb32, 51) == 0x77b7_9c2d
    ensures WordFeed(0x77b7_9c2d, 52) == 0x641c_1f5c
    ensures WordFeed(0x641c_1f5c, 53) == 0x340a_c5e3
    ensures WordFeed(0x340a_c5e3, 54) == 0xf68d_2c9e
    ensures WordFeed(0xf68d_2c9e, 55) == 0xaffc_9660
    ensures WordFeed(0xaffc_9660, 56) == 0x651f_2550
    ensures WordFeed(0x651f_2550, 57) == 0x340b_c6d9
  {
  }

  lemma FeedDigit(message: Bytes, n: nat, w: bv32, c: bv32)
    requires n < |message| && FeedAll(Start(), message[..n]) == Bits(w) && BitsOf(message[n], 32) == Bits(c)
    ensures FeedAll(Start(), message[..n + 1]) == Bits(WordFeed(w, c))
  {
    hide Feed, FeedAll, WordFeed, Bits, BitsOf;
    assert message[..n + 1] == message[..n] + [message[n]];
    FeedOne(Start(), message[..n], message[n]);
    WordFeeds(w, message[n], c);
  }

  /** The published check value of CRC-32: that of the text 123456789. */
  lemma CheckValue()
    ensures Checksum([49, 50, 51, 52, 53, 54, 55, 56, 57]) == 0xcbf4_3926
  {
    hide FeedAll, WordFeed, ValueOf, Bits, BitsOf, Start, Xor;
    var message: Bytes := [49, 50, 51, 52, 53, 54, 55, 56, 57];
    StartBits();
    CheckSteps();
    NothingFed();
    assert message[..0] == [] && message[..9] == message;
    DigitBits(49, 49);
    FeedDigit(message, 0, 0xffff_ffff, 49);
    DigitBits(50, 50);
    FeedDigit(message, 1, 0x7c23_1048, 50);
    DigitBits(51, 51);
    FeedDigit(message, 2, 0xb0ac_bb32, 51);
    DigitBits(52, 52);
    FeedDigit(message, 3, 0x77b7_9c2d, 52);
    DigitBits(53, 53);
    FeedDigit(message, 4, 0x641c_1f5c, 53);
    DigitBits(54, 54);
    FeedDigit(message, 5, 0x340a_c5e3, 54);
    DigitBits(55, 55);
    FeedDigit(message, 6, 0xf68d_2c9e, 55);
    DigitBits(56, 56);
    FeedDigit(message, 7, 0xaffc_9660, 56);
    DigitBits(57, 57);
    FeedDigit(message, 8, 0x651f_2550, 57);
    XorBits(0x340b_c6d9, 0xffff_ffff);
    CheckBits();
  }

  lemma NothingFed()
    ensures FeedAll(Start(), []) == Start()
  {
  }
}
