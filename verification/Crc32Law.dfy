/**
 * What makes the checksum the CRC-32 and no other code: followed by its own checksum, every message leaves the
 * register at one fixed value, and the nine digits have the published check value.
 */
module Crc32Law {
  import opened Crc32

  const RESIDUE: bv32 := 0xDEBB20E3

  function ByteOf(w: bv32, j: nat): bv8 {
    match j
    case 0 => (w & 0xFF) as bv8
    case 1 => ((w >> 8) & 0xFF) as bv8
    case 2 => ((w >> 16) & 0xFF) as bv8
    case _ => (w >> 24) as bv8
  }

  /** A word as bytes, the least significant first. */
  function LittleEndian(w: bv32): seq<bv8> {
    [ByteOf(w, 0), ByteOf(w, 1), ByteOf(w, 2), ByteOf(w, 3)]
  }

  // ------------------------------------------------------- steps are linear

  /** Addition without carries, and division by 256: named so that proofs need not look inside. */
  function Sum(a: bv32, b: bv32): bv32 {
    a ^ b
  }

  function Rest(w: bv32): bv32 {
    w >> 8
  }

  predicate Odd(w: bv32) {
    w & 1 != 0
  }

  function Half(w: bv32): bv32 {
    w >> 1
  }

  lemma EvenStep(y: bv32)
    requires !Odd(y)
    ensures BitStep(y) == Half(y)
  {
  }

  lemma OddStep(y: bv32)
    requires Odd(y)
    ensures BitStep(y) == Sum(Half(y), POLYNOMIAL)
  {
  }

  lemma HalvesAdd(a: bv32, b: bv32)
    ensures Half(Sum(a, b)) == Sum(Half(a), Half(b))
  {
  }

  lemma ParitiesAdd(a: bv32, b: bv32)
    ensures Odd(Sum(a, b)) <==> Odd(a) != Odd(b)
  {
  }

  lemma Commutes(a: bv32, b: bv32)
    ensures Sum(a, b) == Sum(b, a)
  {
  }

  lemma Associates(a: bv32, b: bv32, d: bv32)
    ensures Sum(Sum(a, b), d) == Sum(a, Sum(b, d))
  {
  }

  lemma Cancels(a: bv32, d: bv32)
    ensures Sum(d, Sum(d, a)) == a
  {
  }

  lemma TermMoves(a: bv32, b: bv32, d: bv32)
    ensures Sum(Sum(a, d), b) == Sum(Sum(a, b), d) == Sum(a, Sum(b, d))
  {
    hide Sum;
    Associates(a, d, b);
    Commutes(d, b);
    Associates(a, b, d);
  }

  lemma TermsCancel(a: bv32, b: bv32, d: bv32)
    ensures Sum(Sum(a, d), Sum(b, d)) == Sum(a, b)
  {
    hide Sum;
    Associates(a, d, Sum(b, d));
    Commutes(b, d);
    Cancels(b, d);
  }

  lemma StepIsLinear(a: bv32, b: bv32)
    ensures BitStep(Sum(a, b)) == Sum(BitStep(a), BitStep(b))
  {
    hide BitStep;
    hide Sum;
    hide Half;
    hide Odd;
    HalvesAdd(a, b);
    ParitiesAdd(a, b);
    TermMoves(Half(a), Half(b), POLYNOMIAL);
    TermsCancel(Half(a), Half(b), POLYNOMIAL);
    if Odd(a) { OddStep(a); } else { EvenStep(a); }
    if Odd(b) { OddStep(b); } else { EvenStep(b); }
    if Odd(Sum(a, b)) { OddStep(Sum(a, b)); } else { EvenStep(Sum(a, b)); }
  }

  lemma {:induction false} StepsAreLinear(a: bv32, b: bv32, n: nat)
    ensures BitSteps(Sum(a, b), n) == Sum(BitSteps(a, n), BitSteps(b, n))
  {
    hide BitStep;
    hide Sum;
    if n > 0 {
      StepsAreLinear(a, b, n - 1);
      StepIsLinear(BitSteps(a, n - 1), BitSteps(b, n - 1));
    }
  }

  lemma {:induction false} StepsAdd(c: bv32, m: nat, n: nat)
    ensures BitSteps(c, m + n) == BitSteps(BitSteps(c, m), n)
  {
    if n > 0 {
      StepsAdd(c, m, n - 1);
    }
  }

  /** Eight zero bits at the low end are simply shifted out. */
  lemma ZeroByteShiftsOut(y: bv32)
    requires y & 0xFF == 0
    ensures BitSteps(y, 8) == y >> 8
  {
    ZeroNibbleShiftsOut(y);
    ZeroNibbleShiftsOut(y >> 4);
    StepsAdd(y, 4, 4);
    ShiftTwice(y);
  }

  lemma ShiftTwice(y: bv32)
    ensures (y >> 4) >> 4 == y >> 8 && (y & 0xFF == 0 ==> y & 0xF == 0 && (y >> 4) & 0xF == 0)
  {
  }

  lemma ZeroNibbleShiftsOut(y: bv32)
    requires y & 0xF == 0
    ensures BitSteps(y, 4) == y >> 4
  {
    hide BitStep;
    hide Half;
    hide Odd;
    NibbleBits(y);
    EvenStep(y);
    EvenStep(Half(y));
    EvenStep(Half(Half(y)));
    EvenStep(Half(Half(Half(y))));
    assert BitSteps(y, 2) == BitStep(BitStep(BitSteps(y, 0)));
    assert BitSteps(y, 4) == BitStep(BitStep(BitSteps(y, 2)));
  }

  lemma NibbleBits(y: bv32)
    requires y & 0xF == 0
    ensures !Odd(y) && !Odd(Half(y)) && !Odd(Half(Half(y))) && !Odd(Half(Half(Half(y))))
    ensures Half(Half(Half(Half(y)))) == y >> 4
  {
  }

  // ------------------------------------------------------- four bytes at once

  function Upper(w: bv32): bv32 {
    w & 0xFFFFFF00
  }

  function Low(w: bv32): bv8 {
    (w & 0xFF) as bv8
  }

  function Fed(c: bv32, b: bv8): bv32 {
    Sum(c, b as bv32)
  }

  lemma LowAndUpper(w: bv32)
    ensures w == Sum(Low(w) as bv32, Upper(w))
  {
  }

  lemma FedAndUpper(c: bv32, w: bv32)
    ensures Sum(c, w) == Sum(Fed(c, Low(w)), Upper(w))
  {
    hide Sum;
    hide Low;
    hide Upper;
    LowAndUpper(w);
    Associates(c, Low(w) as bv32, Upper(w));
  }

  lemma UpperIsRest(w: bv32)
    ensures Upper(w) & 0xFF == 0 && Upper(w) >> 8 == Rest(w)
  {
  }

  lemma UpperShiftsOut(w: bv32)
    ensures BitSteps(Upper(w), 8) == Rest(w)
  {
    UpperIsRest(w);
    ZeroByteShiftsOut(Upper(w));
  }

  lemma ByteStepIsFed(c: bv32, b: bv8)
    ensures ByteStep(c, b) == BitSteps(Fed(c, b), 8)
  {
  }

  /** Feeding the low byte of a word leaves the register as eight steps on the sum leave it, less the rest. */
  lemma FeedLowByte(c: bv32, w: bv32, b: bv8)
    requires b == Low(w)
    ensures BitSteps(Sum(c, w), 8) == Sum(ByteStep(c, b), Rest(w))
  {
    hide BitSteps;
    hide ByteStep;
    hide Sum;
    hide Fed;
    hide Upper;
    hide Rest;
    hide Low;
    FedAndUpper(c, w);
    StepsAreLinear(Fed(c, b), Upper(w), 8);
    UpperShiftsOut(w);
    ByteStepIsFed(c, b);
  }

  lemma NothingToAdd(c: bv32, w: bv32)
    requires Rest(w) == 0
    ensures Sum(c, Rest(w)) == c
  {
  }

  lemma BytesOfRests(w: bv32)
    ensures ByteOf(w, 1) == Low(Rest(w)) && ByteOf(w, 2) == Low(Rest(Rest(w)))
    ensures ByteOf(w, 3) == Low(Rest(Rest(Rest(w)))) && Rest(Rest(Rest(Rest(w)))) == 0
  {
  }

  lemma OneMoreByte(c: bv32, data: seq<bv8>, b: bv8)
    ensures Update(c, data + [b]) == ByteStep(Update(c, data), b)
  {
    hide ByteStep;
    assert (data + [b])[..|data|] == data;
  }

  lemma UpdateFour(c: bv32, b0: bv8, b1: bv8, b2: bv8, b3: bv8)
    ensures Update(c, [b0, b1, b2, b3]) == ByteStep(ByteStep(ByteStep(ByteStep(c, b0), b1), b2), b3)
  {
    hide ByteStep;
    OneMoreByte(c, [], b0);
    OneMoreByte(c, [b0], b1);
    OneMoreByte(c, [b0, b1], b2);
    OneMoreByte(c, [b0, b1, b2], b3);
    assert [] + [b0] == [b0] && [b0] + [b1] == [b0, b1];
    assert [b0, b1] + [b2] == [b0, b1, b2] && [b0, b1, b2] + [b3] == [b0, b1, b2, b3];
  }

  /** Feeding the four bytes of a word is 32 steps on the sum of register and word. */
  lemma FeedWord(c: bv32, w: bv32)
    ensures Update(c, LittleEndian(w)) == BitSteps(Sum(c, w), 32)
  {
    hide BitSteps;
    hide ByteStep;
    hide Sum;
    hide Rest;
    hide ByteOf;
    hide Low;
    hide Update;
    var w1 := Rest(w);
    var w2 := Rest(w1);
    var w3 := Rest(w2);
    BytesOfRests(w);
    var b0, b1, b2, b3 := ByteOf(w, 0), ByteOf(w, 1), ByteOf(w, 2), ByteOf(w, 3);
    UpdateFour(c, b0, b1, b2, b3);
    var c1 := ByteStep(c, b0);
    var c2 := ByteStep(c1, b1);
    var c3 := ByteStep(c2, b2);
    LowByte(w);
    FeedLowByte(c, w, b0);
    FeedLowByte(c1, w1, b1);
    FeedLowByte(c2, w2, b2);
    FeedLowByte(c3, w3, b3);
    NothingToAdd(ByteStep(c3, b3), w3);
    ThirtyTwo(Sum(c, w), Sum(c1, w1), Sum(c2, w2), Sum(c3, w3), ByteStep(c3, b3));
  }

  lemma LowByte(w: bv32)
    ensures ByteOf(w, 0) == Low(w)
  {
  }

  lemma ThirtyTwo(x0: bv32, x1: bv32, x2: bv32, x3: bv32, x4: bv32)
    requires BitSteps(x0, 8) == x1 && BitSteps(x1, 8) == x2 && BitSteps(x2, 8) == x3 && BitSteps(x3, 8) == x4
    ensures BitSteps(x0, 32) == x4
  {
    StepsAdd(x0, 8, 24);
    StepsAdd(x1, 8, 16);
    StepsAdd(x2, 8, 8);
  }

  // ------------------------------------------------------------------ the law

  lemma OnesAfterByte()
    ensures BitSteps(0xFFFFFFFF, 8) == 0x2DFD1072
  {
    EightSteps(0xFFFFFFFF);
  }

  /** Eight steps written out. */
  lemma EightSteps(c: bv32)
    ensures BitSteps(c, 8) == BitStep(BitStep(BitStep(BitStep(BitStep(BitStep(BitStep(BitStep(c))))))))
  {
    assert BitSteps(c, 1) == BitStep(c);
    assert BitSteps(c, 3) == BitStep(BitStep(BitSteps(c, 1)));
    assert BitSteps(c, 5) == BitStep(BitStep(BitSteps(c, 3)));
    assert BitSteps(c, 7) == BitStep(BitStep(BitSteps(c, 5)));
  }

  lemma OnesAfterWord()
    ensures BitSteps(0xFFFFFFFF, 32) == RESIDUE
  {
    OnesAfterByte();
    EightSteps(0x2DFD1072);
    EightSteps(0xBE26ED00);
    EightSteps(0x00BE26ED);
    ThirtyTwo(0xFFFFFFFF, 0x2DFD1072, 0xBE26ED00, 0x00BE26ED, RESIDUE);
  }

  lemma FinalIsComplement(c: bv32)
    ensures Sum(c, Final(c)) == 0xFFFFFFFF
  {
  }

  /** The residue. Every message followed by its checksum, least significant byte first, ends at one register value. */
  lemma ResidueLaw(data: seq<bv8>)
    ensures Update(INITIAL, data + LittleEndian(Crc(data))) == RESIDUE
  {
    hide Sum;
    hide BitSteps;
    hide ByteStep;
    var c := Update(INITIAL, data);
    UpdateInChunks(INITIAL, data, LittleEndian(Crc(data)));
    FeedWord(c, Crc(data));
    FinalIsComplement(c);
    OnesAfterWord();
  }

  lemma SumTells(c: bv32, v: bv32, w: bv32)
    requires Sum(c, v) == Sum(c, w)
    ensures v == w
  {
  }

  /** And it is the checksum alone that does so. */
  lemma ResidueTellsChecksum(data: seq<bv8>, w: bv32)
    ensures Update(INITIAL, data + LittleEndian(w)) == RESIDUE <==> w == Crc(data)
  {
    hide BitSteps;
    hide Update;
    hide Sum;
    hide Crc;
    hide LittleEndian;
    ResidueLaw(data);
    if Update(INITIAL, data + LittleEndian(w)) == RESIDUE {
      SameEndSameWord(data, w, Crc(data));
    }
  }

  lemma SameEndSameWord(data: seq<bv8>, v: bv32, w: bv32)
    requires Update(INITIAL, data + LittleEndian(v)) == Update(INITIAL, data + LittleEndian(w))
    ensures v == w
  {
    hide BitSteps;
    hide Update;
    hide Sum;
    hide LittleEndian;
    var c := Update(INITIAL, data);
    UpdateInChunks(INITIAL, data, LittleEndian(v));
    UpdateInChunks(INITIAL, data, LittleEndian(w));
    FeedWord(c, v);
    FeedWord(c, w);
    BitStepsInjective(Sum(c, v), Sum(c, w), 32);
    SumTells(c, v, w);
  }

  lemma Digit(c: bv32, b: bv8, next: bv32)
    requires var x := c ^ (b as bv32);
             BitStep(BitStep(BitStep(BitStep(BitStep(BitStep(BitStep(BitStep(x)))))))) == next
    ensures ByteStep(c, b) == next
  {
    EightSteps(c ^ (b as bv32));
  }

  lemma FirstDigits()
    ensures Update(INITIAL, [0x31, 0x32, 0x33, 0x34]) == 0x641C1F5C
  {
    UpdateFour(INITIAL, 0x31, 0x32, 0x33, 0x34);
    Digit(INITIAL, 0x31, 0x7C231048);
    Digit(0x7C231048, 0x32, 0xB0ACBB32);
    Digit(0xB0ACBB32, 0x33, 0x77B79C2D);
    Digit(0x77B79C2D, 0x34, 0x641C1F5C);
  }

  lemma NextDigits()
    ensures Update(0x641C1F5C, [0x35, 0x36, 0x37, 0x38]) == 0x651F2550
  {
    UpdateFour(0x641C1F5C, 0x35, 0x36, 0x37, 0x38);
    Digit(0x641C1F5C, 0x35, 0x340AC5E3);
    Digit(0x340AC5E3, 0x36, 0xF68D2C9E);
    Digit(0xF68D2C9E, 0x37, 0xAFFC9660);
    Digit(0xAFFC9660, 0x38, 0x651F2550);
  }

  /** The check value: the checksum of the digits "123456789". */
  lemma CheckValue()
    ensures Crc([0x31, 0x32, 0x33, 0x34, 0x35, 0x36, 0x37, 0x38, 0x39]) == 0xCBF43926
  {
    var first: seq<bv8>, next: seq<bv8> := [0x31, 0x32, 0x33, 0x34], [0x35, 0x36, 0x37, 0x38];
    FirstDigits();
    NextDigits();
    UpdateInChunks(INITIAL, first, next);
    OneMoreByte(INITIAL, first + next, 0x39);
    Digit(0x651F2550, 0x39, 0x340BC6D9);
    assert first + next + [0x39] == [0x31, 0x32, 0x33, 0x34, 0x35, 0x36, 0x37, 0x38, 0x39];
  }
}
