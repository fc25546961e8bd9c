/**
 * The CRC-32 of the ZIP format (section 4.4.7 of the PKWARE APPNOTE),
 * computed the way src/lib.rs computes it: as a bit-serial long division
 * of the message by the generator polynomial 0x04C11DB7.
 *
 * Each pushed byte is first bit-reversed. The first four reversed bytes are
 * complemented and loaded into the 32-bit register without division. From
 * the fifth byte on, every bit is shifted into the register from the
 * bottom; whenever the bit shifted out at the top was set, the divisor is
 * XORed in. Reading the checksum appends four zero bytes, reverses the 32
 * register bits and complements the result.
 *
 * The reference is the usual table-free reflected CRC-32 (initial value
 * 0xFFFFFFFF, reflected input and output, final complement).
 * `GetCrc32IsReflectedCrc32` proves the two agree on every message.
 */
module Crc32 {
  import opened Bits

  /** The generator polynomial of CRC-32 without its x^32 term. */
  const Divisor: bv32 := 0x04C1_1DB7

  /** The register state of the source's CRC; `nonDivisor` is the running remainder. */
  datatype Crc32 = Crc32(divisor: bv32, nonDivisor: bv32, firstCount: nat)

  function New(): Crc32
  {
    Crc32(Divisor, 0, 0)
  }

  /**
   * One round of the division: shift `bit` in at the bottom and, when the
   * bit shifted out at the top was set, subtract (XOR) the divisor.
   */
  function DivideBit(divisor: bv32, r: bv32, bit: bool): bv32
  {
    var shifted := (r << 1) | (if bit then 1 else 0);
    if r >= 0x8000_0000 then shifted ^ divisor else shifted
  }

  /**
   * The eight division rounds of one byte, fed with the bits of `buffer`
   * from the most significant down (round `i` reads bit `7 - i`).
   */
  function Comp(divisor: bv32, r: bv32, buffer: bv8): bv32
  {
    var r1 := DivideBit(divisor, r, buffer & 0x80 != 0);
    var r2 := DivideBit(divisor, r1, buffer & 0x40 != 0);
    var r3 := DivideBit(divisor, r2, buffer & 0x20 != 0);
    var r4 := DivideBit(divisor, r3, buffer & 0x10 != 0);
    var r5 := DivideBit(divisor, r4, buffer & 0x08 != 0);
    var r6 := DivideBit(divisor, r5, buffer & 0x04 != 0);
    var r7 := DivideBit(divisor, r6, buffer & 0x02 != 0);
    DivideBit(divisor, r7, buffer & 0x01 != 0)
  }

  /** One priming step: move the register up a byte and load the complement of `buffer` below. */
  function Prime(r: bv32, buffer: bv8): bv32
  {
    (r << 8) | ((!buffer) as bv32)
  }

  /** Feed one byte to the CRC. */
  function PushBuf(st: Crc32, b: bv8): (st': Crc32)
    ensures st'.divisor == st.divisor
    ensures st'.firstCount == if st.firstCount < 4 then st.firstCount + 1 else st.firstCount
  {
    var buffer := Reverse8(b);
    if st.firstCount < 4 then
      st.(nonDivisor := Prime(st.nonDivisor, buffer), firstCount := st.firstCount + 1)
    else
      st.(nonDivisor := Comp(st.divisor, st.nonDivisor, buffer))
  }

  /** Feed the bytes of `data` to the CRC in order. */
  function PushAll(st: Crc32, data: seq<bv8>): Crc32
    decreases |data|
  {
    if |data| == 0 then st
    else PushBuf(PushAll(st, data[..|data| - 1]), data[|data| - 1])
  }

  /**
   * Read the checksum. Like the source, this pushes four zero bytes into
   * the state, so the state after the call is returned too.
   */
  function GetCrc32(st: Crc32): (bv32, Crc32)
  {
    var after := PushAll(st, [0, 0, 0, 0]);
    (Complement(Reverse32(after.nonDivisor)), after)
  }

  // ---------------------------------------------------------------------
  // The reference: reflected CRC-32.
  // ---------------------------------------------------------------------

  /** The reflected generator polynomial. */
  const ReflectedPoly: bv32 := 0xEDB8_8320

  /** One round of the reflected CRC: shift right, XOR the polynomial if a one fell out. */
  function RefShift(c: bv32): bv32
  {
    if c & 1 == 1 then (c >> 1) ^ ReflectedPoly else c >> 1
  }

  function RefRounds(c: bv32, k: nat): bv32
    decreases k
  {
    if k == 0 then c else RefRounds(RefShift(c), k - 1)
  }

  /** One byte of the reflected CRC: XOR the byte in at the bottom, then eight rounds. */
  function RefByte(c: bv32, b: bv8): bv32
  {
    RefRounds(c ^ b as bv32, 8)
  }

  function RefUpdate(c: bv32, data: seq<bv8>): bv32
    decreases |data|
  {
    if |data| == 0 then c
    else RefByte(RefUpdate(c, data[..|data| - 1]), data[|data| - 1])
  }

  /** The CRC-32 of `data`: initial value all ones, final complement. */
  function RefCrc32(data: seq<bv8>): bv32
  {
    Complement(RefUpdate(0xFFFF_FFFF, data))
  }

  // ---------------------------------------------------------------------
  // The constants.
  // ---------------------------------------------------------------------

  /**
   * The divisor is x^26 + x^23 + x^22 + x^16 + x^12 + x^11 + x^10 + x^8
   * + x^7 + x^5 + x^4 + x^2 + x + 1, the CRC-32 polynomial without x^32,
   * and the reflected constant is its bit reversal.
   */
  lemma DivisorIsCrc32Polynomial()
    ensures Divisor == (1 << 26) | (1 << 23) | (1 << 22) | (1 << 16) | (1 << 12) | (1 << 11)
                       | (1 << 10) | (1 << 8) | (1 << 7) | (1 << 5) | (1 << 4) | (1 << 2) | (1 << 1) | 1
    ensures Reverse32(Divisor) == ReflectedPoly
  {
  }

  // ---------------------------------------------------------------------
  // One division round against one reflected round.
  //
  // While the division runs, the register holds the bit reversal of
  // `s ^ y`: `s` is the reflected CRC state and `y` holds the message bits
  // that the register has taken in but the reflected CRC has not yet seen.
  // The lemmas below take every intermediate value as a parameter or hand
  // it out as a result, so that each proof obligation only chains
  // equalities between named words.
  // ---------------------------------------------------------------------

  lemma BitStep(s: bv32, y: bv32, bit: bool)
    requires y & 1 == 0
    ensures DivideBit(Divisor, Reverse32(s ^ y), bit)
            == Reverse32(RefShift(s) ^ ((y >> 1) | (if bit then 0x8000_0000 else 0)))
  {
  }

  /** The pending word moves down one place and takes in `bit` at the top. */
  predicate PendStep(y: bv32, bit: bool, y': bv32)
  {
    y & 1 == 0 && y' == (y >> 1) | (if bit then 0x8000_0000 else 0)
  }

  /** One round on both sides: the reflected state moves from `s` to `s'`, the pending word from `y` to `y'`. */
  predicate Step(s: bv32, y: bv32, bit: bool, s': bv32, y': bv32)
  {
    s' == RefShift(s) && PendStep(y, bit, y')
  }

  lemma StepRound(s: bv32, y: bv32, bit: bool, s': bv32, y': bv32)
    requires Step(s, y, bit, s', y')
    ensures DivideBit(Divisor, Reverse32(s ^ y), bit) == Reverse32(s' ^ y')
  {
    BitStep(s, y, bit);
  }

  /** Eight rounds on both sides, with `buffer` supplying the bits from the most significant down. */
  predicate Rounds8(s0: bv32, s1: bv32, s2: bv32, s3: bv32, s4: bv32, s5: bv32, s6: bv32, s7: bv32, s8: bv32,
                    y0: bv32, y1: bv32, y2: bv32, y3: bv32, y4: bv32, y5: bv32, y6: bv32, y7: bv32, y8: bv32,
                    buffer: bv8)
  {
    && Step(s0, y0, buffer & 0x80 != 0, s1, y1) && Step(s1, y1, buffer & 0x40 != 0, s2, y2)
    && Step(s2, y2, buffer & 0x20 != 0, s3, y3) && Step(s3, y3, buffer & 0x10 != 0, s4, y4)
    && Step(s4, y4, buffer & 0x08 != 0, s5, y5) && Step(s5, y5, buffer & 0x04 != 0, s6, y6)
    && Step(s6, y6, buffer & 0x02 != 0, s7, y7) && Step(s7, y7, buffer & 0x01 != 0, s8, y8)
  }

  /** Eight division rounds track eight reflected rounds. */
  lemma EightRounds(x0: bv32, s0: bv32, s1: bv32, s2: bv32, s3: bv32, s4: bv32, s5: bv32, s6: bv32, s7: bv32, s8: bv32,
                    y0: bv32, y1: bv32, y2: bv32, y3: bv32, y4: bv32, y5: bv32, y6: bv32, y7: bv32, y8: bv32,
                    x8: bv32, buffer: bv8)
    requires x0 == s0 ^ y0 && x8 == s8 ^ y8
    requires Rounds8(s0, s1, s2, s3, s4, s5, s6, s7, s8, y0, y1, y2, y3, y4, y5, y6, y7, y8, buffer)
    ensures Comp(Divisor, Reverse32(x0), buffer) == Reverse32(x8)
  {
    StepRound(s0, y0, buffer & 0x80 != 0, s1, y1);
    StepRound(s1, y1, buffer & 0x40 != 0, s2, y2);
    StepRound(s2, y2, buffer & 0x20 != 0, s3, y3);
    StepRound(s3, y3, buffer & 0x10 != 0, s4, y4);
    StepRound(s4, y4, buffer & 0x08 != 0, s5, y5);
    StepRound(s5, y5, buffer & 0x04 != 0, s6, y6);
    StepRound(s6, y6, buffer & 0x02 != 0, s7, y7);
    StepRound(s7, y7, buffer & 0x01 != 0, s8, y8);
  }

  lemma EightRefRounds(s0: bv32, s1: bv32, s2: bv32, s3: bv32, s4: bv32, s5: bv32, s6: bv32, s7: bv32, s8: bv32)
    requires s1 == RefShift(s0) && s2 == RefShift(s1) && s3 == RefShift(s2) && s4 == RefShift(s3)
    requires s5 == RefShift(s4) && s6 == RefShift(s5) && s7 == RefShift(s6) && s8 == RefShift(s7)
    ensures RefRounds(s0, 8) == s8
  {
    assert RefRounds(s7, 1) == s8;
    assert RefRounds(s6, 2) == s8;
    assert RefRounds(s5, 3) == s8;
    assert RefRounds(s4, 4) == s8;
    assert RefRounds(s3, 5) == s8;
    assert RefRounds(s2, 6) == s8;
    assert RefRounds(s1, 7) == s8;
  }

  /** The eight reflected states of one byte `a` starting from `c`. */
  lemma RefChain(c: bv32, a: bv8)
    returns (s0: bv32, s1: bv32, s2: bv32, s3: bv32, s4: bv32, s5: bv32, s6: bv32, s7: bv32, s8: bv32)
    ensures s0 == c ^ a as bv32
    ensures s1 == RefShift(s0) && s2 == RefShift(s1) && s3 == RefShift(s2) && s4 == RefShift(s3)
    ensures s5 == RefShift(s4) && s6 == RefShift(s5) && s7 == RefShift(s6) && s8 == RefShift(s7)
    ensures s8 == RefByte(c, a)
  {
    s0 := c ^ a as bv32;
    s1 := RefShift(s0);
    s2 := RefShift(s1);
    s3 := RefShift(s2);
    s4 := RefShift(s3);
    s5 := RefShift(s4);
    s6 := RefShift(s5);
    s7 := RefShift(s6);
    s8 := RefShift(s7);
    EightRefRounds(s0, s1, s2, s3, s4, s5, s6, s7, s8);
  }

  /**
   * The pending words while `buffer`, the reversal of `b`, is divided in:
   * they start as the upper three bytes of the window and end as the
   * window moved on by one byte, with `b` on top.
   */
  lemma PendChain(window: bv32, b: bv8, buffer: bv8)
    returns (y0: bv32, y1: bv32, y2: bv32, y3: bv32, y4: bv32, y5: bv32, y6: bv32, y7: bv32, y8: bv32)
    requires buffer == Reverse8(b)
    ensures y0 == window & 0xFFFF_FF00
    ensures PendStep(y0, buffer & 0x80 != 0, y1) && PendStep(y1, buffer & 0x40 != 0, y2)
    ensures PendStep(y2, buffer & 0x20 != 0, y3) && PendStep(y3, buffer & 0x10 != 0, y4)
    ensures PendStep(y4, buffer & 0x08 != 0, y5) && PendStep(y5, buffer & 0x04 != 0, y6)
    ensures PendStep(y6, buffer & 0x02 != 0, y7) && PendStep(y7, buffer & 0x01 != 0, y8)
    ensures y8 == (window >> 8) | (b as bv32 << 24)
  {
    y0 := window & 0xFFFF_FF00;
    y1 := (y0 >> 1) | (if buffer & 0x80 != 0 then 0x8000_0000 else 0);
    y2 := (y1 >> 1) | (if buffer & 0x40 != 0 then 0x8000_0000 else 0);
    y3 := (y2 >> 1) | (if buffer & 0x20 != 0 then 0x8000_0000 else 0);
    y4 := (y3 >> 1) | (if buffer & 0x10 != 0 then 0x8000_0000 else 0);
    y5 := (y4 >> 1) | (if buffer & 0x08 != 0 then 0x8000_0000 else 0);
    y6 := (y5 >> 1) | (if buffer & 0x04 != 0 then 0x8000_0000 else 0);
    y7 := (y6 >> 1) | (if buffer & 0x02 != 0 then 0x8000_0000 else 0);
    y8 := (y7 >> 1) | (if buffer & 0x01 != 0 then 0x8000_0000 else 0);
    PendingWords(window, buffer);
    Reverse8Involution(b);
  }

  lemma PendingWords(window: bv32, buffer: bv8)
    ensures var y0 := window & 0xFFFF_FF00;
      var y1 := (y0 >> 1) | (if buffer & 0x80 != 0 then 0x8000_0000 else 0);
      var y2 := (y1 >> 1) | (if buffer & 0x40 != 0 then 0x8000_0000 else 0);
      var y3 := (y2 >> 1) | (if buffer & 0x20 != 0 then 0x8000_0000 else 0);
      var y4 := (y3 >> 1) | (if buffer & 0x10 != 0 then 0x8000_0000 else 0);
      var y5 := (y4 >> 1) | (if buffer & 0x08 != 0 then 0x8000_0000 else 0);
      var y6 := (y5 >> 1) | (if buffer & 0x04 != 0 then 0x8000_0000 else 0);
      var y7 := (y6 >> 1) | (if buffer & 0x02 != 0 then 0x8000_0000 else 0);
      var y8 := (y7 >> 1) | (if buffer & 0x01 != 0 then 0x8000_0000 else 0);
      && y0 & 1 == 0 && y1 & 1 == 0 && y2 & 1 == 0 && y3 & 1 == 0
      && y4 & 1 == 0 && y5 & 1 == 0 && y6 & 1 == 0 && y7 & 1 == 0
      && y8 == (window >> 8) | (Reverse8(buffer) as bv32 << 24)
  {
  }

  /** Four message bytes as a little-endian word: the first byte in the low byte. */
  function Word(a0: bv8, a1: bv8, a2: bv8, a3: bv8): bv32
  {
    (a0 as bv32) | ((a1 as bv32) << 8) | ((a2 as bv32) << 16) | ((a3 as bv32) << 24)
  }

  /** Moving the word on by one byte drops its first byte and puts `b` on top. */
  lemma WordShift(a0: bv8, a1: bv8, a2: bv8, a3: bv8, b: bv8)
    ensures (Word(a0, a1, a2, a3) & 0xFF) as bv8 == a0
    ensures (Word(a0, a1, a2, a3) >> 8) | ((b as bv32) << 24) == Word(a1, a2, a3, b)
  {
  }

  /** The two ends of the byte round, as XORs of the two chains. */
  lemma RoundEnds(c: bv32, a0: bv8, a1: bv8, a2: bv8, a3: bv8, b: bv8, s0: bv32, y0: bv32, s8: bv32, y8: bv32)
    requires s0 == c ^ a0 as bv32 && y0 == Word(a0, a1, a2, a3) & 0xFFFF_FF00
    requires s8 == RefByte(c, a0) && y8 == (Word(a0, a1, a2, a3) >> 8) | (b as bv32 << 24)
    ensures c ^ Word(a0, a1, a2, a3) == s0 ^ y0
    ensures RefByte(c, a0) ^ Word(a1, a2, a3, b) == s8 ^ y8
  {
    WordShift(a0, a1, a2, a3, b);
  }

  /** Both chains of one byte round, with their two ends written as XORs. */
  lemma ByteChains(c: bv32, a0: bv8, a1: bv8, a2: bv8, a3: bv8, b: bv8)
    returns (s0: bv32, s1: bv32, s2: bv32, s3: bv32, s4: bv32, s5: bv32, s6: bv32, s7: bv32, s8: bv32,
             y0: bv32, y1: bv32, y2: bv32, y3: bv32, y4: bv32, y5: bv32, y6: bv32, y7: bv32, y8: bv32)
    ensures c ^ Word(a0, a1, a2, a3) == s0 ^ y0
    ensures RefByte(c, a0) ^ Word(a1, a2, a3, b) == s8 ^ y8
    ensures Rounds8(s0, s1, s2, s3, s4, s5, s6, s7, s8, y0, y1, y2, y3, y4, y5, y6, y7, y8, Reverse8(b))
  {
    s0, s1, s2, s3, s4, s5, s6, s7, s8 := RefChain(c, a0);
    y0, y1, y2, y3, y4, y5, y6, y7, y8 := PendChain(Word(a0, a1, a2, a3), b, Reverse8(b));
    RoundEnds(c, a0, a1, a2, a3, b, s0, y0, s8, y8);
  }

  /**
   * The division of one byte `b` against one byte of the reflected CRC.
   * The register holds the reversal of the reflected state `c` XORed with
   * the window `a0 .. a3` of the next four message bytes. Dividing `b` in
   * hands `a0` to the reflected CRC and moves `b` into the window.
   */
  lemma ByteRound(c: bv32, a0: bv8, a1: bv8, a2: bv8, a3: bv8, b: bv8)
    ensures Comp(Divisor, Reverse32(c ^ Word(a0, a1, a2, a3)), Reverse8(b))
            == Reverse32(RefByte(c, a0) ^ Word(a1, a2, a3, b))
  {
    var s0, s1, s2, s3, s4, s5, s6, s7, s8, y0, y1, y2, y3, y4, y5, y6, y7, y8 := ByteChains(c, a0, a1, a2, a3, b);
    EightRounds(c ^ Word(a0, a1, a2, a3), s0, s1, s2, s3, s4, s5, s6, s7, s8, y0, y1, y2, y3, y4, y5, y6, y7, y8,
                RefByte(c, a0) ^ Word(a1, a2, a3, b), Reverse8(b));
  }

  // ---------------------------------------------------------------------
  // The whole message.
  //
  // Once four bytes are in, the register holds the reversal of the
  // reflected CRC of all but the last four bytes, XORed with those four
  // bytes as a little-endian word.
  // ---------------------------------------------------------------------

  /** The register holds the reflected state `c` and the window `a0 .. a3`. */
  predicate Tracks(st: Crc32, c: bv32, a0: bv8, a1: bv8, a2: bv8, a3: bv8)
  {
    st.divisor == Divisor && st.firstCount == 4 && st.nonDivisor == Reverse32(c ^ Word(a0, a1, a2, a3))
  }

  /** Pushing a fifth byte hands the window's first byte to the reflected CRC. */
  lemma TrackByte(st: Crc32, c: bv32, a0: bv8, a1: bv8, a2: bv8, a3: bv8, b: bv8,
                   st': Crc32, c': bv32, a1': bv8, a2': bv8, a3': bv8)
    requires Tracks(st, c, a0, a1, a2, a3)
    requires st' == PushBuf(st, b) && c' == RefByte(c, a0) && a1' == a1 && a2' == a2 && a3' == a3
    ensures Tracks(st', c', a1', a2', a3', b)
  {
    ByteRound(c, a0, a1, a2, a3, b);
  }

  /** The four priming pushes load the complement of the window, reversed. */
  lemma PrimeWord(a0: bv8, a1: bv8, a2: bv8, a3: bv8)
    ensures Prime(Prime(Prime(Prime(0, Reverse8(a0)), Reverse8(a1)), Reverse8(a2)), Reverse8(a3))
            == Reverse32(0xFFFF_FFFF ^ Word(a0, a1, a2, a3))
  {
    ComplementBytes(a0, a1, a2, a3);
    Reverse8Not(a0);
    Reverse8Not(a1);
    Reverse8Not(a2);
    Reverse8Not(a3);
    PrimeBytes(Reverse8(a0), Reverse8(a1), Reverse8(a2), Reverse8(a3));
  }

  lemma ComplementBytes(a0: bv8, a1: bv8, a2: bv8, a3: bv8)
    ensures ((0xFFFF_FFFF ^ Word(a0, a1, a2, a3)) & 0xFF) as bv8 == !a0
    ensures (((0xFFFF_FFFF ^ Word(a0, a1, a2, a3)) >> 8) & 0xFF) as bv8 == !a1
    ensures (((0xFFFF_FFFF ^ Word(a0, a1, a2, a3)) >> 16) & 0xFF) as bv8 == !a2
    ensures (((0xFFFF_FFFF ^ Word(a0, a1, a2, a3)) >> 24) & 0xFF) as bv8 == !a3
  {
  }

  lemma Reverse8Not(a: bv8)
    ensures Reverse8(!a) == !Reverse8(a)
  {
  }

  lemma PrimeBytes(p0: bv8, p1: bv8, p2: bv8, p3: bv8)
    ensures Prime(Prime(Prime(Prime(0, p0), p1), p2), p3) == Join(!p0, !p1, !p2, !p3)
  {
  }

  /** Pushing `data` and then `b` is pushing `data + [b]`. */
  lemma PushAllSnoc(st: Crc32, data: seq<bv8>, b: bv8)
    ensures PushAll(st, data + [b]) == PushBuf(PushAll(st, data), b)
  {
    assert (data + [b])[..|data|] == data;
  }

  /** While fewer than four bytes are in, a push is a priming step. */
  lemma PrimeStep(data: seq<bv8>, b: bv8, r: bv32)
    requires |data| < 4 && PushAll(New(), data) == Crc32(Divisor, r, |data|)
    ensures PushAll(New(), data + [b]) == Crc32(Divisor, Prime(r, Reverse8(b)), |data| + 1)
  {
    PushAllSnoc(New(), data, b);
  }

  /** Four pushes into a fresh state load four priming steps. */
  lemma PrimedState(a0: bv8, a1: bv8, a2: bv8, a3: bv8)
    ensures PushAll(New(), [a0, a1, a2, a3])
            == Crc32(Divisor, Prime(Prime(Prime(Prime(0, Reverse8(a0)), Reverse8(a1)), Reverse8(a2)), Reverse8(a3)), 4)
  {
    var r1 := Prime(0, Reverse8(a0));
    var r2 := Prime(r1, Reverse8(a1));
    var r3 := Prime(r2, Reverse8(a2));
    PrimeStep([], a0, 0);
    assert [] + [a0] == [a0];
    PrimeStep([a0], a1, r1);
    assert [a0] + [a1] == [a0, a1];
    PrimeStep([a0, a1], a2, r2);
    assert [a0, a1] + [a2] == [a0, a1, a2];
    PrimeStep([a0, a1, a2], a3, r3);
    assert [a0, a1, a2] + [a3] == [a0, a1, a2, a3];
  }

  /** Four pushes into a fresh state prime the register with the reflected CRC's initial value. */
  lemma Primed(a0: bv8, a1: bv8, a2: bv8, a3: bv8)
    ensures Tracks(PushAll(New(), [a0, a1, a2, a3]), 0xFFFF_FFFF, a0, a1, a2, a3)
  {
    PrimedState(a0, a1, a2, a3);
    PrimeWord(a0, a1, a2, a3);
  }

  /**
   * After pushing `data` into a fresh state, the register tracks the
   * reflected CRC of all but the last four bytes, with those four as the window.
   */
  predicate TracksMessage(data: seq<bv8>)
    requires |data| >= 4
  {
    var n := |data|;
    Tracks(PushAll(New(), data), RefUpdate(0xFFFF_FFFF, data[..n - 4]), data[n - 4], data[n - 3], data[n - 2], data[n - 1])
  }

  lemma TracksFour(data: seq<bv8>)
    requires |data| == 4
    ensures TracksMessage(data)
  {
    assert data == [data[0], data[1], data[2], data[3]];
    Primed(data[0], data[1], data[2], data[3]);
    assert data[..0] == [];
  }

  /**
   * From the fourth byte on, the register tracks the reflected CRC of all
   * but the last four bytes, with the last four bytes as the window.
   */
  lemma {:induction false} PushAllTracks(data: seq<bv8>)
    requires |data| >= 4
    ensures TracksMessage(data)
    decreases |data|
  {
    var n := |data|;
    if n == 4 {
      TracksFour(data);
    } else {
      PushAllTracks(data[..n - 1]);
      TracksNext(data);
    }
  }

  /** The inductive step: one more byte after the fourth. */
  lemma TracksNext(data: seq<bv8>)
    requires |data| > 4
    requires TracksMessage(data[..|data| - 1])
    ensures TracksMessage(data)
  {
    var n := |data|;
    var prev := data[..n - 1];
    var c := RefUpdate(0xFFFF_FFFF, prev[..n - 5]);
    assert data[..n - 4][..n - 5] == prev[..n - 5];
    TrackByte(PushAll(New(), prev), c, prev[n - 5], prev[n - 4], prev[n - 3], prev[n - 2], data[n - 1],
              PushAll(New(), data), RefUpdate(0xFFFF_FFFF, data[..n - 4]), data[n - 4], data[n - 3], data[n - 2]);
  }

  /** Pushing `a` and then `b` is pushing `a + b`. */
  lemma {:induction false} PushAllAppend(st: Crc32, a: seq<bv8>, b: seq<bv8>)
    ensures PushAll(st, a + b) == PushAll(PushAll(st, a), b)
    decreases |b|
  {
    if |b| == 0 {
      assert a + b == a;
    } else {
      PushAllAppend(st, a, b[..|b| - 1]);
      assert (a + b)[..|a + b| - 1] == a + b[..|b| - 1];
    }
  }

  /** Pushing four zero bytes after `data` leaves the reflected CRC of `data` and an all-zero window. */
  lemma TracksZeros(data: seq<bv8>)
    ensures Tracks(PushAll(PushAll(New(), data), [0, 0, 0, 0]), RefUpdate(0xFFFF_FFFF, data), 0, 0, 0, 0)
  {
    var zeros: seq<bv8> := [0, 0, 0, 0];
    var d := data + zeros;
    PushAllAppend(New(), data, zeros);
    PushAllTracks(d);
    assert d[..|d| - 4] == data;
    assert d[|d| - 4] == 0 && d[|d| - 3] == 0 && d[|d| - 2] == 0 && d[|d| - 1] == 0;
  }

  /** Reading out a register whose window is all zero gives the reflected state. */
  lemma ReadOut(st: Crc32, c: bv32)
    requires Tracks(st, c, 0, 0, 0, 0)
    ensures Reverse32(st.nonDivisor) == c
  {
    var x := c ^ Word(0, 0, 0, 0);
    ZeroWindow(c);
    assert Reverse32(x) == Reverse32(c);
    Reverse32Involution(c);
  }

  lemma ZeroWindow(c: bv32)
    ensures c ^ Word(0, 0, 0, 0) == c
  {
  }

  /**
   * The source's CRC equals the reflected CRC-32 for every message,
   * including messages shorter than four bytes and the empty one.
   */
  lemma GetCrc32IsReflectedCrc32(data: seq<bv8>)
    ensures GetCrc32(PushAll(New(), data)).0 == RefCrc32(data)
  {
    var st := PushAll(New(), data);
    TracksZeros(data);
    ReadOut(PushAll(st, [0, 0, 0, 0]), RefUpdate(0xFFFF_FFFF, data));
    ReadCrc(st, RefUpdate(0xFFFF_FFFF, data));
  }

  lemma ReadCrc(st: Crc32, c: bv32)
    requires Reverse32(PushAll(st, [0, 0, 0, 0]).nonDivisor) == c
    ensures GetCrc32(st).0 == Complement(c)
  {
  }

  /** Pushing keeps the divisor and counts the priming bytes up to four. */
  lemma {:induction false} PushAllCounts(data: seq<bv8>)
    ensures PushAll(New(), data).divisor == Divisor
    ensures PushAll(New(), data).firstCount == if |data| < 4 then |data| else 4
    decreases |data|
  {
    if |data| > 0 {
      PushAllCounts(data[..|data| - 1]);
    }
  }

  /** The checksum of the empty message is zero. */
  lemma EmptyCrc()
    ensures GetCrc32(New()).0 == 0
  {
    GetCrc32IsReflectedCrc32([]);
    assert PushAll(New(), []) == New();
  }

  /**
   * Reading the checksum is not repeatable: the four zero bytes it pushes
   * stay in the state, so a second read gives the CRC of the message with
   * four zero bytes appended.
   */
  lemma SecondRead(data: seq<bv8>)
    ensures GetCrc32(GetCrc32(PushAll(New(), data)).1).0 == RefCrc32(data + [0, 0, 0, 0])
  {
    PushAllAppend(New(), data, [0, 0, 0, 0]);
    GetCrc32IsReflectedCrc32(data + [0, 0, 0, 0]);
  }
}
