/**
 * Bit-level vocabulary shared by the bit writer and the CRC.
 *
 * A bit list is a `seq<bool>`. The bit list of a byte is read least
 * significant bit first, which is the order in which DEFLATE packs bits
 * into bytes (section 3.1.1 of RFC 1951).
 */
module Bits {

  /** `n` zero bits. */
  function Zeros(n: nat): (z: seq<bool>)
    ensures |z| == n
    ensures forall i :: 0 <= i < n ==> !z[i]
  {
    seq(n, _ => false)
  }

  /** The elements of `s` in the opposite order. */
  function Reverse<T>(s: seq<T>): (r: seq<T>)
    ensures |r| == |s|
    ensures forall i :: 0 <= i < |s| ==> r[i] == s[|s| - 1 - i]
  {
    seq(|s|, i requires 0 <= i < |s| => s[|s| - 1 - i])
  }

  lemma ReverseReverse<T>(s: seq<T>)
    ensures Reverse(Reverse(s)) == s
  {
  }

  lemma ReverseAppend<T>(a: seq<T>, b: seq<T>)
    ensures Reverse(a + b) == Reverse(b) + Reverse(a)
  {
  }

  /** Concatenation is associative. */
  lemma Regroup<T>(a: seq<T>, b: seq<T>, c: seq<T>)
    ensures a + b + c == a + (b + c)
  {
  }

  lemma EmptyFront<T>(e: seq<T>, x: seq<T>)
    requires |e| == 0
    ensures e + x == x
  {
  }

  /** The eight bits of `x`, least significant first: entry `i` is bit `i`. */
  function BitsOf(x: bv8): (bs: seq<bool>)
    ensures |bs| == 8
  {
    [x & 0x01 != 0, x & 0x02 != 0, x & 0x04 != 0, x & 0x08 != 0,
     x & 0x10 != 0, x & 0x20 != 0, x & 0x40 != 0, x & 0x80 != 0]
  }

  /** A sequence of length eight, spelled out element by element. */
  lemma Spelled8<T>(s: seq<T>)
    requires |s| == 8
    ensures s == [s[0], s[1], s[2], s[3], s[4], s[5], s[6], s[7]]
  {
  }

  /** The byte whose bits, least significant first, are `b0`, ..., `b7`. */
  function Byte8(b0: bool, b1: bool, b2: bool, b3: bool,
                 b4: bool, b5: bool, b6: bool, b7: bool): (x: bv8)
    ensures BitsOf(x) == [b0, b1, b2, b3, b4, b5, b6, b7]
  {
    (if b0 then 0x01 else 0) | (if b1 then 0x02 else 0)
    | (if b2 then 0x04 else 0) | (if b3 then 0x08 else 0)
    | (if b4 then 0x10 else 0) | (if b5 then 0x20 else 0)
    | (if b6 then 0x40 else 0) | (if b7 then 0x80 else 0)
  }

  /** The byte whose bits, least significant first, are `bs`. */
  function ByteOf(bs: seq<bool>): (x: bv8)
    requires |bs| == 8
    ensures BitsOf(x) == bs
  {
    Spelled8(bs);
    Byte8(bs[0], bs[1], bs[2], bs[3], bs[4], bs[5], bs[6], bs[7])
  }

  /** A byte is determined by its bits. */
  lemma ByteOfBitsOf(x: bv8)
    ensures ByteOf(BitsOf(x)) == x
  {
  }

  lemma BitsOfInjective(x: bv8, y: bv8)
    requires BitsOf(x) == BitsOf(y)
    ensures x == y
  {
    ByteOfBitsOf(x);
    ByteOfBitsOf(y);
  }

  /**
   * The byte with its eight bits in the opposite order: the value the
   * eight-round loops of the bit writer and of the CRC compute
   * (bit `i` of `x` lands in bit `7 - i`).
   */
  function Reverse8(x: bv8): bv8
  {
    ((x & 0x01) << 7) | ((x & 0x02) << 5) | ((x & 0x04) << 3) | ((x & 0x08) << 1)
    | ((x & 0x10) >> 1) | ((x & 0x20) >> 3) | ((x & 0x40) >> 5) | ((x & 0x80) >> 7)
  }

  /** The bit list of `Reverse8(x)` is the bit list of `x` reversed. */
  lemma Reverse8Bits(x: bv8)
    ensures BitsOf(Reverse8(x)) == Reverse(BitsOf(x))
  {
    var b := BitsOf(x);
    assert BitsOf(Reverse8(x)) == [b[7], b[6], b[5], b[4], b[3], b[2], b[1], b[0]];
    ReverseSpelled8(b);
  }

  lemma ReverseSpelled8<T>(s: seq<T>)
    requires |s| == 8
    ensures Reverse(s) == [s[7], s[6], s[5], s[4], s[3], s[2], s[1], s[0]]
  {
  }

  /** Reversing the bits of a byte twice gives the byte back. */
  lemma Reverse8Involution(x: bv8)
    ensures Reverse8(Reverse8(x)) == x
  {
  }

  /**
   * The 32-bit word with its bits in the opposite order (bit `i` lands in
   * bit `31 - i`): the value of the 32-round loop of the CRC's final step.
   * Written byte by byte: the bytes swap ends and each is reversed.
   */
  function Reverse32(x: bv32): bv32
  {
    Join(Reverse8((x & 0xFF) as bv8), Reverse8(((x >> 8) & 0xFF) as bv8),
         Reverse8(((x >> 16) & 0xFF) as bv8), Reverse8(((x >> 24) & 0xFF) as bv8))
  }

  /** Four bytes as a 32-bit word, the first in the most significant byte. */
  function Join(b0: bv8, b1: bv8, b2: bv8, b3: bv8): bv32
  {
    ((b0 as bv32) << 24) | ((b1 as bv32) << 16) | ((b2 as bv32) << 8) | (b3 as bv32)
  }

  lemma Reverse32Involution(x: bv32)
    ensures Reverse32(Reverse32(x)) == x
  {
  }

  /** The bitwise complement of a word. */
  function Complement(x: bv32): bv32
  {
    !x
  }

  /** `x` shifted up one place with `b` as its new bottom bit. */
  function ShiftIn(x: bv8, b: bool): bv8
  {
    (x << 1) | (if b then 1 else 0)
  }

  /** Shifting a bit in doubles the value, adds the bit and drops what passes 255. */
  lemma ShiftInValue(x: bv8, b: bool)
    ensures ShiftIn(x, b) as int == (2 * x as int + (if b then 1 else 0)) % 256
  {
  }

  /** Two to the power `n`. */
  function Pow2(n: nat): (r: nat)
    ensures r > 0
  {
    if n == 0 then 1 else 2 * Pow2(n - 1)
  }

  lemma {:induction false} Pow2Monotone(m: nat, n: nat)
    requires m <= n
    ensures Pow2(m) <= Pow2(n)
    decreases n
  {
    if m < n {
      Pow2Monotone(m, n - 1);
    }
  }

  /** The low `n` bits of `v`, least significant first: entry `i` is bit `i`. */
  function LowBits(v: nat, n: nat): (bs: seq<bool>)
    ensures |bs| == n
  {
    if n == 0 then [] else [v % 2 == 1] + LowBits(v / 2, n - 1)
  }

  /** The number the bits `bs` spell, least significant first. */
  function LsbValue(bs: seq<bool>): nat
  {
    if |bs| == 0 then 0 else (if bs[0] then 1 else 0) + 2 * LsbValue(bs[1..])
  }

  /** The number the bits `bs` spell, most significant first. */
  function MsbValue(bs: seq<bool>): nat
  {
    if |bs| == 0 then 0 else 2 * MsbValue(bs[..|bs| - 1]) + (if bs[|bs| - 1] then 1 else 0)
  }

  /** A larger quotient is at least one whole divisor more. */
  lemma MulStep(d: nat, q: nat, q2: nat)
    ensures q2 > q ==> d * q2 >= d * q + d
  {
    if q2 > q {
      var u: nat := q2 - q - 1;
      assert d * q2 == d * q + d * u + d;
    }
  }

  /** Euclidean division is unique: a quotient and remainder in range are `/` and `%`. */
  lemma DivModUnique(v: nat, d: nat, q: nat, r: nat)
    requires d > 0 && v == d * q + r && r < d
    ensures v / d == q && v % d == r
  {
    MulStep(d, q, v / d);
    MulStep(d, v / d, q);
  }

  /** Splitting off the bottom bit of a remainder modulo a power of two. */
  lemma ModDouble(v: nat, p: nat)
    requires p > 0
    ensures v % (2 * p) == v % 2 + 2 * ((v / 2) % p)
  {
    var r, q := v % 2, v / 2;
    var a, b := q / p, q % p;
    assert q == p * a + b;
    assert v == (2 * p) * a + (2 * b + r);
    DivModUnique(v, 2 * p, a, 2 * b + r);
  }

  /** The low `n` bits of `v` spell `v` modulo `2^n`. */
  lemma {:induction false} LowBitsValue(v: nat, n: nat)
    ensures LsbValue(LowBits(v, n)) == v % Pow2(n)
  {
    if n > 0 {
      LowBitsValue(v / 2, n - 1);
      assert LowBits(v, n)[1..] == LowBits(v / 2, n - 1);
      ModDouble(v, Pow2(n - 1));
    }
  }

  /** Reading a bit list backwards, most significant first, is reading it forwards least significant first. */
  lemma {:induction false} MsbReverse(bs: seq<bool>)
    ensures MsbValue(Reverse(bs)) == LsbValue(bs)
  {
    if |bs| > 0 {
      var r := Reverse(bs);
      MsbReverse(bs[1..]);
      assert r[..|r| - 1] == Reverse(bs[1..]);
    }
  }

  /** A prefix of `bs`, read most significant first, is the whole value with the other bits shifted out. */
  lemma {:induction false} MsbPrefix(bs: seq<bool>, k: nat)
    requires k <= |bs|
    ensures MsbValue(bs[..k]) == MsbValue(bs) / Pow2(|bs| - k)
    decreases |bs|
  {
    if k < |bs| {
      var front := bs[..|bs| - 1];
      MsbPrefix(front, k);
      assert front[..k] == bs[..k];
      var m := MsbValue(front);
      var b := if bs[|bs| - 1] then 1 else 0;
      HalveQuotient(m, b, Pow2(|front| - k));
    } else {
      assert bs[..k] == bs;
    }
  }

  /** `(2m + b) / 2p == m / p` for a bit `b`. */
  lemma HalveQuotient(m: nat, b: nat, p: nat)
    requires b <= 1 && p > 0
    ensures (2 * m + b) / (2 * p) == m / p
  {
    var q, r := m / p, m % p;
    assert m == p * q + r;
    assert 2 * m + b == (2 * p) * q + (2 * r + b);
    DivModUnique(2 * m + b, 2 * p, q, 2 * r + b);
  }

  /** A value read from `n` bits is below `2^n`. */
  lemma {:induction false} MsbBound(bs: seq<bool>)
    ensures MsbValue(bs) < Pow2(|bs|)
  {
    if |bs| > 0 {
      MsbBound(bs[..|bs| - 1]);
    }
  }

  /** Shifting a bit in puts it in front of the bit list and drops the top bit. */
  lemma ShiftInBit(x: bv8, b: bool)
    ensures BitsOf(ShiftIn(x, b)) == [b] + BitsOf(x)[..7]
  {
    var bs := BitsOf(x);
    assert BitsOf(ShiftIn(x, b)) == [b, bs[0], bs[1], bs[2], bs[3], bs[4], bs[5], bs[6]];
    ConsSpelled7(b, bs);
  }

  lemma ConsSpelled7<T>(c: T, s: seq<T>)
    requires |s| == 8
    ensures [c] + s[..7] == [c, s[0], s[1], s[2], s[3], s[4], s[5], s[6]]
  {
  }

  /** `x` shifted up by `k` places, one place at a time. */
  function ShiftUp(x: bv8, k: nat): bv8
    requires k <= 8
    decreases k
  {
    if k == 0 then x else ShiftUp(x << 1, k - 1)
  }

  /** Shifting up by `k` puts `k` zero bits in front and drops the top `k` bits. */
  lemma {:induction false} ShiftUpBits(x: bv8, k: nat)
    requires k <= 8
    ensures BitsOf(ShiftUp(x, k)) == Zeros(k) + BitsOf(x)[..8 - k]
    decreases k
  {
    if k > 0 {
      ShiftUpBits(x << 1, k - 1);
      ShiftOutZero(x);
      ZerosShift(BitsOf(x), k);
    }
  }

  lemma ShiftOutZero(x: bv8)
    ensures BitsOf(x << 1) == [false] + BitsOf(x)[..7]
  {
    ShiftInBit(x, false);
    assert ShiftIn(x, false) == x << 1;
  }

  lemma ZerosShift(bs: seq<bool>, k: nat)
    requires |bs| == 8 && 0 < k <= 8
    ensures Zeros(k - 1) + ([false] + bs[..7])[..9 - k] == Zeros(k) + bs[..8 - k]
  {
    assert ([false] + bs[..7])[..9 - k] == [false] + bs[..8 - k];
  }
}
