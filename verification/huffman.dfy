/**
 * The symbol tables of the encoder in src/lib.rs: the fixed Huffman code
 * of the literal/length alphabet (section 3.2.6 of RFC 1951) and the
 * length and distance symbols with their extra bits (section 3.2.5).
 *
 * Each table is stated against an independent reference: the decoder of
 * section 3.2.6 for the code, and the base/extra-bit tables of section
 * 3.2.5 for lengths and distances. Two entries of the source disagree with
 * the standard; `Cheanger` and `LengthExtra` keep them as written, and
 * `FixedCode` and `LengthCode` are the corrected tables the encoder uses.
 */
module FixedHuffman {
  import opened Bits
  import opened Wrappers


  /** A Huffman code: `value` written in `length` bits, most significant first. */
  datatype Code = Code(length: nat, value: nat)

  /** The code `a` is a prefix of the code `b`. */
  predicate IsPrefix(a: Code, b: Code)
  {
    a.length <= b.length && b.value / Pow2(b.length - a.length) == a.value
  }

  // ---------------------------------------------------------------------
  // Literal/length code.
  // ---------------------------------------------------------------------

  /**
   * The reference: the fixed literal/length code of section 3.2.6 of
   * RFC 1951, read backwards from a code to its symbol.
   */
  function FixedSymbol(c: Code): (r: Option<nat>)
    ensures r.Some? ==> r.value <= 287
  {
    if c.length == 7 && c.value <= 23 then Some(c.value + 256)
    else if c.length == 8 && 48 <= c.value <= 191 then Some(c.value - 48)
    else if c.length == 8 && 192 <= c.value <= 199 then Some(c.value + 88)
    else if c.length == 9 && 400 <= c.value <= 511 then Some(c.value - 256)
    else None
  }

  /** `cheanger` as written: literals 144..255 are offset by 0x91. */
  function Cheanger(s: nat): (c: Code)
    ensures s <= 287 ==> 7 <= c.length <= 9 && c.value < Pow2(c.length)
    ensures 287 < s ==> c.length == 0
  {
    if s <= 143 then Code(8, s + 0x30)
    else if s <= 255 then Code(9, s + 0x91)
    else if s <= 279 then Code(7, s - 0x100)
    else if s <= 287 then Code(8, s - 0x58)
    else Code(0, 512)
  }

  /** `cheanger` with literals 144..255 at 0x190 upwards, as section 3.2.6 of RFC 1951 has them. */
  function FixedCode(s: nat): (c: Code)
    ensures s <= 287 ==> FixedSymbol(c) == Some(s) && c.value < Pow2(c.length)
    ensures s <= 287 ==> 7 <= c.length <= 9 && c.value < 512
    ensures 287 < s ==> c.length == 0
  {
    if s <= 143 then Code(8, s + 0x30)
    else if s <= 255 then Code(9, s + 0x100)
    else if s <= 279 then Code(7, s - 0x100)
    else if s <= 287 then Code(8, s - 0x58)
    else Code(0, 512)
  }

  /** Every code of the reference table is the code `FixedCode` gives its symbol. */
  lemma FixedSymbolCode(c: Code, s: nat)
    requires FixedSymbol(c) == Some(s)
    ensures FixedCode(s) == c
  {
  }

  /** No code of the corrected table is a prefix of another. */
  lemma FixedCodePrefixFree(s: nat, t: nat)
    requires s <= 287 && t <= 287 && s != t
    ensures !IsPrefix(FixedCode(s), FixedCode(t))
  {
    var a, b := FixedCode(s), FixedCode(t);
    if IsPrefix(a, b) {
      ValidPrefix(a, b);
      assert false;
    }
  }

  /** Among the codes of the reference table, only a code itself is its prefix. */
  lemma ValidPrefix(a: Code, b: Code)
    requires FixedSymbol(a).Some? && FixedSymbol(b).Some? && IsPrefix(a, b)
    ensures a == b
  {
    assert Pow2(0) == 1 && Pow2(1) == 2 && Pow2(2) == 4;
    if a.length != b.length {
      assert false;
    }
  }

  /** `Cheanger` agrees with the standard outside 144..255. */
  lemma CheangerAgrees(s: nat)
    requires !(144 <= s <= 255)
    ensures Cheanger(s) == FixedCode(s)
  {
  }

  /**
   * Inside 144..255 `Cheanger` never gives the standard's code: no literal
   * of that range decodes back to itself. Literal 144 gets 0x121, which is
   * not a code at all and starts with the whole 8-bit code of literal 96.
   */
  lemma CheangerMisencodes(s: nat)
    requires 144 <= s <= 255
    ensures FixedSymbol(Cheanger(s)) != Some(s)
    ensures Cheanger(144) == Code(9, 0x121) && FixedSymbol(Cheanger(144)) == None
    ensures IsPrefix(Cheanger(96), Cheanger(144))
  {
    assert Pow2(1) == 2;
  }

  // ---------------------------------------------------------------------
  // Length and distance symbols.
  // ---------------------------------------------------------------------

  /** A symbol, the number of extra bits that follow it, and their value. */
  datatype Extra = Extra(symbol: nat, count: nat, extra: nat)

  /** Section 3.2.5 of RFC 1951: the shortest length of length symbols 257..285. */
  const LengthBase: seq<nat> :=
    [3, 4, 5, 6, 7, 8, 9, 10, 11, 13, 15, 17, 19, 23, 27, 31,
     35, 43, 51, 59, 67, 83, 99, 115, 131, 163, 195, 227, 258]

  /** Section 3.2.5 of RFC 1951: the extra bits of length symbols 257..285. */
  const LengthBits: seq<nat> :=
    [0, 0, 0, 0, 0, 0, 0, 0, 1, 1, 1, 1, 2, 2, 2, 2,
     3, 3, 3, 3, 4, 4, 4, 4, 5, 5, 5, 5, 0]

  /** Section 3.2.5 of RFC 1951: the shortest distance of distance symbols 0..29. */
  const DistanceBase: seq<nat> :=
    [1, 2, 3, 4, 5, 7, 9, 13, 17, 25, 33, 49, 65, 97, 129, 193,
     257, 385, 513, 769, 1025, 1537, 2049, 3073, 4097, 6145, 8193, 12289, 16385, 24577]

  /** Section 3.2.5 of RFC 1951: the extra bits of distance symbols 0..29. */
  const DistanceBits: seq<nat> :=
    [0, 0, 0, 0, 1, 1, 2, 2, 3, 3, 4, 4, 5, 5, 6, 6,
     7, 7, 8, 8, 9, 9, 10, 10, 11, 11, 12, 12, 13, 13]

  /**
   * `length_extra` as written. The masks `& (2^k - 1)` of the source are
   * written as `% 2^k`, which is the same on the non-negative values here.
   * Lengths from 258 upwards fall to the default entry.
   */
  function LengthExtra(n: nat): Extra
  {
    if 3 <= n <= 10 then Extra(n + 254, 0, 0)
    else if 11 <= n <= 12 then Extra(265, 1, (n - 3) % 2)
    else if 13 <= n <= 14 then Extra(266, 1, (n - 3) % 2)
    else if 15 <= n <= 16 then Extra(267, 1, (n - 3) % 2)
    else if 17 <= n <= 18 then Extra(268, 1, (n - 3) % 2)
    else if 19 <= n <= 22 then Extra(269, 2, (n - 3) % 4)
    else if 23 <= n <= 26 then Extra(270, 2, (n - 3) % 4)
    else if 27 <= n <= 30 then Extra(271, 2, (n - 3) % 4)
    else if 31 <= n <= 34 then Extra(272, 2, (n - 3) % 4)
    else if 35 <= n <= 42 then Extra(273, 3, (n - 3) % 8)
    else if 43 <= n <= 50 then Extra(274, 3, (n - 3) % 8)
    else if 51 <= n <= 58 then Extra(275, 3, (n - 3) % 8)
    else if 59 <= n <= 66 then Extra(276, 3, (n - 3) % 8)
    else if 67 <= n <= 82 then Extra(277, 4, (n - 3) % 16)
    else if 83 <= n <= 98 then Extra(278, 4, (n - 3) % 16)
    else if 99 <= n <= 114 then Extra(279, 4, (n - 3) % 16)
    else if 115 <= n <= 130 then Extra(280, 4, (n - 3) % 16)
    else if 131 <= n <= 162 then Extra(281, 5, (n - 3) % 32)
    else if 163 <= n <= 194 then Extra(282, 5, (n - 3) % 32)
    else if 195 <= n <= 226 then Extra(283, 5, (n - 3) % 32)
    else if 227 <= n <= 257 then Extra(284, 5, (n - 3) % 32)
    else Extra(286, 6, 0)
  }

  /** `length_extra` with length 258 given its own symbol 285, as section 3.2.5 of RFC 1951 has it. */
  function LengthCode(n: nat): Extra
  {
    if n == 258 then Extra(285, 0, 0) else LengthExtra(n)
  }

  /**
   * `e` is a length symbol whose range holds `n`: its extra value fits its
   * extra bits and, added to the symbol's base length, gives `n` back.
   */
  predicate LengthDecoded(n: nat, e: Extra)
  {
    && 257 <= e.symbol <= 285
    && e.count == LengthBits[e.symbol - 257]
    && e.extra < Pow2(e.count)
    && LengthBase[e.symbol - 257] + e.extra == n
  }

  /** Every length the encoder can emit, 3..258, is decoded from the symbol `LengthCode` gives it. */
  lemma LengthCodeDecodes(n: nat)
    requires 3 <= n <= 258
    ensures LengthDecoded(n, LengthCode(n))
  {
    if n <= 10 {
      assert LengthCode(n) == Extra(n + 254, 0, 0);
    } else if n <= 34 {
      LengthDecodes11To34(n);
    } else if n <= 66 {
      LengthDecodes35To66(n);
    } else if n <= 130 {
      LengthDecodes67To130(n);
    } else if n <= 257 {
      LengthDecodes131To257(n);
    } else {
      assert LengthCode(n) == Extra(285, 0, 0);
    }
  }

  /** `LengthCodeDecodes` for the lengths with one and two extra bits. */
  lemma LengthDecodes11To34(n: nat)
    requires 11 <= n <= 34
    ensures LengthDecoded(n, LengthCode(n))
  {
  }

  /** `LengthCodeDecodes` for the lengths with three extra bits. */
  lemma LengthDecodes35To66(n: nat)
    requires 35 <= n <= 66
    ensures LengthDecoded(n, LengthCode(n))
  {
  }

  /** `LengthCodeDecodes` for the lengths with four extra bits. */
  lemma LengthDecodes67To130(n: nat)
    requires 67 <= n <= 130
    ensures LengthDecoded(n, LengthCode(n))
  {
  }

  /** `LengthCodeDecodes` for the lengths with five extra bits. */
  lemma LengthDecodes131To257(n: nat)
    requires 131 <= n <= 257
    ensures LengthDecoded(n, LengthCode(n))
  {
  }

  /**
   * The ranges of consecutive length symbols up to 284 meet: each ends
   * where the next begins. (Symbol 284 stops one short, at 257, since 258
   * has its own symbol.)
   */
  lemma LengthChain(i: nat)
    requires i < 27
    ensures LengthBase[i] + Pow2(LengthBits[i]) == LengthBase[i + 1]
  {
    if i < 14 {
      LengthChain0To13(i);
    } else {
      LengthChain14To26(i);
    }
  }

  lemma LengthChain0To13(i: nat)
    requires i < 14
    ensures LengthBase[i] + Pow2(LengthBits[i]) == LengthBase[i + 1]
  {
  }

  lemma LengthChain14To26(i: nat)
    requires 14 <= i < 27
    ensures LengthBase[i] + Pow2(LengthBits[i]) == LengthBase[i + 1]
  {
  }

  /** The range of a length symbol ends at or before the base of any later one. */
  lemma {:induction false} LengthGap(i: nat, j: nat)
    requires i < j <= 27
    ensures LengthBase[i] + Pow2(LengthBits[i]) <= LengthBase[j]
    decreases j - i
  {
    LengthChain(i);
    if i + 1 < j {
      LengthGap(i + 1, j);
    }
  }

  /** Longer lengths never get smaller length symbols. */
  lemma LengthCodeMonotone(m: nat, n: nat)
    requires 3 <= m <= n <= 258
    ensures LengthCode(m).symbol <= LengthCode(n).symbol
  {
    LengthCodeDecodes(m);
    LengthCodeDecodes(n);
    var i, j := LengthCode(n).symbol - 257, LengthCode(m).symbol - 257;
    if n < 258 && j > i {
      LengthGap(i, j);
    }
  }

  /** `length_extra` gives 258 the unused symbol 286 with six extra bits. */
  lemma LengthExtraAt258()
    ensures LengthExtra(258) == Extra(286, 6, 0)
    ensures LengthExtra(258).symbol > 285
  {
  }

  /** Every length outside 3..257, short or long, falls to the default entry. */
  lemma LengthExtraDefault(n: nat)
    requires n < 3 || 258 <= n
    ensures LengthExtra(n) == Extra(286, 6, 0)
  {
  }

  /** Everywhere but at 258 the two length tables agree. */
  lemma LengthCodeAgrees(n: nat)
    requires n != 258
    ensures LengthCode(n) == LengthExtra(n)
  {
  }

  /** `distance_extra`; distances outside 1..32768 fall to the default entry. */
  function DistanceExtra(d: nat): Extra
  {
    if 1 <= d <= 4 then Extra(d - 1, 0, 0)
    else if 5 <= d <= 6 then Extra(4, 1, (d - 1) % 2)
    else if 7 <= d <= 8 then Extra(5, 1, (d - 1) % 2)
    else if 9 <= d <= 12 then Extra(6, 2, (d - 1) % 4)
    else if 13 <= d <= 16 then Extra(7, 2, (d - 1) % 4)
    else if 17 <= d <= 24 then Extra(8, 3, (d - 1) % 8)
    else if 25 <= d <= 32 then Extra(9, 3, (d - 1) % 8)
    else if 33 <= d <= 48 then Extra(10, 4, (d - 1) % 16)
    else if 49 <= d <= 64 then Extra(11, 4, (d - 1) % 16)
    else if 65 <= d <= 96 then Extra(12, 5, (d - 1) % 32)
    else if 97 <= d <= 128 then Extra(13, 5, (d - 1) % 32)
    else if 129 <= d <= 192 then Extra(14, 6, (d - 1) % 64)
    else if 193 <= d <= 256 then Extra(15, 6, (d - 1) % 64)
    else if 257 <= d <= 384 then Extra(16, 7, (d - 1) % 128)
    else if 385 <= d <= 512 then Extra(17, 7, (d - 1) % 128)
    else if 513 <= d <= 768 then Extra(18, 8, (d - 1) % 256)
    else if 769 <= d <= 1024 then Extra(19, 8, (d - 1) % 256)
    else if 1025 <= d <= 1536 then Extra(20, 9, (d - 1) % 512)
    else if 1537 <= d <= 2048 then Extra(21, 9, (d - 1) % 512)
    else if 2049 <= d <= 3072 then Extra(22, 10, (d - 1) % 1024)
    else if 3073 <= d <= 4096 then Extra(23, 10, (d - 1) % 1024)
    else if 4097 <= d <= 6144 then Extra(24, 11, (d - 1) % 2048)
    else if 6145 <= d <= 8192 then Extra(25, 11, (d - 1) % 2048)
    else if 8193 <= d <= 12288 then Extra(26, 12, (d - 1) % 4096)
    else if 12289 <= d <= 16384 then Extra(27, 12, (d - 1) % 4096)
    else if 16385 <= d <= 24576 then Extra(28, 13, (d - 1) % 8192)
    else if 24577 <= d <= 32768 then Extra(29, 13, (d - 1) % 8192)
    else Extra(31, 14, 0)
  }

  /**
   * `e` is a distance symbol whose range holds `d`: from symbol 4 on it
   * has `symbol / 2 - 1` extra bits, its extra value fits them and, added
   * to the symbol's base distance, gives `d` back.
   */
  predicate DistanceDecoded(d: nat, e: Extra)
  {
    && e.symbol <= 29
    && e.count == DistanceBits[e.symbol]
    && e.count == (if e.symbol < 4 then 0 else e.symbol / 2 - 1)
    && e.extra < Pow2(e.count)
    && DistanceBase[e.symbol] + e.extra == d
  }

  /** Every distance 1..32768 is decoded from the symbol `distance_extra` gives it. */
  lemma DistanceExtraDecodes(d: nat)
    requires 1 <= d <= 32768
    ensures DistanceDecoded(d, DistanceExtra(d))
  {
    if d <= 4 {
      assert DistanceExtra(d) == Extra(d - 1, 0, 0);
    } else if d <= 8 {
      DistanceDecodes5To8(d);
    } else if d <= 16 {
      DistanceDecodes9To16(d);
    } else if d <= 32 {
      DistanceDecodes17To32(d);
    } else if d <= 64 {
      DistanceDecodes33To64(d);
    } else if d <= 128 {
      DistanceDecodes65To128(d);
    } else if d <= 256 {
      DistanceDecodes129To256(d);
    } else if d <= 512 {
      DistanceDecodes257To512(d);
    } else if d <= 1024 {
      DistanceDecodes513To1024(d);
    } else if d <= 2048 {
      DistanceDecodes1025To2048(d);
    } else if d <= 4096 {
      DistanceDecodes2049To4096(d);
    } else if d <= 8192 {
      DistanceDecodes4097To8192(d);
    } else if d <= 16384 {
      DistanceDecodes8193To16384(d);
    } else if d <= 32768 {
      DistanceDecodes16385To32768(d);
    }
  }

  /** `DistanceExtraDecodes` for the two symbols with one extra bit. */
  lemma DistanceDecodes5To8(d: nat)
    requires 5 <= d <= 8
    ensures DistanceDecoded(d, DistanceExtra(d))
  {
  }

  /** `DistanceExtraDecodes` for the two symbols with two extra bits. */
  lemma DistanceDecodes9To16(d: nat)
    requires 9 <= d <= 16
    ensures DistanceDecoded(d, DistanceExtra(d))
  {
  }

  /** `DistanceExtraDecodes` for the two symbols with three extra bits. */
  lemma DistanceDecodes17To32(d: nat)
    requires 17 <= d <= 32
    ensures DistanceDecoded(d, DistanceExtra(d))
  {
  }

  /** `DistanceExtraDecodes` for the two symbols with four extra bits. */
  lemma DistanceDecodes33To64(d: nat)
    requires 33 <= d <= 64
    ensures DistanceDecoded(d, DistanceExtra(d))
  {
  }

  /** `DistanceExtraDecodes` for the two symbols with five extra bits. */
  lemma DistanceDecodes65To128(d: nat)
    requires 65 <= d <= 128
    ensures DistanceDecoded(d, DistanceExtra(d))
  {
  }

  /** `DistanceExtraDecodes` for the two symbols with six extra bits. */
  lemma DistanceDecodes129To256(d: nat)
    requires 129 <= d <= 256
    ensures DistanceDecoded(d, DistanceExtra(d))
  {
  }

  /** `DistanceExtraDecodes` for the two symbols with seven extra bits. */
  lemma DistanceDecodes257To512(d: nat)
    requires 257 <= d <= 512
    ensures DistanceDecoded(d, DistanceExtra(d))
  {
  }

  /** `DistanceExtraDecodes` for the two symbols with eight extra bits. */
  lemma DistanceDecodes513To1024(d: nat)
    requires 513 <= d <= 1024
    ensures DistanceDecoded(d, DistanceExtra(d))
  {
  }

  /** `DistanceExtraDecodes` for the two symbols with nine extra bits. */
  lemma DistanceDecodes1025To2048(d: nat)
    requires 1025 <= d <= 2048
    ensures DistanceDecoded(d, DistanceExtra(d))
  {
  }

  /** `DistanceExtraDecodes` for the two symbols with ten extra bits. */
  lemma DistanceDecodes2049To4096(d: nat)
    requires 2049 <= d <= 4096
    ensures DistanceDecoded(d, DistanceExtra(d))
  {
  }

  /** `DistanceExtraDecodes` for the two symbols with eleven extra bits. */
  lemma DistanceDecodes4097To8192(d: nat)
    requires 4097 <= d <= 8192
    ensures DistanceDecoded(d, DistanceExtra(d))
  {
  }

  /** `DistanceExtraDecodes` for the two symbols with twelve extra bits. */
  lemma DistanceDecodes8193To16384(d: nat)
    requires 8193 <= d <= 16384
    ensures DistanceDecoded(d, DistanceExtra(d))
  {
    if d <= 12288 {
      DistanceDecodes8193To12288(d);
    } else {
      DistanceDecodes12289To16384(d);
    }
  }

  lemma DistanceDecodes8193To12288(d: nat)
    requires 8193 <= d <= 12288
    ensures DistanceDecoded(d, DistanceExtra(d))
  {
  }

  lemma DistanceDecodes12289To16384(d: nat)
    requires 12289 <= d <= 16384
    ensures DistanceDecoded(d, DistanceExtra(d))
  {
  }

  /** `DistanceExtraDecodes` for the two symbols with thirteen extra bits. */
  lemma DistanceDecodes16385To32768(d: nat)
    requires 16385 <= d <= 32768
    ensures DistanceDecoded(d, DistanceExtra(d))
  {
    if d <= 24576 {
      DistanceDecodes16385To24576(d);
    } else {
      DistanceDecodes24577To32768(d);
    }
  }

  lemma DistanceDecodes16385To24576(d: nat)
    requires 16385 <= d <= 24576
    ensures DistanceDecoded(d, DistanceExtra(d))
  {
  }

  lemma DistanceDecodes24577To32768(d: nat)
    requires 24577 <= d <= 32768
    ensures DistanceDecoded(d, DistanceExtra(d))
  {
  }

  /** The ranges of consecutive distance symbols meet: each ends where the next begins. */
  lemma DistanceChain(i: nat)
    requires i < 29
    ensures DistanceBase[i] + Pow2(DistanceBits[i]) == DistanceBase[i + 1]
  {
    if i < 10 {
      DistanceChain0To9(i);
    } else if i < 20 {
      DistanceChain10To19(i);
    } else {
      DistanceChain20To28(i);
    }
  }

  lemma DistanceChain0To9(i: nat)
    requires 0 <= i < 10
    ensures DistanceBase[i] + Pow2(DistanceBits[i]) == DistanceBase[i + 1]
  {
  }

  lemma DistanceChain10To19(i: nat)
    requires 10 <= i < 20
    ensures DistanceBase[i] + Pow2(DistanceBits[i]) == DistanceBase[i + 1]
  {
  }

  lemma DistanceChain20To28(i: nat)
    requires 20 <= i < 29
    ensures DistanceBase[i] + Pow2(DistanceBits[i]) == DistanceBase[i + 1]
  {
  }

  /** The range of a distance symbol ends at or before the base of any later one. */
  lemma {:induction false} DistanceGap(i: nat, j: nat)
    requires i < j <= 29
    ensures DistanceBase[i] + Pow2(DistanceBits[i]) <= DistanceBase[j]
    decreases j - i
  {
    DistanceChain(i);
    if i + 1 < j {
      DistanceGap(i + 1, j);
    }
  }

  /** Longer distances never get smaller distance symbols. */
  lemma DistanceExtraMonotone(c: nat, d: nat)
    requires 1 <= c <= d <= 32768
    ensures DistanceExtra(c).symbol <= DistanceExtra(d).symbol
  {
    DistanceExtraDecodes(c);
    DistanceExtraDecodes(d);
    var i, j := DistanceExtra(d).symbol, DistanceExtra(c).symbol;
    if j > i {
      DistanceGap(i, j);
    }
  }

  lemma DistanceExtraDefault(d: nat)
    requires d == 0 || 32768 < d
    ensures DistanceExtra(d) == Extra(31, 14, 0)
  {
  }
}
