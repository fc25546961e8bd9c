/**
 * The bit emission of `encode` in src/lib.rs: one final DEFLATE block
 * with fixed Huffman codes (section 3.2.6 of RFC 1951).
 *
 * The block opens with BFINAL = 1 and BTYPE = 01, then carries every
 * token — a literal as its literal/length code, a back-reference as its
 * length code, the length's extra bits, a five-bit distance code and the
 * distance's extra bits — and closes with the end-of-block symbol 256,
 * after which the writer is flushed.
 *
 * `BlockBits` is the block as a list of bits in transmission order, built
 * from the code tables alone; `Compress` is what the writer produces. The
 * lemmas show the writer's bytes are exactly `BlockBits` packed eight to a
 * byte, the first bit in bit 0 of the first byte, as section 3.1.1 of
 * RFC 1951 requires. Codes come from the corrected tables `FixedCode` and
 * `LengthCode`.
 */
module Deflate {
  import opened Bits
  import opened BitWriter
  import opened FixedHuffman
  import opened Lz77

  /** The literal/length symbol that closes a block. */
  const EndOfBlock: nat := 256

  // ---------------------------------------------------------------------
  // The block as a bit list.
  // ---------------------------------------------------------------------

  /** The fixed code of literal/length symbol `s`, most significant bit first. */
  function SymbolBits(s: nat): (bs: seq<bool>)
    requires s <= 287
    ensures |bs| == FixedCode(s).length
    ensures MsbValue(bs) == FixedCode(s).value
  {
    var c := FixedCode(s);
    DivModUnique(c.value, Pow2(c.length), 0, c.value);
    CodeOrder(c.value, c.length)
  }

  /** The lengths a back-reference may have get a length symbol 257..285 with at most five extra bits. */
  lemma LengthFits(n: nat)
    requires MinMatchLen <= n <= MaxMatchLen
    ensures 257 <= LengthCode(n).symbol <= 285
    ensures LengthCode(n).count <= 5 && LengthCode(n).extra < 32
  {
  }

  /** Distances within the window get a distance symbol 0..19 with at most eight extra bits. */
  lemma DistanceFits(d: nat)
    requires 1 <= d <= MaxWindowSize
    ensures DistanceExtra(d).symbol <= 19
    ensures DistanceExtra(d).count <= 8 && DistanceExtra(d).extra < 256
  {
  }

  /** A back-reference's length: its symbol, then its extra bits, least significant first. */
  function LengthPart(n: nat): seq<bool>
    requires MinMatchLen <= n <= MaxMatchLen
  {
    LengthFits(n);
    var e := LengthCode(n);
    SymbolBits(e.symbol) + ExtraOrder(e.extra, e.count)
  }

  /** A back-reference's distance: five bits of symbol, most significant first, then its extra bits. */
  function DistancePart(d: nat): seq<bool>
    requires 1 <= d <= MaxWindowSize
  {
    var e := DistanceExtra(d);
    CodeOrder(e.symbol, 5) + ExtraOrder(e.extra, e.count)
  }

  function TokenBits(t: Token): seq<bool>
    requires TokenFits(t)
  {
    match t
    case Literal(b) => SymbolBits(b as nat)
    case Copy(length, distance) => LengthPart(length) + DistancePart(distance)
  }

  function StreamBits(ts: seq<Token>): seq<bool>
    requires AllFit(ts)
    decreases |ts|
  {
    if |ts| == 0 then [] else TokenBits(ts[0]) + StreamBits(ts[1..])
  }

  /** The header bits BFINAL = 1 and BTYPE = 01, BTYPE least significant bit first. */
  const FinalFixedHeader: seq<bool> := [true, true, false]

  /** The whole block, header to end-of-block symbol. */
  function BlockBits(ts: seq<Token>): seq<bool>
    requires AllFit(ts)
  {
    FinalFixedHeader + StreamBits(ts) + SymbolBits(EndOfBlock)
  }

  // ---------------------------------------------------------------------
  // The writer calls of `encode`.
  // ---------------------------------------------------------------------

  /** `cheanger` then `code_bits`, with the corrected code table. */
  function WriteSymbol(w: BitWriter, s: nat): BitWriter
    requires s <= 287
  {
    CodeBits(w, FixedCode(s).value, FixedCode(s).length)
  }

  /** A back-reference's length: `length_extra`, then `code_bits` and `extra_bits`. */
  function WriteLength(w: BitWriter, n: nat): BitWriter
    requires MinMatchLen <= n <= MaxMatchLen
  {
    LengthFits(n);
    var e := LengthCode(n);
    ExtraBits(WriteSymbol(w, e.symbol), e.extra, e.count)
  }

  /** A back-reference's distance: `distance_extra`, then five bits of symbol and the extra bits. */
  function WriteDistance(w: BitWriter, d: nat): BitWriter
    requires 1 <= d <= MaxWindowSize
  {
    DistanceFits(d);
    var e := DistanceExtra(d);
    ExtraBits(CodeBits(w, e.symbol, 5), e.extra, e.count)
  }

  /** One token: a literal's code, or a back-reference's length and then its distance. */
  function WriteToken(w: BitWriter, t: Token): BitWriter
    requires TokenFits(t)
  {
    match t
    case Literal(b) => WriteSymbol(w, b as nat)
    case Copy(length, distance) => WriteDistance(WriteLength(w, length), distance)
  }

  function WriteTokens(w: BitWriter, ts: seq<Token>): BitWriter
    requires AllFit(ts)
    decreases |ts|
  {
    if |ts| == 0 then w else WriteTokens(WriteToken(w, ts[0]), ts[1..])
  }

  /** The writer just before the final flush: header, tokens, and `code_bits(0, 7)`. */
  function WriteBlock(ts: seq<Token>): BitWriter
    requires AllFit(ts)
  {
    var w := ExtraBits(ExtraBits(New(), 1, 1), 1, 2);
    CodeBits(WriteTokens(w, ts), 0, 7)
  }

  /** The compressed data: the block, flushed to whole bytes. */
  function Compress(ts: seq<Token>): (bytes: seq<bv8>)
    requires AllFit(ts)
    ensures bytes == Pack(Padded(BlockBits(ts)))
  {
    BlockHolds(ts);
    HoldsBounds(WriteBlock(ts), BlockBits(ts));
    FlushPacks(WriteBlock(ts), BlockBits(ts));
    Flush(WriteBlock(ts)).output
  }

  // ---------------------------------------------------------------------
  // The writer follows the bit list.
  // ---------------------------------------------------------------------

  lemma WriteSymbolHolds(w: BitWriter, H: seq<bool>, s: nat)
    requires Holds(w, H) && s <= 287
    ensures Holds(WriteSymbol(w, s), H + SymbolBits(s))
  {
    CodeBitsHolds(w, H, FixedCode(s).value, FixedCode(s).length);
  }

  lemma WriteLengthHolds(w: BitWriter, H: seq<bool>, n: nat)
    requires Holds(w, H) && MinMatchLen <= n <= MaxMatchLen
    ensures Holds(WriteLength(w, n), H + LengthPart(n))
  {
    LengthFits(n);
    var e := LengthCode(n);
    var w0, H0 := WriteSymbol(w, e.symbol), H + SymbolBits(e.symbol);
    WriteSymbolHolds(w, H, e.symbol);
    ExtraBitsHolds(w0, H0, e.extra, e.count);
    Associate(H, SymbolBits(e.symbol), ExtraOrder(e.extra, e.count), LengthPart(n));
  }

  lemma WriteDistanceHolds(w: BitWriter, H: seq<bool>, d: nat)
    requires Holds(w, H) && 1 <= d <= MaxWindowSize
    ensures Holds(WriteDistance(w, d), H + DistancePart(d))
  {
    DistanceFits(d);
    var e := DistanceExtra(d);
    var w0, H0 := CodeBits(w, e.symbol, 5), H + CodeOrder(e.symbol, 5);
    CodeBitsHolds(w, H, e.symbol, 5);
    ExtraBitsHolds(w0, H0, e.extra, e.count);
    Associate(H, CodeOrder(e.symbol, 5), ExtraOrder(e.extra, e.count), DistancePart(d));
  }

  lemma WriteTokenHolds(w: BitWriter, H: seq<bool>, t: Token)
    requires Holds(w, H) && TokenFits(t)
    ensures Holds(WriteToken(w, t), H + TokenBits(t))
  {
    match t
    case Literal(b) =>
      WriteSymbolHolds(w, H, b as nat);
    case Copy(length, distance) =>
      var w0, H0 := WriteLength(w, length), H + LengthPart(length);
      WriteLengthHolds(w, H, length);
      WriteDistanceHolds(w0, H0, distance);
      Associate(H, LengthPart(length), DistancePart(distance), TokenBits(t));
  }

  lemma {:induction false} WriteTokensHolds(w: BitWriter, H: seq<bool>, ts: seq<Token>)
    requires Holds(w, H) && AllFit(ts)
    ensures Holds(WriteTokens(w, ts), H + StreamBits(ts))
    decreases |ts|
  {
    if |ts| == 0 {
      AppendNothing(H, StreamBits(ts));
    } else {
      var w1, H1 := WriteToken(w, ts[0]), H + TokenBits(ts[0]);
      WriteTokenHolds(w, H, ts[0]);
      assert AllFit(ts[1..]);
      WriteTokensHolds(w1, H1, ts[1..]);
      Associate(H, TokenBits(ts[0]), StreamBits(ts[1..]), StreamBits(ts));
    }
  }

  /** `extra_bits(1, 1)` and `extra_bits(0b01, 2)` write the block header. */
  lemma HeaderBits()
    ensures ExtraOrder(1, 1) + ExtraOrder(1, 2) == FinalFixedHeader
  {
    assert LowBits(0, 0) == [];
    assert LowBits(0, 1) == [false];
    assert ExtraOrder(1, 1) == [true];
    assert ExtraOrder(1, 2) == [true, false];
  }

  /** `code_bits(0, 7)` writes the code of the end-of-block symbol. */
  lemma EndOfBlockBits()
    ensures CodeOrder(0, 7) == SymbolBits(EndOfBlock)
  {
    assert FixedCode(EndOfBlock) == Code(7, 0);
  }

  /** The writer before the flush holds the whole block. */
  lemma BlockHolds(ts: seq<Token>)
    requires AllFit(ts)
    ensures Holds(WriteBlock(ts), BlockBits(ts))
  {
    NewHolds();
    var w0 := ExtraBits(New(), 1, 1);
    ExtraBitsHolds(New(), [], 1, 1);
    var w1 := ExtraBits(w0, 1, 2);
    ExtraBitsHolds(w0, [] + ExtraOrder(1, 1), 1, 2);
    HeaderBits();
    assert [] + ExtraOrder(1, 1) + ExtraOrder(1, 2) == FinalFixedHeader;
    WriteTokensHolds(w1, FinalFixedHeader, ts);
    var w2 := WriteTokens(w1, ts);
    CodeBitsHolds(w2, FinalFixedHeader + StreamBits(ts), 0, 7);
    EndOfBlockBits();
  }

  /**
   * Bit `j` of byte `k` of the compressed data is bit `8k + j` of the
   * block followed by its zero padding.
   */
  lemma CompressBitOrder(ts: seq<Token>, k: nat, j: nat)
    requires AllFit(ts) && k < |Compress(ts)| && j < 8
    ensures BitsOf(Compress(ts)[k])[j] == Padded(BlockBits(ts))[8 * k + j]
  {
    var bits := Padded(BlockBits(ts));
    var bytes := Compress(ts);
    assert bytes == Pack(bits);
    PackBits(bits, k);
    ByteBit(bytes[k], bits, k, j);
  }

  lemma ByteBit(x: bv8, bits: seq<bool>, k: nat, j: nat)
    requires 8 * k + 8 <= |bits| && j < 8
    requires BitsOf(x) == bits[8 * k .. 8 * k + 8]
    ensures BitsOf(x)[j] == bits[8 * k + j]
  {
    assert bits[8 * k .. 8 * k + 8][j] == bits[8 * k + j];
  }

  /** A reader that unpacks the compressed data sees the block followed by zero padding. */
  lemma CompressUnpacks(ts: seq<Token>)
    requires AllFit(ts)
    ensures Unpack(Compress(ts)) == BlockBits(ts) + Zeros(PadLength(|BlockBits(ts)|))
  {
    UnpackPack(Padded(BlockBits(ts)));
  }
}
