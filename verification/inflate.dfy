/**
 * The decompressor's reading of a fixed-Huffman block, after section 3.2
 * of RFC 1951: the independent partner of the emission in `Deflate`.
 *
 * A literal/length symbol is found by trying its 7-, 8- and 9-bit
 * prefixes against the reference table `FixedSymbol`; extra bits are read
 * least significant first and the five-bit distance symbol most
 * significant first. The main lemma reads back every token list the
 * encoder can produce from the bytes it writes.
 */
module Inflate {
  import opened Bits
  import opened BitWriter
  import opened Wrappers
  import opened FixedHuffman
  import opened Lz77
  import opened Deflate

  /** A value read from the front of a bit list, and the bits after it. */
  datatype Read<T> = Read(value: T, rest: seq<bool>)

  /** The literal/length symbol whose `k`-bit code starts `bits`, if there is one. */
  function TryCode(bits: seq<bool>, k: nat): Option<nat>
  {
    if k <= |bits| then FixedSymbol(Code(k, MsbValue(bits[..k]))) else None
  }

  /** Read one literal/length symbol, shortest code first. */
  function ReadSymbol(bits: seq<bool>): (r: Option<Read<nat>>)
    ensures r.Some? ==> r.value.value <= 287 && |r.value.rest| + 7 <= |bits|
  {
    if TryCode(bits, 7).Some? then Some(Read(TryCode(bits, 7).value, bits[7..]))
    else if TryCode(bits, 8).Some? then Some(Read(TryCode(bits, 8).value, bits[8..]))
    else if TryCode(bits, 9).Some? then Some(Read(TryCode(bits, 9).value, bits[9..]))
    else None
  }

  /** Read `n` bits, least significant first. */
  function ReadLsb(bits: seq<bool>, n: nat): (r: Option<Read<nat>>)
    ensures r.Some? ==> |r.value.rest| + n == |bits|
  {
    if n <= |bits| then Some(Read(LsbValue(bits[..n]), bits[n..])) else None
  }

  /** Read `n` bits, most significant first. */
  function ReadMsb(bits: seq<bool>, n: nat): (r: Option<Read<nat>>)
    ensures r.Some? ==> |r.value.rest| + n == |bits|
  {
    if n <= |bits| then Some(Read(MsbValue(bits[..n]), bits[n..])) else None
  }

  /** A distance: its five-bit symbol, most significant first, then the symbol's extra bits. */
  function ReadDistance(bits: seq<bool>): (r: Option<Read<nat>>)
    ensures r.Some? ==> |r.value.rest| <= |bits|
  {
    match ReadMsb(bits, 5)
    case None => None
    case Some(ds) =>
      if ds.value > 29 then None
      else match ReadLsb(ds.rest, DistanceBits[ds.value])
        case None => None
        case Some(de) => Some(Read(DistanceBase[ds.value] + de.value, de.rest))
  }

  /** After length symbol `symbol`: its extra bits, giving the length. */
  function ReadLength(symbol: nat, bits: seq<bool>): (r: Option<Read<nat>>)
    requires 257 <= symbol
    ensures r.Some? ==> |r.value.rest| <= |bits|
  {
    if symbol > 285 then None
    else match ReadLsb(bits, LengthBits[symbol - 257])
      case None => None
      case Some(le) => Some(Read(LengthBase[symbol - 257] + le.value, le.rest))
  }

  /** After length symbol `symbol`: the length and the distance, as a back-reference. */
  function ReadCopy(symbol: nat, bits: seq<bool>): (r: Option<Read<Token>>)
    requires 257 <= symbol
    ensures r.Some? ==> |r.value.rest| <= |bits|
  {
    match ReadLength(symbol, bits)
    case None => None
    case Some(l) =>
      match ReadDistance(l.rest)
      case None => None
      case Some(d) => Some(Read(Copy(l.value, d.value), d.rest))
  }

  function Prepend(t: Token, r: Option<seq<Token>>): Option<seq<Token>>
  {
    match r
    case None => None
    case Some(ts) => Some([t] + ts)
  }

  /** The tokens up to the end-of-block symbol; whatever follows it is not read. */
  function ReadTokens(bits: seq<bool>): Option<seq<Token>>
    decreases |bits|
  {
    match ReadSymbol(bits)
    case None => None
    case Some(sym) =>
      if sym.value < 256 then Prepend(Literal(sym.value as bv8), ReadTokens(sym.rest))
      else if sym.value == EndOfBlock then Some([])
      else match ReadCopy(sym.value, sym.rest)
        case None => None
        case Some(c) => Prepend(c.value, ReadTokens(c.rest))
  }

  /** A single final block with fixed codes: the header bits, then its tokens. */
  function InflateBits(bits: seq<bool>): Option<seq<Token>>
  {
    if 3 <= |bits| && bits[..3] == FinalFixedHeader then ReadTokens(bits[3..]) else None
  }

  // ---------------------------------------------------------------------
  // Reading back what the writer wrote.
  // ---------------------------------------------------------------------

  /** A code shorter than the one of `s` that starts its bits is no code: the table is prefix-free. */
  lemma ShorterFails(s: nat, more: seq<bool>, k: nat)
    requires s <= 287 && k < FixedCode(s).length
    ensures TryCode(SymbolBits(s) + more, k).None?
  {
    var bs, c := SymbolBits(s), FixedCode(s);
    var bits := bs + more;
    if k <= |bits| {
      assert bits[..k] == bs[..k];
      MsbPrefix(bs, k);
      var a := Code(k, MsbValue(bs[..k]));
      assert IsPrefix(a, c);
      if FixedSymbol(a).Some? {
        ValidPrefix(a, c);
        assert false;
      }
    }
  }

  /** The code of `s` read back whole. */
  lemma WholeCode(s: nat, more: seq<bool>)
    requires s <= 287
    ensures TryCode(SymbolBits(s) + more, FixedCode(s).length) == Some(s)
  {
    var bs := SymbolBits(s);
    assert (bs + more)[..|bs|] == bs;
  }

  lemma ReadSymbolBits(s: nat, more: seq<bool>)
    requires s <= 287
    ensures ReadSymbol(SymbolBits(s) + more) == Some(Read(s, more))
  {
    var bits := SymbolBits(s) + more;
    var n := FixedCode(s).length;
    WholeCode(s, more);
    assert bits[n..] == more;
    if n == 8 {
      ShorterFails(s, more, 7);
    } else if n == 9 {
      ShorterFails(s, more, 7);
      ShorterFails(s, more, 8);
    }
  }

  lemma ReadLsbBits(v: nat, n: nat, more: seq<bool>)
    requires v < Pow2(n)
    ensures ReadLsb(ExtraOrder(v, n) + more, n) == Some(Read(v, more))
  {
    var bits := ExtraOrder(v, n) + more;
    assert bits[..n] == ExtraOrder(v, n) && bits[n..] == more;
    DivModUnique(v, Pow2(n), 0, v);
  }

  lemma ReadMsbBits(v: nat, n: nat, more: seq<bool>)
    requires v < Pow2(n)
    ensures ReadMsb(CodeOrder(v, n) + more, n) == Some(Read(v, more))
  {
    var bits := CodeOrder(v, n) + more;
    assert bits[..n] == CodeOrder(v, n) && bits[n..] == more;
    DivModUnique(v, Pow2(n), 0, v);
  }

  lemma ReadDistanceSteps(bits: seq<bool>, dv: nat, drest: seq<bool>, ev: nat, erest: seq<bool>, distance: nat)
    requires dv <= 29
    requires ReadMsb(bits, 5) == Some(Read(dv, drest))
    requires ReadLsb(drest, DistanceBits[dv]) == Some(Read(ev, erest))
    requires DistanceBase[dv] + ev == distance
    ensures ReadDistance(bits) == Some(Read(distance, erest))
  {
  }

  /** A distance within the window is read back from its bits. */
  lemma ReadDistanceBits(distance: nat, more: seq<bool>)
    requires 1 <= distance <= MaxWindowSize
    ensures ReadDistance(DistancePart(distance) + more) == Some(Read(distance, more))
  {
    var de := DistanceExtra(distance);
    DistanceExtraDecodes(distance);
    DistanceFits(distance);
    var co, eo := CodeOrder(de.symbol, 5), ExtraOrder(de.extra, de.count);
    var tail := eo + more;
    Regroup(co, eo, more);
    assert Pow2(5) == 32;
    ReadMsbBits(de.symbol, 5, tail);
    ReadLsbBits(de.extra, de.count, more);
    assert DistancePart(distance) + more == co + tail;
    ReadDistanceSteps(DistancePart(distance) + more, de.symbol, tail, de.extra, more, distance);
  }

  lemma ReadLengthSteps(symbol: nat, bits: seq<bool>, lv: nat, lrest: seq<bool>, length: nat)
    requires 257 <= symbol <= 285
    requires ReadLsb(bits, LengthBits[symbol - 257]) == Some(Read(lv, lrest))
    requires LengthBase[symbol - 257] + lv == length
    ensures ReadLength(symbol, bits) == Some(Read(length, lrest))
  {
  }

  /** The bits after a length symbol give back the back-reference and stop where its distance ends. */
  lemma ReadCopyBits(length: nat, distance: nat, more: seq<bool>)
    requires TokenFits(Copy(length, distance))
    ensures LengthCode(length).symbol >= 257
    ensures
      var le := LengthCode(length);
      ReadCopy(le.symbol, ExtraOrder(le.extra, le.count) + (DistancePart(distance) + more))
        == Some(Read(Copy(length, distance), more))
  {
    var le := LengthCode(length);
    LengthCodeDecodes(length);
    var rest := DistancePart(distance) + more;
    var bits := ExtraOrder(le.extra, le.count) + rest;
    ReadLsbBits(le.extra, le.count, rest);
    ReadLengthSteps(le.symbol, bits, le.extra, rest, length);
    ReadDistanceBits(distance, more);
  }

  /** Reading a token's bits gives back the token, then reading goes on after them. */
  lemma ReadTokenBits(t: Token, more: seq<bool>)
    requires TokenFits(t)
    ensures ReadTokens(TokenBits(t) + more) == Prepend(t, ReadTokens(more))
  {
    match t
    case Literal(b) =>
      ReadSymbolBits(b as nat, more);
      assert (b as nat) as bv8 == b;
    case Copy(length, distance) =>
      LengthFits(length);
      var le := LengthCode(length);
      var sb, eb, db := SymbolBits(le.symbol), ExtraOrder(le.extra, le.count), DistancePart(distance);
      var rest := eb + (db + more);
      Regroup(sb, eb, db);
      Regroup(sb, eb + db, more);
      Regroup(eb, db, more);
      ReadSymbolBits(le.symbol, rest);
      ReadCopyBits(length, distance, more);
  }

  /** The tokens of a block are read back up to its end-of-block symbol, whatever follows. */
  lemma {:induction false} ReadStream(ts: seq<Token>, more: seq<bool>)
    requires AllFit(ts)
    ensures ReadTokens(StreamBits(ts) + SymbolBits(EndOfBlock) + more) == Some(ts)
    decreases |ts|
  {
    if |ts| == 0 {
      EmptyFront(StreamBits(ts), SymbolBits(EndOfBlock));
      ReadSymbolBits(EndOfBlock, more);
    } else {
      var tail := StreamStep(ts, more);
      ReadStream(ts[1..], more);
      ReadTokenBits(ts[0], tail);
      PrependFirst(ts, ReadTokens(tail));
    }
  }

  /** The stream of a non-empty token list: the first token's bits, then the rest's. */
  lemma StreamStep(ts: seq<Token>, more: seq<bool>) returns (tail: seq<bool>)
    requires AllFit(ts) && |ts| > 0
    ensures AllFit(ts[1..])
    ensures tail == StreamBits(ts[1..]) + SymbolBits(EndOfBlock) + more
    ensures StreamBits(ts) + SymbolBits(EndOfBlock) + more == TokenBits(ts[0]) + tail
  {
    assert AllFit(ts[1..]);
    tail := StreamBits(ts[1..]) + SymbolBits(EndOfBlock) + more;
    var tb, sb, eb := TokenBits(ts[0]), StreamBits(ts[1..]), SymbolBits(EndOfBlock);
    Regroup(tb, sb, eb);
    Regroup(tb, sb + eb, more);
  }

  lemma PrependFirst(ts: seq<Token>, r: Option<seq<Token>>)
    requires |ts| > 0 && r == Some(ts[1..])
    ensures Prepend(ts[0], r) == Some(ts)
  {
    assert [ts[0]] + ts[1..] == ts;
  }

  /** A block is read back whole, whatever padding follows it. */
  lemma InflateBlock(ts: seq<Token>, pad: seq<bool>)
    requires AllFit(ts)
    ensures InflateBits(BlockBits(ts) + pad) == Some(ts)
  {
    var bits := BlockBits(ts) + pad;
    var body := StreamBits(ts) + SymbolBits(EndOfBlock) + pad;
    var sb, eb := StreamBits(ts), SymbolBits(EndOfBlock);
    Regroup(FinalFixedHeader, sb, eb);
    Regroup(FinalFixedHeader, sb + eb, pad);
    assert bits == FinalFixedHeader + body;
    assert bits[..3] == FinalFixedHeader && bits[3..] == body;
    ReadStream(ts, pad);
  }

  /**
   * The round trip of the compressed data: unpacking the bytes `Compress`
   * writes and reading them as a fixed-Huffman block gives back every
   * token list the encoder can produce.
   */
  lemma InflateCompress(ts: seq<Token>)
    requires AllFit(ts)
    ensures InflateBits(Unpack(Compress(ts))) == Some(ts)
  {
    CompressUnpacks(ts);
    InflateBlock(ts, Zeros(PadLength(|BlockBits(ts)|)));
  }
}
