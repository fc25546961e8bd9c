/**
 * The bit writer of src/lib.rs: a one-byte accumulator that packs bits
 * into bytes for DEFLATE.
 *
 * Bits enter the accumulator from the bottom (`ShiftIn`). When a
 * ninth bit arrives the full byte is bit-reversed and appended to the
 * output, so the first bit of every byte lands in its least significant
 * bit, as section 3.1.1 of RFC 1951 requires. Flushing is lazy: a full
 * accumulator is only emptied when the next bit comes.
 *
 * `Holds(w, H)` relates a writer to the bit list `H` appended so far; the
 * lemmas show every operation keeps it, and that the final `Flush` emits
 * exactly `H` packed eight bits per byte, zero-padded at the end.
 */
module BitWriter {
  import opened Bits

  /** `bitCount` bits are waiting in `buffer`; `output` holds the finished bytes. */
  datatype BitWriter = BitWriter(bitCount: nat, buffer: bv8, output: seq<bv8>)

  function New(): BitWriter
  {
    BitWriter(0, 0, [])
  }

  /** Emit the full accumulator, bit-reversed, and empty it. */
  function FlushToOutput(w: BitWriter): BitWriter
  {
    BitWriter(0, 0, w.output + [Reverse8(w.buffer)])
  }

  /** Append one bit; a full accumulator is emitted first. */
  function PushBit(w: BitWriter, bit: bool): BitWriter
  {
    var w1 := if w.bitCount == 8 then FlushToOutput(w) else w;
    BitWriter(w1.bitCount + 1, ShiftIn(w1.buffer, bit), w1.output)
  }

  /** Append the bits of `bs`, first to last. */
  function PushBits(w: BitWriter, bs: seq<bool>): BitWriter
    decreases |bs|
  {
    if |bs| == 0 then w else PushBits(PushBit(w, bs[0]), bs[1..])
  }

  /** The low `n` bits of `v`, most significant first: the order of a Huffman code. */
  function CodeOrder(v: nat, n: nat): (bs: seq<bool>)
    ensures |bs| == n
    ensures MsbValue(bs) == v % Pow2(n)
  {
    LowBitsValue(v, n);
    MsbReverse(LowBits(v, n));
    Reverse(LowBits(v, n))
  }

  /** The low `n` bits of `v`, least significant first: the order of extra bits. */
  function ExtraOrder(v: nat, n: nat): (bs: seq<bool>)
    ensures |bs| == n
    ensures LsbValue(bs) == v % Pow2(n)
  {
    LowBitsValue(v, n);
    LowBits(v, n)
  }

  /**
   * `code_bits`: append the low `n` bits of the 16-bit value `v`, most
   * significant first; bit `n - 1 - i` goes in at step `i`.
   */
  function CodeBits(w: BitWriter, v: nat, n: nat): BitWriter
    requires v < 0x1_0000 && n <= 16
  {
    PushBits(w, CodeOrder(v, n))
  }

  /** `extra_bits`: append the low `n` bits of the 16-bit value `v`, least significant first. */
  function ExtraBits(w: BitWriter, v: nat, n: nat): BitWriter
    requires v < 0x1_0000 && n <= 16
  {
    PushBits(w, ExtraOrder(v, n))
  }

  /**
   * Emit a partly filled accumulator: shift its bits to the top of the
   * byte, in place, and append that byte bit-reversed. The bit count is
   * left as it was.
   */
  function Flush(w: BitWriter): BitWriter
    requires w.bitCount <= 8
  {
    if w.bitCount > 0 then
      var shifted := ShiftUp(w.buffer, 8 - w.bitCount);
      w.(buffer := shifted, output := w.output + [Reverse8(shifted)])
    else w
  }

  // ---------------------------------------------------------------------
  // The bit-list view.
  // ---------------------------------------------------------------------

  /** Bits packed eight per byte, the first of each eight in bit 0. */
  function Pack(bits: seq<bool>): (bytes: seq<bv8>)
    requires |bits| % 8 == 0
    ensures 8 * |bytes| == |bits|
    decreases |bits|
  {
    if |bits| == 0 then [] else Pack(bits[..|bits| - 8]) + [ByteOf(bits[|bits| - 8..])]
  }

  /** Byte `k` of a packing carries bits `8k` to `8k + 7`, the first in bit 0. */
  lemma {:induction false} PackBits(bits: seq<bool>, k: nat)
    requires |bits| % 8 == 0 && k < |bits| / 8
    ensures BitsOf(Pack(bits)[k]) == bits[8 * k .. 8 * k + 8]
    decreases |bits|
  {
    var front, last := bits[..|bits| - 8], bits[|bits| - 8..];
    var y := PackByte(bits, k, front, last);
    if k < |front| / 8 {
      PackBits(front, k);
      PrefixSlice(bits, front, 8 * k, 8 * k + 8);
    } else {
      assert last == bits[8 * k .. 8 * k + 8];
    }
  }

  /** A slice inside a prefix is the same slice of the whole. */
  lemma PrefixSlice<T>(s: seq<T>, front: seq<T>, lo: nat, hi: nat)
    requires |front| <= |s| && front == s[..|front|] && lo <= hi <= |front|
    ensures s[lo..hi] == front[lo..hi]
  {
  }

  /** Byte `k` of a packing is byte `k` of the packing of all but the last eight bits, or the last eight packed. */
  lemma PackByte(bits: seq<bool>, k: nat, front: seq<bool>, last: seq<bool>) returns (y: bv8)
    requires |bits| % 8 == 0 && k < |bits| / 8
    requires front == bits[..|bits| - 8] && last == bits[|bits| - 8..]
    ensures y == Pack(bits)[k]
    ensures k < |front| / 8 ==> y == Pack(front)[k]
    ensures k == |front| / 8 ==> y == ByteOf(last)
  {
    var bytes := Pack(bits);
    assert bytes == Pack(front) + [ByteOf(last)];
    y := bytes[k];
  }

  /** The bits a reader takes from `bytes`: each byte in turn, bit 0 first. */
  function Unpack(bytes: seq<bv8>): (bits: seq<bool>)
    ensures |bits| == 8 * |bytes|
  {
    if |bytes| == 0 then [] else Unpack(bytes[..|bytes| - 1]) + BitsOf(bytes[|bytes| - 1])
  }

  /** Unpacking undoes packing. */
  lemma {:induction false} UnpackPack(bits: seq<bool>)
    requires |bits| % 8 == 0
    ensures Unpack(Pack(bits)) == bits
    decreases |bits|
  {
    if |bits| > 0 {
      var front, last := bits[..|bits| - 8], bits[|bits| - 8..];
      var bytes := Pack(bits);
      assert bytes == Pack(front) + [ByteOf(last)];
      assert bytes[..|bytes| - 1] == Pack(front);
      UnpackPack(front);
      assert bits == front + last;
    }
  }

  /** The number of zero bits that complete a final partial byte. */
  function PadLength(n: nat): (p: nat)
    ensures p < 8 && (n + p) % 8 == 0
  {
    (8 - n % 8) % 8
  }

  /** `bits` followed by zero bits up to a whole number of bytes. */
  function Padded(bits: seq<bool>): (r: seq<bool>)
    ensures |r| % 8 == 0
  {
    bits + Zeros(PadLength(|bits|))
  }

  /** The accumulator after the bits `p` were shifted into an empty one. */
  function Accum(p: seq<bool>): bv8
    decreases |p|
  {
    if |p| == 0 then 0 else ShiftIn(Accum(p[..|p| - 1]), p[|p| - 1])
  }

  /** An accumulator of at most eight bits holds them reversed, with zeros above. */
  lemma {:induction false} AccumBits(p: seq<bool>)
    requires |p| <= 8
    ensures BitsOf(Accum(p)) == Reverse(p) + Zeros(8 - |p|)
    decreases |p|
  {
    if |p| == 0 {
      assert BitsOf(0) == Zeros(8);
    } else {
      var q, b := p[..|p| - 1], p[|p| - 1];
      assert p == q + [b];
      AccumBits(q);
      ShiftInBit(Accum(q), b);
      ReverseAppend(q, [b]);
      assert (Reverse(q) + Zeros(8 - |q|))[..7] == Reverse(q) + Zeros(8 - |p|);
    }
  }

  /** An accumulator holding `k <= 8` bits is below `2^k`. */
  lemma {:induction false} AccumBound(p: seq<bool>)
    requires |p| <= 8
    ensures Accum(p) as int < Pow2(|p|)
    decreases |p|
  {
    if |p| > 0 {
      var q := p[..|p| - 1];
      AccumBound(q);
      ShiftInValue(Accum(q), p[|p| - 1]);
      assert Pow2(|q|) <= 128 by { Pow2Monotone(|q|, 7); }
    }
  }

  lemma AccumSnoc(p: seq<bool>, b: bool)
    ensures Accum(p + [b]) == ShiftIn(Accum(p), b)
  {
    assert (p + [b])[..|p|] == p;
  }

  /**
   * The writer has been handed the bits `H`: the finished bytes pack all
   * but the last `bitCount` of them, and the accumulator holds those last
   * bits, shifted in one by one.
   */
  predicate Holds(w: BitWriter, H: seq<bool>)
  {
    && w.bitCount <= 8
    && |H| == 8 * |w.output| + w.bitCount
    && w.output == Pack(H[..8 * |w.output|])
    && w.buffer == Accum(H[8 * |w.output|..])
  }

  lemma NewHolds()
    ensures Holds(New(), [])
  {
  }

  /** A full accumulator, reversed, is the byte that packs its bits. */
  lemma FullByte(w: BitWriter, H: seq<bool>)
    requires Holds(w, H) && w.bitCount == 8
    ensures Reverse8(w.buffer) == ByteOf(H[8 * |w.output|..])
  {
    var pending := H[8 * |w.output|..];
    AccumBits(pending);
    assert Zeros(0) == [];
    assert BitsOf(w.buffer) == Reverse(pending);
    Reverse8Bits(w.buffer);
    ReverseReverse(pending);
    BitsOfInjective(Reverse8(w.buffer), ByteOf(pending));
  }

  /** Packing one more whole byte appends it. */
  lemma PackSnoc(front: seq<bool>, last: seq<bool>)
    requires |front| % 8 == 0 && |last| == 8
    ensures Pack(front + last) == Pack(front) + [ByteOf(last)]
  {
    var bits := front + last;
    assert bits[..|bits| - 8] == front;
    assert bits[|bits| - 8..] == last;
  }

  /** A writer's state, given the bits already packed and the bits still pending. */
  lemma HoldsOfParts(w: BitWriter, done: seq<bool>, pending: seq<bool>, H: seq<bool>)
    requires |pending| == w.bitCount <= 8 && |done| == 8 * |w.output|
    requires w.output == Pack(done) && w.buffer == Accum(pending) && H == done + pending
    ensures Holds(w, H)
  {
    assert H[..|done|] == done;
    assert H[|done|..] == pending;
  }

  lemma PushBitHolds(w: BitWriter, H: seq<bool>, bit: bool)
    requires Holds(w, H)
    ensures Holds(PushBit(w, bit), H + [bit])
  {
    var n := 8 * |w.output|;
    var done, pending := H[..n], H[n..];
    assert H == done + pending;
    if w.bitCount == 8 {
      PushBitFull(w, done, pending, bit);
    } else {
      PushBitPartial(w, done, pending, bit);
    }
  }

  lemma PushBitFull(w: BitWriter, done: seq<bool>, pending: seq<bool>, bit: bool)
    requires |pending| == w.bitCount == 8 && |done| == 8 * |w.output|
    requires w.output == Pack(done) && w.buffer == Accum(pending)
    ensures Holds(PushBit(w, bit), done + pending + [bit])
  {
    var w' := PushBit(w, bit);
    FullByte(w, done + pending);
    PackSnoc(done, pending);
    AccumSnoc([], bit);
    assert [] + [bit] == [bit];
    HoldsOfParts(w', done + pending, [bit], done + pending + [bit]);
  }

  /**
   * `flush_to_output` on a full accumulator empties it and moves its byte
   * to the output: the writer still holds the same bits.
   */
  lemma FlushToOutputHolds(w: BitWriter, H: seq<bool>)
    requires Holds(w, H) && w.bitCount == 8
    ensures Holds(FlushToOutput(w), H)
    ensures FlushToOutput(w).bitCount == 0 && FlushToOutput(w).buffer == 0
    ensures |FlushToOutput(w).output| == |w.output| + 1
  {
    var n := 8 * |w.output|;
    var done, pending := H[..n], H[n..];
    assert H == done + pending;
    FullByte(w, H);
    PackSnoc(done, pending);
    assert H + [] == H;
    HoldsOfParts(FlushToOutput(w), H, [], H);
  }

  lemma PushBitPartial(w: BitWriter, done: seq<bool>, pending: seq<bool>, bit: bool)
    requires |pending| == w.bitCount < 8 && |done| == 8 * |w.output|
    requires w.output == Pack(done) && w.buffer == Accum(pending)
    ensures Holds(PushBit(w, bit), done + pending + [bit])
  {
    AccumSnoc(pending, bit);
    HoldsOfParts(PushBit(w, bit), done, pending + [bit], done + pending + [bit]);
  }

  /** Appending two parts one after the other appends their concatenation. */
  lemma Associate(H: seq<bool>, a: seq<bool>, b: seq<bool>, ab: seq<bool>)
    requires ab == a + b
    ensures H + a + b == H + ab
  {
  }

  lemma AppendNothing(H: seq<bool>, e: seq<bool>)
    requires |e| == 0
    ensures H + e == H
  {
  }

  lemma {:induction false} PushBitsHolds(w: BitWriter, H: seq<bool>, bs: seq<bool>)
    requires Holds(w, H)
    ensures Holds(PushBits(w, bs), H + bs)
    decreases |bs|
  {
    if |bs| > 0 {
      var w1, H1 := PushBit(w, bs[0]), H + [bs[0]];
      PushBitHolds(w, H, bs[0]);
      PushBitsHolds(w1, H1, bs[1..]);
      Associate(H, [bs[0]], bs[1..], bs);
      assert PushBits(w, bs) == PushBits(w1, bs[1..]);
    } else {
      AppendNothing(H, bs);
    }
  }

  /** `code_bits` appends the low `n` bits of `v`, most significant first. */
  lemma CodeBitsHolds(w: BitWriter, H: seq<bool>, v: nat, n: nat)
    requires Holds(w, H) && v < 0x1_0000 && n <= 16
    ensures Holds(CodeBits(w, v, n), H + CodeOrder(v, n))
  {
    PushBitsHolds(w, H, CodeOrder(v, n));
  }

  /** `extra_bits` appends the low `n` bits of `v`, least significant first. */
  lemma ExtraBitsHolds(w: BitWriter, H: seq<bool>, v: nat, n: nat)
    requires Holds(w, H) && v < 0x1_0000 && n <= 16
    ensures Holds(ExtraBits(w, v, n), H + ExtraOrder(v, n))
  {
    PushBitsHolds(w, H, ExtraOrder(v, n));
  }

  /**
   * Between calls the accumulator holds at most eight bits, and the bits
   * above `bitCount` are clear.
   */
  lemma HoldsBounds(w: BitWriter, H: seq<bool>)
    requires Holds(w, H)
    ensures w.bitCount <= 8
    ensures forall j :: w.bitCount <= j < 8 ==> !BitsOf(w.buffer)[j]
    ensures w.buffer as int < Pow2(w.bitCount)
  {
    AccumBits(H[8 * |w.output|..]);
    AccumBound(H[8 * |w.output|..]);
  }

  /** The partial byte that `Flush` emits carries the pending bits, zero-padded on top. */
  lemma PartialBits(buffer: bv8, pending: seq<bool>)
    requires 0 < |pending| <= 8 && buffer == Accum(pending)
    ensures BitsOf(Reverse8(ShiftUp(buffer, 8 - |pending|))) == pending + Zeros(8 - |pending|)
  {
    var k := |pending|;
    AccumBits(pending);
    ShiftUpBits(buffer, 8 - k);
    assert (Reverse(pending) + Zeros(8 - k))[..k] == Reverse(pending);
    Reverse8Bits(ShiftUp(buffer, 8 - k));
    ReverseAppend(Zeros(8 - k), Reverse(pending));
    ReverseReverse(pending);
    assert Reverse(Zeros(8 - k)) == Zeros(8 - k);
  }

  lemma PartialByte(buffer: bv8, pending: seq<bool>, x: bv8, last: seq<bool>)
    requires 0 < |pending| <= 8 && buffer == Accum(pending)
    requires x == Reverse8(ShiftUp(buffer, 8 - |pending|)) && last == pending + Zeros(8 - |pending|)
    ensures x == ByteOf(last)
  {
    PartialBits(buffer, pending);
    BitsOfInjective(x, ByteOf(last));
  }

  /**
   * `flush` appends one byte exactly when bits are pending, and the output
   * is then the appended bits packed eight per byte (the first bit of each
   * byte in bit 0), zero-padded. The bit count is kept; the accumulator is
   * left shifted to the top of the byte, so the byte appended last is its
   * bit reversal.
   */
  lemma FlushPacks(w: BitWriter, H: seq<bool>)
    requires Holds(w, H)
    ensures |Flush(w).output| == |w.output| + (if w.bitCount > 0 then 1 else 0)
    ensures Flush(w).bitCount == w.bitCount
    ensures Flush(w).buffer == if w.bitCount > 0 then ShiftUp(w.buffer, 8 - w.bitCount) else w.buffer
    ensures w.bitCount > 0 ==> Flush(w).output[|w.output|] == Reverse8(Flush(w).buffer)
    ensures Flush(w).output == Pack(Padded(H))
  {
    FlushShape(w);
    FlushOutput(w, H);
  }

  /** The output half of `FlushPacks`. */
  lemma FlushOutput(w: BitWriter, H: seq<bool>)
    requires Holds(w, H)
    ensures Flush(w).output == Pack(Padded(H))
  {
    if w.bitCount > 0 {
      var n := 8 * |w.output|;
      var done, pending := H[..n], H[n..];
      assert H == done + pending;
      FlushPartial(w, done, pending);
    } else {
      FlushEmpty(w, H);
    }
  }

  /** With nothing pending, `flush` leaves the writer alone and there is nothing to pad. */
  lemma FlushEmpty(w: BitWriter, H: seq<bool>)
    requires Holds(w, H) && w.bitCount == 0
    ensures Flush(w).output == Pack(Padded(H))
  {
    assert PadLength(|H|) == 0;
    assert Padded(H) == H[..8 * |w.output|];
  }

  lemma FlushShape(w: BitWriter)
    requires w.bitCount <= 8
    ensures w.bitCount == 0 ==> Flush(w) == w
    ensures w.bitCount > 0 ==> Flush(w).buffer == ShiftUp(w.buffer, 8 - w.bitCount)
    ensures w.bitCount > 0 ==> Flush(w).output == w.output + [Reverse8(Flush(w).buffer)]
    ensures Flush(w).bitCount == w.bitCount
  {
  }

  /** `k` pending bits after whole bytes are padded with `8 - k` zero bits. */
  lemma PaddedAfter(done: seq<bool>, pending: seq<bool>)
    requires |done| % 8 == 0 && 0 < |pending| <= 8
    ensures Padded(done + pending) == done + (pending + Zeros(8 - |pending|))
  {
    assert (|done| + |pending|) % 8 == |pending| % 8;
  }

  lemma FlushPartial(w: BitWriter, done: seq<bool>, pending: seq<bool>)
    requires 0 < |pending| == w.bitCount <= 8 && |done| == 8 * |w.output|
    requires w.output == Pack(done) && w.buffer == Accum(pending)
    ensures Flush(w).output == Pack(Padded(done + pending))
  {
    var last := pending + Zeros(8 - |pending|);
    var x := Reverse8(ShiftUp(w.buffer, 8 - |pending|));
    PartialByte(w.buffer, pending, x, last);
    PaddedAfter(done, pending);
    PackSnoc(done, last);
    assert Flush(w).output == Pack(done) + [x];
  }

  /** After `flush`, bit `j` of output byte `k` is bit `8k + j` of the padded bit list. */
  lemma FlushBitOrder(w: BitWriter, H: seq<bool>, k: nat, j: nat)
    requires Holds(w, H) && k < |Flush(w).output| && j < 8
    ensures BitsOf(Flush(w).output[k])[j] == Padded(H)[8 * k + j]
  {
    FlushOutput(w, H);
    PackBits(Padded(H), k);
  }
}
