/**
 * `encode` of src/lib.rs put together: the input is cut into tokens,
 * written as one fixed-Huffman block, and wrapped in a single-entry ZIP
 * archive — local file header, compressed data, central directory header
 * and end-of-central-directory record, in that order (section 4.3.6 of
 * the APPNOTE).
 *
 * The file is read as a whole sequence of bytes and the archive is
 * returned rather than written; the stored name is the bytes of the input
 * path.
 */
module Zip {
  import opened Wrappers
  import opened BitWriter
  import Crc32
  import opened Header
  import opened Lz77
  import opened Deflate
  import opened Inflate

  /** A count converted with `as u32`: its value modulo 2^32. */
  function U32(n: nat): bv32
  {
    (n % 0x1_0000_0000) as bv32
  }

  /** The four parts of the archive, in the order they are written. */
  datatype Archive = Archive(local: seq<bv8>, data: seq<bv8>, central: seq<bv8>, end: seq<bv8>)

  /** The archive file: its parts one after the other. */
  function Bytes(a: Archive): seq<bv8>
  {
    a.local + a.data + a.central + a.end
  }

  /**
   * The headers around compressed `data` of an input of `size` bytes with
   * CRC `crc`: the end record places the central directory right after
   * the data.
   */
  function Assemble(crc: bv32, size: bv32, data: seq<bv8>, name: seq<bv8>): (a: Archive)
    ensures |a.local| == 30 + |name| && |a.central| == 46 + |name| && |a.end| == 22
  {
    var local := LocalHeader(crc, size, U32(|data|), name);
    var central := CentralHeader(crc, size, U32(|data|), name);
    Archive(local, data, central, EndHeader(U32(|central|), U32(|local| + |data|)))
  }

  /**
   * `encode`: the CRC and the uncompressed size come from the bytes read,
   * the compressed size from the flushed writer.
   */
  function Encode(input: seq<bv8>, name: seq<bv8>): (a: Archive)
    ensures |a.local| == 30 + |name| && |a.central| == 46 + |name| && |a.end| == 22
  {
    var s := Tokenize(input);
    TokenizeFits(input);
    Assemble(Crc32.GetCrc32(s.crc).0, U32(|input|), Compress(s.tokens), name)
  }

  // ---------------------------------------------------------------------
  // What a reader finds in the archive.
  // ---------------------------------------------------------------------

  /**
   * The compressed data is a fixed-Huffman block that a decompressor
   * reads back into tokens replaying to exactly the input.
   */
  lemma DataInflates(input: seq<bv8>, name: seq<bv8>)
    ensures var tokens := InflateBits(Unpack(Encode(input, name).data));
      tokens.Some? && Expand([], tokens.value) == Some(input)
  {
    var s := Tokenize(input);
    TokenizeFits(input);
    InflateCompress(s.tokens);
    TokenizeRoundTrip(input);
  }

  /** Both headers carry the CRC-32 of the input and its two sizes, at the APPNOTE's offsets. */
  lemma HeadersDescribeData(input: seq<bv8>, name: seq<bv8>)
    ensures var a := Encode(input, name);
      && a.local[..4] == LocalSignature && a.central[..4] == CentralSignature
      && Read32(a.local, 14) == Crc32.RefCrc32(input) && Read32(a.central, 16) == Crc32.RefCrc32(input)
      && Read32(a.local, 18) == U32(|a.data|) && Read32(a.central, 20) == U32(|a.data|)
      && Read32(a.local, 22) == U32(|input|) && Read32(a.central, 24) == U32(|input|)
      && Read16(a.local, 8) == 8 && Read16(a.central, 10) == 8
      && a.local[30..] == name && a.central[46..] == name
  {
    var s := Tokenize(input);
    TokenizeFits(input);
    TokenizeCrc(input);
    Crc32.GetCrc32IsReflectedCrc32(input);
    var crc := Crc32.GetCrc32(s.crc).0;
    AssembleHeaders(crc, U32(|input|), Compress(s.tokens), name);
  }

  lemma AssembleHeaders(crc: bv32, size: bv32, data: seq<bv8>, name: seq<bv8>)
    ensures var a := Assemble(crc, size, data, name);
      && a.local[..4] == LocalSignature && a.central[..4] == CentralSignature
      && Read32(a.local, 14) == crc && Read32(a.central, 16) == crc
      && Read32(a.local, 18) == U32(|a.data|) && Read32(a.central, 20) == U32(|a.data|)
      && Read32(a.local, 22) == size && Read32(a.central, 24) == size
      && Read16(a.local, 8) == 8 && Read16(a.central, 10) == 8
      && a.local[30..] == name && a.central[46..] == name
  {
    LocalFields(crc, size, U32(|data|), name);
    CentralFields(crc, size, U32(|data|), name);
  }

  /**
   * The end record of `a` names one entry on this disk and one in all,
   * and gives the central directory's size and its offset: right after
   * the local header and the data.
   */
  predicate EndLocates(a: Archive)
    requires |a.end| == 22
  {
    && a.end[..4] == EndSignature
    && Read16(a.end, 8) == 1 && Read16(a.end, 10) == 1
    && Read32(a.end, 12) == U32(|a.central|)
    && Read32(a.end, 16) == U32(|a.local| + |a.data|)
  }

  lemma EndLocatesCentral(input: seq<bv8>, name: seq<bv8>)
    ensures EndLocates(Encode(input, name))
  {
    var s := Tokenize(input);
    TokenizeFits(input);
    AssembleEnd(Crc32.GetCrc32(s.crc).0, U32(|input|), Compress(s.tokens), name);
  }

  lemma AssembleEnd(crc: bv32, size: bv32, data: seq<bv8>, name: seq<bv8>)
    ensures EndLocates(Assemble(crc, size, data, name))
  {
    var local := LocalHeader(crc, size, U32(|data|), name);
    var central := CentralHeader(crc, size, U32(|data|), name);
    assert Assemble(crc, size, data, name) == Archive(local, data, central, EndHeader(U32(|central|), U32(|local| + |data|)));
    EndRecord(local, data, central);
  }

  lemma EndRecord(local: seq<bv8>, data: seq<bv8>, central: seq<bv8>)
    ensures EndLocates(Archive(local, data, central, EndHeader(U32(|central|), U32(|local| + |data|))))
  {
    EndFields(U32(|central|), U32(|local| + |data|));
  }

  /**
   * The archive file holds its parts one after the other, the end record
   * last. For an archive whose headers start with their signatures and
   * whose end record locates the central directory (as `Encode` gives, by
   * `HeadersDescribeData` and `EndLocatesCentral`), a reader that takes the
   * end record from the last 22 bytes finds there the size of the central
   * directory and the position in the file where it starts (both as
   * 32-bit counts), and the central directory signature at that position.
   */
  lemma Layout(a: Archive)
    requires |a.local| >= 30 && |a.central| >= 46 && |a.end| == 22 && EndLocates(a)
    requires a.local[..4] == LocalSignature && a.central[..4] == CentralSignature
    ensures var b, c := Bytes(a), |a.local| + |a.data|;
      && |b| == c + |a.central| + 22
      && b[..|a.local|] == a.local
      && b[|a.local|..c] == a.data
      && b[c..c + |a.central|] == a.central
      && b[|b| - 22..] == a.end
      && b[..4] == LocalSignature && b[c..c + 4] == CentralSignature && b[|b| - 22..|b| - 18] == EndSignature
      && Read32(b, |b| - 10) == U32(|a.central|)
      && Read32(b, |b| - 6) == U32(c)
  {
    var b, c := Bytes(a), |a.local| + |a.data|;
    assert b[..|a.local|] == a.local;
    assert b[|a.local|..c] == a.data;
    assert b[c..c + |a.central|] == a.central;
    assert b[|b| - 22..] == a.end;
    PartsRead(b, a.local, a.central, a.end, c);
  }

  /**
   * Reading an archive file laid out as `p`, then `r` at `c`, then a
   * 22-byte `t` last: the first four bytes of each part, and the two
   * 32-bit fields at 12 and 16 of `t`, are found at their file positions.
   */
  lemma PartsRead(b: seq<bv8>, p: seq<bv8>, r: seq<bv8>, t: seq<bv8>, c: nat)
    requires 4 <= |p| <= c && 4 <= |r| && |t| == 22 && |b| == c + |r| + 22
    requires b[..|p|] == p && b[c..c + |r|] == r && b[|b| - 22..] == t
    ensures b[..4] == p[..4] && b[c..c + 4] == r[..4] && b[|b| - 22..|b| - 18] == t[..4]
    ensures Read32(b, |b| - 10) == Read32(t, 12) && Read32(b, |b| - 6) == Read32(t, 16)
  {
    assert b[..4] == p[..4];
    assert b[c..c + 4] == r[..4];
    assert b[|b| - 22..|b| - 18] == t[..4];
    assert b[|b| - 22..|b| - 22 + |t|] == t;
    Read32Slice(b, |b| - 22, t, 12);
    Read32Slice(b, |b| - 22, t, 16);
  }
}
