/**
 * The ZIP records of src/lib.rs: little-endian 16- and 32-bit fields and
 * the byte layouts of the local file header, the central directory header
 * and the end-of-central-directory record of the PKWARE APPNOTE
 * (sections 4.3.7, 4.3.12 and 4.3.16). A header is its byte buffer.
 *
 * Every layout is stated field by field through `Read16`/`Read32`, the
 * little-endian readers that invert `Le16`/`Le32`.
 */
module Header {

  /** `push16`: the two bytes of `v`, low byte first. */
  function Le16(v: bv16): (s: seq<bv8>)
    ensures |s| == 2
  {
    [(v & 0xFF) as bv8, ((v >> 8) & 0xFF) as bv8]
  }

  /** `push32`: the four bytes of `v`, low byte first. */
  function Le32(v: bv32): (s: seq<bv8>)
    ensures |s| == 4
  {
    [(v & 0xFF) as bv8, ((v >> 8) & 0xFF) as bv8, ((v >> 16) & 0xFF) as bv8, ((v >> 24) & 0xFF) as bv8]
  }

  /** The little-endian 16-bit field at offset `i`. */
  function Read16(s: seq<bv8>, i: nat): bv16
    requires i + 2 <= |s|
  {
    (s[i] as bv16) | ((s[i + 1] as bv16) << 8)
  }

  /** The little-endian 32-bit field at offset `i`. */
  function Read32(s: seq<bv8>, i: nat): bv32
    requires i + 4 <= |s|
  {
    (s[i] as bv32) | ((s[i + 1] as bv32) << 8) | ((s[i + 2] as bv32) << 16) | ((s[i + 3] as bv32) << 24)
  }

  lemma Le16Read(v: bv16)
    ensures Read16(Le16(v), 0) == v
  {
  }

  lemma Read16Le(s: seq<bv8>, i: nat)
    requires i + 2 <= |s|
    ensures Le16(Read16(s, i)) == s[i..i + 2]
  {
  }

  lemma Le32Read(v: bv32)
    ensures Read32(Le32(v), 0) == v
  {
  }

  lemma Read32Le(s: seq<bv8>, i: nat)
    requires i + 4 <= |s|
    ensures Le32(Read32(s, i)) == s[i..i + 4]
  {
  }

  /** A field read inside a slice `b` of `s` that starts at `off`. */
  lemma Read16Slice(s: seq<bv8>, off: nat, b: seq<bv8>, i: nat)
    requires off + |b| <= |s| && s[off..off + |b|] == b && i + 2 <= |b|
    ensures Read16(s, off + i) == Read16(b, i)
  {
    assert s[off + i] == b[i] && s[off + i + 1] == b[i + 1];
  }

  lemma Read32Slice(s: seq<bv8>, off: nat, b: seq<bv8>, i: nat)
    requires off + |b| <= |s| && s[off..off + |b|] == b && i + 4 <= |b|
    ensures Read32(s, off + i) == Read32(b, i)
  {
    assert s[off + i] == b[i] && s[off + i + 1] == b[i + 1];
    assert s[off + i + 2] == b[i + 2] && s[off + i + 3] == b[i + 3];
  }

  /** Signature of a local file header, "PK\x03\x04". */
  const LocalSignature: seq<bv8> := [0x50, 0x4B, 0x03, 0x04]

  /** Signature of a central directory header, "PK\x01\x02". */
  const CentralSignature: seq<bv8> := [0x50, 0x4B, 0x01, 0x02]

  /** Signature of the end-of-central-directory record, "PK\x05\x06". */
  const EndSignature: seq<bv8> := [0x50, 0x4B, 0x05, 0x06]

  /** The name length field: the byte length of the name, cut to 16 bits. */
  function NameLength(name: seq<bv8>): bv16
  {
    (|name| % 0x1_0000) as bv16
  }

  /**
   * The five 16-bit fields both headers share after their signature
   * (and, in the central header, after "version made by"): version needed
   * 2.0, no flags, method 8 (deflate), zero time and zero date.
   */
  function Preamble(): (r: seq<bv8>)
    ensures |r| == 10
  {
    Le16(0x0014) + Le16(0x0000) + Le16(0x0008) + Le16(0x0000) + Le16(0x0000)
  }

  lemma PreambleFields()
    ensures Read16(Preamble(), 0) == 0x0014 && Read16(Preamble(), 2) == 0
    ensures Read16(Preamble(), 4) == 8 && Read16(Preamble(), 6) == 0 && Read16(Preamble(), 8) == 0
  {
  }

  /** The CRC, the compressed size and the uncompressed size. */
  function Sums(crc: bv32, compressedSize: bv32, size: bv32): (r: seq<bv8>)
    ensures |r| == 12
  {
    Le32(crc) + Le32(compressedSize) + Le32(size)
  }

  lemma SumsFields(crc: bv32, compressedSize: bv32, size: bv32)
    ensures Read32(Sums(crc, compressedSize, size), 0) == crc
    ensures Read32(Sums(crc, compressedSize, size), 4) == compressedSize
    ensures Read32(Sums(crc, compressedSize, size), 8) == size
  {
    var r := Sums(crc, compressedSize, size);
    assert r[0..4] == Le32(crc) && r[4..8] == Le32(compressedSize) && r[8..12] == Le32(size);
    Le32Read(crc);
    Le32Read(compressedSize);
    Le32Read(size);
    Read32Slice(r, 0, Le32(crc), 0);
    Read32Slice(r, 4, Le32(compressedSize), 0);
    Read32Slice(r, 8, Le32(size), 0);
  }

  /**
   * `local_header(crc, before_size, after_size, name)`: `after_size` is
   * the compressed size and `before_size` the uncompressed one.
   */
  function LocalHeader(crc: bv32, beforeSize: bv32, afterSize: bv32, name: seq<bv8>): (r: seq<bv8>)
    ensures |r| == 30 + |name|
  {
    LocalSignature + Preamble() + Sums(crc, afterSize, beforeSize)
    + Le16(NameLength(name)) + Le16(0x0000) + name
  }

  /** The fields of a local file header, at the offsets of section 4.3.7 of the APPNOTE. */
  lemma LocalFields(crc: bv32, beforeSize: bv32, afterSize: bv32, name: seq<bv8>)
    ensures var r := LocalHeader(crc, beforeSize, afterSize, name);
      && r[..4] == LocalSignature
      && Read16(r, 4) == 0x0014 && Read16(r, 6) == 0 && Read16(r, 8) == 8
      && Read16(r, 10) == 0 && Read16(r, 12) == 0
      && Read32(r, 14) == crc && Read32(r, 18) == afterSize && Read32(r, 22) == beforeSize
      && Read16(r, 26) == NameLength(name) && Read16(r, 28) == 0
      && r[30..] == name
  {
    var r := LocalHeader(crc, beforeSize, afterSize, name);
    var p, m := Preamble(), Sums(crc, afterSize, beforeSize);
    assert r[4..14] == p;
    assert r[14..26] == m;
    assert r[26..28] == Le16(NameLength(name));
    assert r[28..30] == Le16(0);
    PreambleFields();
    SumsFields(crc, afterSize, beforeSize);
    Read16Slice(r, 4, p, 0);
    Read16Slice(r, 4, p, 2);
    Read16Slice(r, 4, p, 4);
    Read16Slice(r, 4, p, 6);
    Read16Slice(r, 4, p, 8);
    Read32Slice(r, 14, m, 0);
    Read32Slice(r, 14, m, 4);
    Read32Slice(r, 14, m, 8);
    Le16Read(NameLength(name));
    Le16Read(0);
    Read16Slice(r, 26, Le16(NameLength(name)), 0);
    Read16Slice(r, 28, Le16(0), 0);
  }

  /**
   * The fields of a central directory header after the name length: no
   * extra field, no comment, disk 0, no internal or external attributes,
   * and the local header at offset 0. All sixteen bytes are zero.
   */
  function CentralTrailer(): (r: seq<bv8>)
    ensures r == seq(16, _ => 0)
  {
    Le16(0x0000) + Le16(0x0000) + Le16(0x0000) + Le16(0x0000) + Le32(0x0000_0000) + Le32(0x0000_0000)
  }

  /** `central_header(crc, before_size, after_size, name)`, version made by 0x0314. */
  function CentralHeader(crc: bv32, beforeSize: bv32, afterSize: bv32, name: seq<bv8>): (r: seq<bv8>)
    ensures |r| == 46 + |name|
  {
    CentralSignature + Le16(0x0314) + Preamble() + Sums(crc, afterSize, beforeSize)
    + Le16(NameLength(name)) + CentralTrailer() + name
  }

  /** The fields of a central directory header, at the offsets of section 4.3.12 of the APPNOTE. */
  lemma CentralFields(crc: bv32, beforeSize: bv32, afterSize: bv32, name: seq<bv8>)
    ensures var r := CentralHeader(crc, beforeSize, afterSize, name);
      && r[..4] == CentralSignature && Read16(r, 4) == 0x0314
      && Read16(r, 6) == 0x0014 && Read16(r, 8) == 0 && Read16(r, 10) == 8
      && Read16(r, 12) == 0 && Read16(r, 14) == 0
      && Read32(r, 16) == crc && Read32(r, 20) == afterSize && Read32(r, 24) == beforeSize
      && Read16(r, 28) == NameLength(name)
      && (forall i :: 30 <= i < 46 ==> r[i] == 0) && Read32(r, 42) == 0
      && r[46..] == name
  {
    var r := CentralHeader(crc, beforeSize, afterSize, name);
    var p, m, t := Preamble(), Sums(crc, afterSize, beforeSize), CentralTrailer();
    assert r[4..6] == Le16(0x0314);
    assert r[6..16] == p;
    assert r[16..28] == m;
    assert r[28..30] == Le16(NameLength(name));
    assert r[30..46] == t;
    PreambleFields();
    SumsFields(crc, afterSize, beforeSize);
    Le16Read(0x0314);
    Read16Slice(r, 4, Le16(0x0314), 0);
    Read16Slice(r, 6, p, 0);
    Read16Slice(r, 6, p, 2);
    Read16Slice(r, 6, p, 4);
    Read16Slice(r, 6, p, 6);
    Read16Slice(r, 6, p, 8);
    Read32Slice(r, 16, m, 0);
    Read32Slice(r, 16, m, 4);
    Read32Slice(r, 16, m, 8);
    Le16Read(NameLength(name));
    Read16Slice(r, 28, Le16(NameLength(name)), 0);
    Read32Slice(r, 30, t, 12);
  }

  /**
   * `end_header(size, start)`: one entry on disk 0, the central directory
   * of `size` bytes starting at offset `start`, no comment.
   */
  function EndHeader(size: bv32, start: bv32): (r: seq<bv8>)
    ensures |r| == 22
  {
    EndSignature + Le16(0x0000) + Le16(0x0000) + Le16(0x0001) + Le16(0x0001)
    + Le32(size) + Le32(start) + Le16(0x0000)
  }

  /** The fields of the end record, at the offsets of section 4.3.16 of the APPNOTE. */
  lemma EndFields(size: bv32, start: bv32)
    ensures var r := EndHeader(size, start);
      && r[..4] == EndSignature
      && Read16(r, 4) == 0 && Read16(r, 6) == 0 && Read16(r, 8) == 1 && Read16(r, 10) == 1
      && Read32(r, 12) == size && Read32(r, 16) == start && Read16(r, 20) == 0
  {
    var r := EndHeader(size, start);
    assert r[12..16] == Le32(size);
    assert r[16..20] == Le32(start);
    Le32Read(size);
    Le32Read(start);
    Read32Slice(r, 12, Le32(size), 0);
    Read32Slice(r, 16, Le32(start), 0);
  }
}
