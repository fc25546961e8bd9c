# Rust-zipper encoder, modelled in Dafny

Rust-zipper compresses one file into a ZIP archive with one entry. Its
`encode` function in `src/lib.rs` does the whole job in a single pass:

1. It reads the input byte by byte and feeds every byte to a bitwise CRC-32.
2. It cuts the input into literals and back-references with a brute-force
   LZ77 search over the last 1024 bytes.
3. It writes the tokens as one final DEFLATE block with the fixed Huffman
   codes (section 3.2.6 of RFC 1951), through a one-byte bit accumulator.
4. It wraps the compressed data in a local file header, a central
   directory header and an end-of-central-directory record (sections
   4.3.7, 4.3.12 and 4.3.16 of the APPNOTE).

The model follows the same structure, one module per part of the source:

| module | file | models |
|---|---|---|
| `Bits` | bits.dfy | bit lists, the 8- and 32-bit reversals and shifts the source spells out as loops |
| `BitWriter` | bit_writer.dfy | `BitWriter`: `code_bits`, `extra_bits`, `flush_to_output`, `flush` |
| `Crc32` | crc32.dfy | `Crc32`: `new`, `push_buf`, `comp`, `comple`, `get_crc32`, plus a table-free reference CRC-32 |
| `Header` | header.dfy | `Header`: `push16`, `push32`, the signatures, `local_header`, `central_header`, `end_header` |
| `FixedHuffman` | huffman.dfy | `cheanger`, `length_extra`, `distance_extra`, plus a reference decoder of the fixed code |
| `MatchFinder` | match_finder.dfy | `match_cheak` |
| `Lz77` | lz77.dfy | the match loop of `encode`, plus `Expand`, which replays tokens the way a decompressor does |
| `Deflate` | deflate.dfy | the bit emission of `encode`: block header, tokens, end-of-block code, final flush |
| `Inflate` | inflate.dfy | a fixed-Huffman block decoder, used only as the partner of the encoder |
| `Zip` | zip.dfy | the archive `encode` writes, and what a reader finds in it |

The input file is modelled as a whole `seq<bv8>`. The stored name is the
bytes of the input path. The archive is returned as four byte sequences
rather than written to a file.

The main results are these. They are about the encoder with the three
corrections listed under "## Findings", reading its input through an ideal
reader that stops exactly at the end of the file (see "## Left out" for
what the source's reader does instead). `Zip.DataInflates` says the
compressed data in the archive decodes, under an independent
fixed-Huffman decoder and LZ77 replay, to exactly the input. `Zip.HeadersDescribeData` says both headers
carry the standard reflected CRC-32 of the input and its two sizes.
`Zip.EndLocatesCentral` says the end record points at the central
directory.

Three places where the source does not do what it evidently means to do
are listed under "## Findings". In each case the model keeps the code as
written next to a corrected definition, and the rest of the model builds
on the corrected one.

## Model

| member | source | states |
|---|---|---|
| Bits.Reverse8Bits | src/lib.rs:100-105 | the byte the reversal loop builds has the bits of its input in the opposite order |
| Bits.Reverse8Involution | src/lib.rs:100-105 | reversing a byte's bit order twice gives the byte back |
| Bits.Reverse32Involution | src/lib.rs:289-293 | reversing a 32-bit word's bit order twice gives the word back |
| Bits.ShiftInBit | src/lib.rs:49-50 | shifting a bit into the accumulator puts it at bit 0, moves the other bits up one place and drops the top bit |
| BitWriter.CodeOrder | src/lib.rs:42-54 | the bits `code_bits` appends are the low `n` bits of the value, most significant first: read back in that order they give the value modulo 2^n |
| BitWriter.ExtraOrder | src/lib.rs:59-70 | the bits `extra_bits` appends are the low `n` bits of the value, least significant first: read back in that order they give the value modulo 2^n |
| BitWriter.NewHolds | src/lib.rs:30-37 | a new writer holds the empty bit history |
| BitWriter.PushBitHolds | src/lib.rs:43-51 | appending one bit (after flushing a full accumulator) extends the history by exactly that bit |
| BitWriter.FlushToOutputHolds | src/lib.rs:100-117 | emitting a full accumulator empties it, adds one output byte and leaves the history unchanged |
| BitWriter.PushBitsHolds | src/lib.rs:43-52 | appending a list of bits extends the history by exactly that list, in order |
| BitWriter.CodeBitsHolds | src/lib.rs:42-54 | `code_bits` extends the history by the low `n` bits of the value, most significant first |
| BitWriter.ExtraBitsHolds | src/lib.rs:59-70 | `extra_bits` extends the history by the low `n` bits of the value, least significant first |
| BitWriter.HoldsBounds | src/lib.rs:44-51 | the accumulator never holds more than 8 bits, and its unused high bits are zero |
| BitWriter.FlushPacks | src/lib.rs:75-95 | after `flush` the output is the whole history packed 8 bits per byte, with the last partial byte padded with zeros; the bit count is kept and the accumulator is left shifted to the top of the byte, so the byte appended last is its bit reversal |
| BitWriter.FlushBitOrder | src/lib.rs:75-95 | bit `j` of output byte `k` is history bit `8k + j`: the first bit of each byte is its least significant one, as section 3.1.1 of RFC 1951 requires |
| BitWriter.PackBits | src/lib.rs:100-106 | output byte `k` holds exactly history bits `8k .. 8k + 8` |
| BitWriter.UnpackPack | src/lib.rs:100-106 | packing bits into bytes and unpacking them again loses nothing |
| Crc32.DivisorIsCrc32Polynomial | src/lib.rs:226-234 | the divisor is the CRC-32 generator polynomial without its x^32 term, and its bit reversal is the reflected polynomial 0xEDB88320 |
| Crc32.Primed | src/lib.rs:239-248 | the first four pushes into a fresh state load the complement of those four bytes, reversed: the register then holds, bit-reversed, the reflected CRC's initial value 0xFFFFFFFF XORed with the four-byte window |
| Crc32.TrackByte | src/lib.rs:239-279 | once four bytes are in, pushing one more byte `b` runs the reflected CRC over the oldest byte of the window and shifts `b` into the window |
| Crc32.PushAllCounts | src/lib.rs:239-254 | after any input the divisor is unchanged and the primed-byte count is the input length capped at 4 |
| Crc32.GetCrc32IsReflectedCrc32 | src/lib.rs:217-298 | for every input, the bitwise long division of `push_buf`, `comp` and `comple`, read out by `get_crc32`, equals the standard reflected CRC-32 (initial value and final XOR 0xFFFFFFFF) |
| Crc32.EmptyCrc | src/lib.rs:284-298 | the CRC of no bytes is 0 |
| Crc32.SecondRead | src/lib.rs:284-288 | `get_crc32` changes the state: a second call gives the CRC of the input followed by four zero bytes |
| Header.Le16Read | src/lib.rs:334-339 | the two bytes `push16` writes read back, little-endian, as the value |
| Header.Read16Le | src/lib.rs:334-339 | any two bytes are what `push16` writes for their little-endian value |
| Header.Le32Read | src/lib.rs:320-329 | the four bytes `push32` writes read back, little-endian, as the value |
| Header.Read32Le | src/lib.rs:320-329 | any four bytes are what `push32` writes for their little-endian value |
| Header.PreambleFields | src/lib.rs:388-392 | both headers share the fields version needed 2.0, no flags, method 8 (deflate), zero time and zero date |
| Header.LocalFields | src/lib.rs:385-400 | a local file header is 30 bytes plus the name, and every field sits at its APPNOTE offset: signature, version, method, CRC at 14, compressed size at 18, uncompressed size at 22, name length at 26, name from 30 |
| Header.CentralTrailer | src/lib.rs:419-424 | the sixteen bytes after the name length in a central header are all zero |
| Header.CentralFields | src/lib.rs:406-427 | a central directory header is 46 bytes plus the name, with version made by 0x0314, method 8 at 10, CRC at 16, the sizes at 20 and 24, name length at 28, zero local-header offset at 42 and the name from 46 |
| Header.EndFields | src/lib.rs:432-443 | the end record holds its signature, one entry on this disk and in all, the central directory's size at 12 and its offset at 16 |
| FixedHuffman.Cheanger | src/lib.rs:471-480 | `cheanger` as written gives a 7- to 9-bit code for every symbol up to 287 and an empty code beyond |
| FixedHuffman.CheangerAgrees | src/lib.rs:471-480 | outside 144..255, `cheanger` as written gives exactly the fixed Huffman code of RFC 1951 |
| FixedHuffman.CheangerMisencodes | src/lib.rs:474 | for every symbol in 144..255, `cheanger` gives a code that does not decode to that symbol; the code for 144 is 0x121, which is no code at all, and the code for 96 is a prefix of it |
| FixedHuffman.FixedCode | src/lib.rs:471-480 | every symbol up to 287 gets a 7- to 9-bit code that the reference fixed-Huffman decoder maps back to that symbol |
| FixedHuffman.FixedSymbolCode | src/lib.rs:471-480 | every code the reference decoder accepts is the code of the symbol it decodes to, so the code table and the decoder are inverse to each other |
| FixedHuffman.FixedCodePrefixFree | src/lib.rs:471-480 | no symbol's code is a prefix of another symbol's code |
| FixedHuffman.LengthChain | src/lib.rs:487-507 | each length range starts right where the one before it ends |
| FixedHuffman.LengthCodeDecodes | src/lib.rs:485-511 | every match length 3..258 maps to a length symbol 257..285 whose base plus its extra bits gives back that length, with the extra value below 2^count |
| FixedHuffman.LengthCodeMonotone | src/lib.rs:485-511 | longer matches never get a smaller length symbol |
| FixedHuffman.LengthCodeAgrees | src/lib.rs:485-511 | `length_extra` as written agrees with the corrected table for every length but 258 |
| FixedHuffman.LengthExtraDefault | src/lib.rs:508 | every length below 3 or from 258 upwards falls through to the default (286, 6, 0) |
| FixedHuffman.LengthExtraAt258 | src/lib.rs:508 | `length_extra(258)` falls through to the default (286, 6, 0), and 286 is not a length symbol |
| FixedHuffman.DistanceChain | src/lib.rs:518-544 | each distance range starts right where the one before it ends |
| FixedHuffman.DistanceExtraDecodes | src/lib.rs:516-548 | every distance 1..32768 maps to a distance symbol 0..29 whose base plus its extra bits gives back that distance, with the extra value below 2^count |
| FixedHuffman.DistanceExtraMonotone | src/lib.rs:516-548 | larger distances never get a smaller distance symbol |
| FixedHuffman.DistanceExtraDefault | src/lib.rs:545 | distance 0 and every distance above 32768 fall through to the default (31, 14, 0) |
| MatchFinder.ScanFrom | src/lib.rs:455-465 | the scan from a start index on returns -1 exactly when the candidate occurs at no later index; otherwise it returns the distance of the first occurrence it meets, and no earlier index matches |
| MatchFinder.MatchCheak | src/lib.rs:450-466 | `match_cheak` returns -1 exactly when the candidate is longer than the window or occurs nowhere in it; otherwise it returns a distance in 1 .. window length - candidate length + 1 at which the candidate occurs, and no occurrence lies further back |
| Lz77.Grow | src/lib.rs:583-597 | growing a candidate consumes input without losing or reordering bytes, never makes the candidate longer than 258, and a candidate that grew has a positive offset |
| Lz77.GrowMatches | src/lib.rs:583-597 | a candidate that grew matches the window at the last offset found, and growth is greedy: it stops only at 258 bytes, at the end of the input, or when one more byte occurs nowhere in the window |
| Lz77.Trim | src/lib.rs:627-629 | the window after a step is the last 1024 bytes of the old window plus the candidate |
| Lz77.ScanExpands | src/lib.rs:570-631 | whatever the loop emits from a given window replays, after any output that ends with that window, to exactly the rest of the input |
| Lz77.ScanFits | src/lib.rs:570-631 | every back-reference the loop emits has a length in 3..258 and a distance in 1..1024 |
| Lz77.ScanCrc | src/lib.rs:576-594 | the CRC state at the end of the loop has been fed every consumed byte exactly once, in input order |
| Lz77.TokenizeRoundTrip | src/lib.rs:565-631 | for every input, replaying the emitted tokens from an empty output gives back exactly the input |
| Lz77.TokenizeFits | src/lib.rs:598-629 | every back-reference of the token list fits the fixed-Huffman tables: length 3..258, distance 1..1024 |
| Lz77.TokenizeCrc | src/lib.rs:565-597 | the CRC state after tokenising is that of the whole input pushed in order |
| Lz77.TokenizeAgrees | src/lib.rs:565-631 | on every non-empty input the loop as written and the corrected loop give the same tokens and CRC state |
| Lz77.EmptyInputAsWritten | src/lib.rs:565-568 | the loop as written turns an empty input into one literal 0, which replays to one zero byte, and feeds that byte to the CRC |
| Lz77.RunTokens | src/lib.rs:570-626 | a run of 5 to 260 equal bytes is emitted as two literals and one back-reference of length n - 2 at distance 1 |
| Lz77.LongRunReaches258 | src/lib.rs:583-613 | a run of 260 equal bytes makes the loop emit a back-reference of length 258, so the length 258 does reach `length_extra` |
| Deflate.SymbolBits | src/lib.rs:598-605 | the bits written for a symbol are its fixed code, most significant bit first |
| Deflate.LengthFits | src/lib.rs:607-613 | a match length 3..258 gets a length symbol 257..285, at most 5 extra bits, and an extra value below 32 |
| Deflate.DistanceFits | src/lib.rs:617-622 | a distance 1..1024 gets a distance symbol that fits the 5-bit code, at most 8 extra bits, and an extra value below 256 |
| Deflate.WriteTokenHolds | src/lib.rs:598-622 | writing a token appends exactly its bits: a literal's code, or the length code, length extra bits, 5-bit distance code and distance extra bits |
| Deflate.WriteTokensHolds | src/lib.rs:570-631 | writing a token list appends the bits of its tokens one after the other |
| Deflate.HeaderBits | src/lib.rs:562-563 | the two header calls write the bits 1, 1, 0: final block, block type 01 (fixed Huffman codes) |
| Deflate.EndOfBlockBits | src/lib.rs:633 | the seven zero bits written after the loop are the fixed code of the end-of-block symbol 256 |
| Deflate.BlockHolds | src/lib.rs:562-633 | after the loop the writer holds the block header, the token bits and the end-of-block code |
| Deflate.Compress | src/lib.rs:562-634 | the compressed data is the block's bits packed 8 per byte, zero-padded at the end |
| Deflate.CompressBitOrder | src/lib.rs:634 | bit `j` of compressed byte `k` is bit `8k + j` of the padded block |
| Deflate.CompressUnpacks | src/lib.rs:562-634 | unpacking the compressed data gives the block's bits followed by fewer than 8 zero bits |
| Inflate.ReadSymbolBits | src/lib.rs:471-480 | a fixed-Huffman decoder reading a written symbol code gets back that symbol and the bits that follow |
| Inflate.ReadDistanceBits | src/lib.rs:617-622 | a decoder reading the written distance code and extra bits gets back the distance |
| Inflate.ReadCopyBits | src/lib.rs:607-622 | a decoder reading the written length and distance parts of a back-reference gets back its length and distance |
| Inflate.ReadTokenBits | src/lib.rs:598-622 | a decoder reading the bits written for one token gets back that token, then goes on with the rest |
| Inflate.InflateBlock | src/lib.rs:562-633 | a decoder reading the block header, the token bits, the end-of-block code and any padding gets back exactly the token list |
| Inflate.InflateCompress | src/lib.rs:562-634 | unpacking the compressed data and decoding it gives back exactly the token list that was written |
| Zip.Assemble | src/lib.rs:637-639 | the local header is 30 bytes plus the name, the central header 46 bytes plus the name, and the end record 22 bytes |
| Zip.DataInflates | src/lib.rs:553-654 | for every input, the archive's compressed data decodes to tokens that replay to exactly the input |
| Zip.HeadersDescribeData | src/lib.rs:636-638 | both headers carry their signatures, method 8, the standard CRC-32 of the input, the compressed size and the input size modulo 2^32, and the name |
| Zip.EndLocatesCentral | src/lib.rs:639 | the end record names one entry, the central directory's size, and its offset right after the local header and the data |
| Zip.Layout | src/lib.rs:638-651 | the file is local header, data, central header and end record, one after the other; for headers that start with their signatures and an end record that locates the central directory (what `Encode` produces, by the two rows above), the file starts with the local header signature, the last 22 bytes are the end record with its own signature first, its size and offset fields equal, modulo 2^32, the central header's size and the file position where it starts, and the central directory signature sits at that position |

## Left out

- Files and I/O. `File::open`, `File::create`, the `write_all` calls and every `?` error path of `encode` are left out. The input is a byte sequence and the archive is returned, because the model has no file system.
- ByteReader (src/lib.rs:129-207) is not modelled. The model reads an ideal stream of the input bytes. The reader as written initialises two fields its struct does not declare (`sub_buffer`, `sub_buffer_flag`), so it does not compile as given. At the end of input it also hands out a stale buffer byte, and at a 1024-byte boundary it indexes past the buffer.
- Lz77.Grow: growth stops when the input runs out. The source instead peeks one more byte there (src/lib.rs:584-595), and its reader hands out a stale buffer byte (src/lib.rs:171-173). When that byte extends the match, it is added to the back-reference and pushed to the CRC. For the input `[0, 0, 0, 0]` the source's archive replays to five zero bytes and carries the CRC of five bytes, while its size field says 4. The model does not reproduce this, because it has no model of the reader's buffer; its results hold for a reader that stops exactly at the end of the input.
- ByteReader's `file_size` is modelled as the input length taken modulo 2^32 (`Zip.U32`), the value `as u32` arithmetic gives for inputs below 4 GiB.
- `PRINT_DEBAGU` and all its `println!` calls are left out: the constant is `false` and printing has no effect on the archive.
- The last-modified time and date fields are written as zero, as the source does. Filling them from the file system is left out.
- src/main.rs is not part of this model: it only parses the command line and calls `encode`.
- The `buffer` and `buf_count` fields of `Crc32` are not kept in the state. Once four bytes are in, `push_buf` sets them to the reversed byte and 8, then calls `comp`, which clears `buf_count`; during the first four pushes it leaves them alone. So the model passes the reversed byte to `Comp` directly.
- Deflate.Compress: the model first computes the token list and then writes it. The source interleaves both in one loop, but the order of the written bits is the same.
- Header.NameLength: the name length is cut to 16 bits, as `as u16` does. A name of 65536 bytes or more would give a header that disagrees with the name that follows it. The model keeps that behaviour and proves nothing about such names.
- `Inflate` is a decoder written only to state the round trip. It reads fixed-Huffman blocks and not stored or dynamic blocks, because the encoder writes only the former.
- The bit tests and masks the source writes with `&`, `>>` and `<<` on integers are modelled by arithmetic (`% Pow2(n)`, bit lists). The byte and word reversals are modelled as bit permutations.

## Findings

| source | as written | input that shows it | evidently intended | confidence | as-written member | corrected member |
|---|---|---|---|---|---|---|
| src/lib.rs:474 | literal values 144..255 get the 9-bit code `num + 0x91` | byte 144 is written as 9-bit 0x121; its first 8 bits, 0x90, are the whole code of byte 96, so a decoder reads 96 | the RFC 1951 code `num + 0x100` (0x190..0x1FF) | high (not executed) | FixedHuffman.CheangerMisencodes | FixedHuffman.FixedCode |
| src/lib.rs:508 | length 258 is not in any arm, so it falls to the default (286, 6, 0) | 260 equal bytes: the loop grows a 258-byte match (Lz77.LongRunReaches258), and 286 is an invalid length symbol | length 258 is symbol 285 with no extra bits | high (not executed) | FixedHuffman.LengthExtraAt258 | FixedHuffman.LengthCodeDecodes |
| src/lib.rs:565-568 | the first byte is read and written as a literal even when there is none | an empty file: the archive holds a literal 0 and the CRC of one zero byte, while the size field says 0 | an empty input gives an empty block | high (not executed) | Lz77.EmptyInputAsWritten | Lz77.TokenizeRoundTrip |
