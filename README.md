# tap2tzx, modelled in Dafny

This project models the conversion core of `tap2tzx`. The tool turns a ZX Spectrum
TAP cassette image into a TZX image, revision 1.20:

- The TAP image is a run of blocks, each a 16-bit little-endian length `L` followed by `L` payload bytes.
- The TZX output starts with the 10-byte header `ZXTape!`, `0x1A`, `1`, `20`.
- Each non-empty TAP block becomes a "standard speed data" block (ID `0x10`) with a 1000 ms pause.
  Its bytes are `10 E8 03`, the two original length bytes, then the payload verbatim.
- A zero-length block writes nothing but is still counted.

The modules:

- `Tap` (`tap.dfy`) holds the input format and `read_le_u16` (`ReadLeU16`).
  - `Scan` is the reading side of the conversion loop, as a function.
  - `EncodeTap` is a reference TAP encoder; `Scan` and `EncodeTap` are proved to be inverse to each other.
- `Tzx` (`tzx.dfy`) holds the output format.
  - `Header`, `BlockHead` and `Image` describe what is written.
  - `ReadBlocks` is a reference TZX block reader; it reads the non-empty payloads back from what is written.
- `Transcoder` (`transcoder.dfy`) holds the writer and the converter.
  - The writer is a `Sink` class whose byte sequence only grows.
  - `WriteTzxHeader` and `WriteTzxBlock` append to the sink.
  - `Tap2Tzx` is the cursor loop of `tap2tzx`. It is proved against the function `Transcode`, which gives the result and the bytes written for every input. The lemmas about `Transcode` state what the converter promises.
- `Seqs` (`seqs.dfy`) holds two general facts about sequence concatenation that the proofs use.

The converter returns the number of length prefixes read, empty blocks included. The model follows this code (`src/main.rs:92-97`), not the doc comment at `src/main.rs:73`, which speaks of non-empty blocks.

A payload that runs past the end of the input makes the source panic when it slices the input (`src/main.rs:135`). By then it has already written the block head and the two length bytes. The model makes that an explicit error: `Overrun(offset, len)`, where `offset` is where the payload starts. The five bytes stay written.

A total length that is odd is not an error by itself. Only a lone byte where a length prefix should start fails, with `Malformed(offset)`. `OddLengthConverts` shows a three-byte input that converts.

## Model

| member | source | states |
|---|---|---|
| `Tap.ReadLeU16` | src/main.rs:141-153 | fails exactly when fewer than two bytes remain, with `Malformed` at the cursor offset given; otherwise it returns the bytes after the first two |
| `Tap.ReadLeU16Decodes` | src/main.rs:150-152 | the value read is the one whose little-endian encoding is the two bytes consumed |
| `Tap.ReadLeU16OfLeBytes` | src/main.rs:141-153 | reading a prefix from the encoding of `v` followed by `rest` gives `v` and leaves exactly `rest` |
| `Tap.ScanOverEncoded` | src/main.rs:87-98 | the loop reads an encoded run of blocks exactly, in order, then carries on with whatever follows |
| `Tap.ScanEncodeTap` | src/main.rs:87-98 | scanning the TAP image of any blocks reads back exactly those blocks, with no error |
| `Tap.EncodeTapOfScan` | src/main.rs:87-98 | when the scan ends without error, re-encoding the blocks it read rebuilds the input: nothing skipped, nothing left over |
| `Tap.ScanCoversImage` | src/main.rs:87-98 | a scan that ends without error consumed the whole input: its length is the sum of `2 + L` over the blocks read |
| `Tap.ScanStops` | src/main.rs:87-98 | a failing scan has read whole blocks that re-encode to the front of its input, and stops right after them. The stop is either one leftover byte, or a prefix whose declared payload runs past the end |
| `Tap.EncodeTapLength` | src/main.rs:88-96 | each encoded block takes `2 + L` bytes of the image |
| `Tzx.Header` | src/main.rs:106-112 | ten bytes: the `ZXTape!` signature, the end-of-text marker `0x1A`, and version 1.20 |
| `Tzx.BlockHead` | src/main.rs:127-131 | the block ID `0x10`, then the 1000 ms pause as a little-endian 16-bit value |
| `Tzx.BodyAppend` | src/main.rs:92-94 | one more TAP block appends exactly what is written for it, and nothing for an empty one |
| `Tzx.ImageLength` | src/main.rs:81-98 | the output is 10 bytes plus `5 + L` for each non-empty block |
| `Tzx.BodyLength` | src/main.rs:92-94 | what follows the header is `5 + L` bytes per non-empty block |
| `Tzx.ReadBlocksOfBody` | src/main.rs:114-136 | reading back what follows the header gives the non-empty payloads, byte for byte, in order |
| `Tzx.ReadDataBlock` | src/main.rs:114-136 | one written block reads back as its payload and leaves what follows |
| `Transcoder.Sink.WriteAll` | src/main.rs:76-79 | the writer appends the bytes given and keeps what it held |
| `Transcoder.WriteTzxHeader` | src/main.rs:106-112 | appends exactly the header to the writer |
| `Transcoder.WriteTzxBlock` | src/main.rs:115-136 | appends the block head, then the two length bytes just before `pos`. It fails with `Overrun(pos, len)` exactly when the payload runs past the end; otherwise it also appends the payload |
| `Transcoder.Tap2Tzx` | src/main.rs:76-103 | returns the count or the error of `Transcode` and appends exactly its output to the writer |
| `Transcoder.TranscodeHeaderFirst` | src/main.rs:80-81 | for every input, whatever the outcome, the first ten bytes written are the header |
| `Transcoder.TranscodeEmpty` | src/main.rs:84-102 | an empty input writes the header alone and counts zero blocks |
| `Transcoder.TranscodeEncoded` | src/main.rs:87-98 | the TAP image of any blocks converts, counting every block (empty ones too), and writes the image of those blocks |
| `Transcoder.TranscodeOkIff` | src/main.rs:87-98 | a conversion succeeds exactly when its input is the TAP image of some run of blocks |
| `Transcoder.TranscodeLayout` | src/main.rs:87-98 | for the image of any blocks: input length is the sum of `2 + L`, count is the number of blocks, output is `10 +` the sum of `5 + L` over non-empty blocks, header first, and the non-empty payloads read back in order |
| `Transcoder.TranscodeTrailingByte` | src/main.rs:144-148 | a lone byte after whole blocks fails with `Malformed` at its offset, after writing those blocks |
| `Transcoder.TranscodeOverrun` | src/main.rs:131-135 | a prefix declaring more bytes than remain fails with `Overrun` at the payload offset. By then the earlier blocks, the block head and the length bytes are written |
| `Transcoder.TranscodeFails` | src/main.rs:87-98 | every failing conversion read whole blocks from the front of its input. Then it met either a single leftover byte (`Malformed` at its offset) or a full prefix declaring more bytes than remain (`Overrun` at the payload offset). It wrote the image of those blocks and the partial block |
| `Transcoder.EmptyBlockCounted` | src/main.rs:92-97 | a single zero-length block writes only the header and counts one |
| `Transcoder.OddLengthConverts` | src/main.rs:87-98 | the three-byte input `01 00 07` converts to one block |
| `Transcoder.SingleBlock` | src/main.rs:160-181 | the 19-byte header block converts to a count of 1. The output is the header, `10 E8 03`, then the whole TAP input |

## Left out

- `main`, `target` and `tap_to_tzx` are not modelled. They handle the command line, file names and file I/O; the converter receives the input as bytes and a writer.
- The flush at `src/main.rs:100` and writer failures are left out. The `Sink` accepts every write, so no I/O error is modelled.
- Error messages are not modelled. An error carries only its kind and offset, not the message text.
- `Transcoder.Tap2Tzx`: the count is an unbounded `nat`, not the source's `i32`. The `i32` count overflows on the 2^31-th increment, past `i32::MAX` = 2^31 − 1. That takes at least 2^31 length prefixes, i.e. at least 2^32 bytes (4 GiB) of input.
- `Transcoder.Tap2Tzx`: the cursor is unbounded, so `usize` overflow of `pos + block_len` is not modelled.
- `Transcoder.WriteTzxBlock`: the out-of-range slice panics in the source. The model returns `Overrun` instead, after the same five bytes are written. Whether those bytes reach a file depends on the caller's buffering, which is not modelled.
- The `try_into` failure path at `src/main.rs:152` cannot occur, because the slice split off always has two bytes. It is not modelled.
