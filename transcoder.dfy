/** The TAP to TZX converter: writes the TZX header, then walks the TAP image
    with a cursor, writing one standard speed data block per non-empty TAP
    block and counting every length prefix it reads. */
module Transcoder {
  import opened Tap
  import opened Tzx
  import opened Seqs

  /** The outcome of writing one block. */
  datatype Outcome = Pass | Fail(error: Error)

  /** What a conversion returns and what it leaves in the output. */
  datatype Transcoding = Transcoding(result: Result<nat>, output: seq<Byte>)

  /** What has gone out when a conversion stops at an error: for an overrun,
      the block head and the length field were written before the payload
      slice failed; a truncated prefix writes nothing. */
  function Partial(e: Error): seq<Byte>
  {
    match e
    case Malformed(_) => []
    case Overrun(_, len) => BlockHead() + LeBytes(len)
  }

  /** The whole conversion of a TAP image, as a function of its bytes: the
      block count or the error, and the bytes written to the output. */
  function Transcode(tap: seq<Byte>): Transcoding
  {
    if Scan(tap, 0).stop.None? then
      Transcoding(Ok(|Scan(tap, 0).blocks|), Image(Scan(tap, 0).blocks))
    else
      Transcoding(Err(Scan(tap, 0).stop.value),
                  Image(Scan(tap, 0).blocks) + Partial(Scan(tap, 0).stop.value))
  }

  /** The output writer, an append-only byte sequence that accepts every write. */
  class Sink {
    var bytes: seq<Byte>

    constructor ()
      ensures bytes == []
    {
      bytes := [];
    }

    method WriteAll(data: seq<Byte>)
      modifies this
      ensures bytes == old(bytes) + data
    {
      bytes := bytes + data;
    }
  }

  /** write_tzx_header: the ten header bytes, written in one go. */
  method WriteTzxHeader(out: Sink)
    modifies out
    ensures out.bytes == old(out.bytes) + Header()
  {
    out.WriteAll([0x5A, 0x58, 0x54, 0x61, 0x70, 0x65, 0x21, 0x1A, 1, 20]);
  }

  /** write_tzx_block: the block head, the two length bytes exactly as they
      stand in mem just before pos, then the blockLen payload bytes from pos.
      A payload that runs past the end of mem fails after the first five
      bytes have been written. */
  method WriteTzxBlock(mem: seq<Byte>, pos: nat, blockLen: U16, out: Sink) returns (o: Outcome)
    requires 2 <= pos <= |mem|
    modifies out
    ensures o.Pass? <==> pos + blockLen <= |mem|
    ensures o.Fail? ==> o.error == Overrun(pos, blockLen)
    ensures o.Pass? ==> out.bytes == old(out.bytes) + (BlockHead() + mem[pos - 2 .. pos + blockLen])
    ensures o.Fail? ==> out.bytes == old(out.bytes) + (BlockHead() + mem[pos - 2 .. pos])
  {
    out.WriteAll([0x10, 0xE8, 0x03]);
    out.WriteAll(mem[pos - 2 .. pos]);
    if pos + blockLen > |mem| {
      return Fail(Overrun(pos, blockLen));
    }
    out.WriteAll(mem[pos .. pos + blockLen]);
    assert mem[pos - 2 .. pos] + mem[pos .. pos + blockLen] == mem[pos - 2 .. pos + blockLen];
    o := Pass;
  }

  /** The length prefix at cursor start is the encoding of the value read. */
  lemma PrefixAt(tap: seq<Byte>, start: nat)
    requires start + 2 <= |tap|
    ensures ReadLeU16(tap[start..], start).Ok?
    ensures LeBytes(ReadLeU16(tap[start..], start).value.0) == tap[start .. start + 2]
  {
    ReadLeU16Decodes(tap[start..], start);
    assert tap[start .. start + 2] == tap[start..][..2];
  }

  /** One turn of the loop, from cursor start to cursor next, over a block
      whose len payload bytes are all there: the scan takes the payload and
      goes on from next. */
  lemma ScanTurn(tap: seq<Byte>, start: nat, len: U16, next: nat, payload: Payload)
    requires next == start + 2 + len <= |tap|
    requires ReadLeU16(tap[start..], start).Ok?
    requires ReadLeU16(tap[start..], start).value.0 == len
    requires payload == tap[start + 2 .. next]
    ensures Scan(tap[start..], start) == Prepend(payload, Scan(tap[next..], next))
  {
    var rest := tap[start..][2..];
    assert rest == tap[start + 2 ..];
    assert rest[..len] == payload;
    assert rest[len..] == tap[next..];
  }

  /** The scan part of the loop invariant, carried over one turn: the blocks
      read so far, then the payload, then whatever the scan finds after it. */
  lemma TurnScan(tap: seq<Byte>, start: nat, len: U16, next: nat, payload: Payload, done: seq<Payload>)
    requires next == start + 2 + len <= |tap|
    requires ReadLeU16(tap[start..], start).Ok?
    requires ReadLeU16(tap[start..], start).value.0 == len
    requires payload == tap[start + 2 .. next]
    requires Scan(tap, 0).blocks == done + Scan(tap[start..], start).blocks
    requires Scan(tap, 0).stop == Scan(tap[start..], start).stop
    ensures Scan(tap, 0).blocks == (done + [payload]) + Scan(tap[next..], next).blocks
    ensures Scan(tap, 0).stop == Scan(tap[next..], next).stop
  {
    var after := Scan(tap[next..], next);
    ScanTurn(tap, start, len, next, payload);
    assert (done + [payload]) + after.blocks == done + ([payload] + after.blocks);
  }

  /** The output part of the loop invariant, carried over one turn: the image
      grows by what the loop writes for the block, which is nothing for an
      empty one and otherwise the block head and the bytes from start to next. */
  lemma TurnImage(tap: seq<Byte>, start: nat, len: U16, next: nat, payload: Payload, done: seq<Payload>)
    requires next == start + 2 + len <= |tap|
    requires LeBytes(len) == tap[start .. start + 2]
    requires payload == tap[start + 2 .. next]
    ensures Image(done + [payload])
         == Image(done) + if len == 0 then [] else BlockHead() + tap[start .. next]
  {
    ImageAppend(done, payload);
    if len != 0 {
      assert tap[start .. next] == tap[start .. start + 2] + payload;
      AppendAssoc(BlockHead(), LeBytes(len), payload);
    }
  }

  /** Where the scan has read the blocks done and then stops at e, the
      conversion returns e, having written the image of done and the partial
      block. */
  lemma TranscodeStopsAt(tap: seq<Byte>, pos: nat, done: seq<Payload>, e: Error)
    requires pos <= |tap|
    requires Scan(tap, 0).blocks == done + Scan(tap[pos..], pos).blocks
    requires Scan(tap, 0).stop == Scan(tap[pos..], pos).stop
    requires Scan(tap[pos..], pos) == Scanned([], Some(e))
    ensures Transcode(tap) == Transcoding(Err(e), Image(done) + Partial(e))
  {
    assert done + [] == done;
  }

  /** The exit of the loop on a truncated length prefix at cursor start. */
  lemma TranscodeMalformedAt(tap: seq<Byte>, start: nat, done: seq<Payload>)
    requires start < |tap|
    requires ReadLeU16(tap[start..], start).Err?
    requires Scan(tap, 0).blocks == done + Scan(tap[start..], start).blocks
    requires Scan(tap, 0).stop == Scan(tap[start..], start).stop
    ensures Transcode(tap) == Transcoding(Err(Malformed(start)), Image(done))
  {
    TranscodeStopsAt(tap, start, done, Malformed(start));
  }

  /** The exit of the loop on a payload that runs past the end: the prefix at
      cursor start declares len bytes, and fewer remain after it. */
  lemma TranscodeOverrunAt(tap: seq<Byte>, start: nat, len: U16, done: seq<Payload>)
    requires start + 2 <= |tap| < start + 2 + len
    requires ReadLeU16(tap[start..], start).Ok?
    requires ReadLeU16(tap[start..], start).value.0 == len
    requires Scan(tap, 0).blocks == done + Scan(tap[start..], start).blocks
    requires Scan(tap, 0).stop == Scan(tap[start..], start).stop
    ensures Transcode(tap)
         == Transcoding(Err(Overrun(start + 2, len)), Image(done) + (BlockHead() + tap[start .. start + 2]))
  {
    ReadLeU16Decodes(tap[start..], start);
    assert tap[start .. start + 2] == tap[start..][..2];
    TranscodeStopsAt(tap, start, done, Overrun(start + 2, len));
  }

  /** Where the scan has read the blocks done and reached the end of the
      image, the conversion returns their number, having written their image. */
  lemma TranscodeEndsAt(tap: seq<Byte>, done: seq<Payload>)
    requires Scan(tap, 0).blocks == done + Scan(tap[|tap|..], |tap|).blocks
    requires Scan(tap, 0).stop == Scan(tap[|tap|..], |tap|).stop
    ensures Transcode(tap) == Transcoding(Ok(|done|), Image(done))
  {
    assert tap[|tap|..] == [];
    assert done + [] == done;
  }

  /** tap2tzx: converts the TAP image tap, writing the TZX image to tzx, and
      returns the number of length prefixes read or the error that stopped it. */
  method Tap2Tzx(tap: seq<Byte>, tzx: Sink) returns (r: Result<nat>)
    modifies tzx
    ensures r == Transcode(tap).result
    ensures tzx.bytes == old(tzx.bytes) + Transcode(tap).output
  {
    ghost var base := tzx.bytes;
    WriteTzxHeader(tzx);
    var pos: nat := 0;
    var blockCount: nat := 0;
    ghost var read: seq<Payload> := [];
    while pos < |tap|
      invariant pos <= |tap|
      invariant blockCount == |read|
      invariant Scan(tap, 0).blocks == read + Scan(tap[pos..], pos).blocks
      invariant Scan(tap, 0).stop == Scan(tap[pos..], pos).stop
      invariant tzx.bytes == base + Image(read)
      decreases |tap| - pos
    {
      ghost var start := pos;
      var prefix := ReadLeU16(tap[pos..], pos);
      if prefix.Err? {
        TranscodeMalformedAt(tap, start, read);
        return Err(prefix.error);
      }
      var blockLen := prefix.value.0;
      PrefixAt(tap, start);
      pos := pos + 2;
      ghost var chunk: seq<Byte> := [];
      if blockLen != 0 {
        var o := WriteTzxBlock(tap, pos, blockLen, tzx);
        if o.Fail? {
          TranscodeOverrunAt(tap, start, blockLen, read);
          AppendAssoc(base, Image(read), BlockHead() + tap[start .. pos]);
          return Err(o.error);
        }
        chunk := BlockHead() + tap[start .. pos + blockLen];
      } else {
        // Nothing is written for an empty block.
        assert tzx.bytes == (base + Image(read)) + chunk;
      }
      ghost var payload: Payload := tap[pos .. pos + blockLen];
      TurnScan(tap, start, blockLen, pos + blockLen, payload, read);
      TurnImage(tap, start, blockLen, pos + blockLen, payload, read);
      AppendAssoc(base, Image(read), chunk);
      read := read + [payload];
      pos := pos + blockLen;
      blockCount := blockCount + 1;
      // The scan invariant, restated at the new cursor.
      assert Scan(tap, 0).blocks == read + Scan(tap[pos..], pos).blocks;
      assert Scan(tap, 0).stop == Scan(tap[pos..], pos).stop;
    }
    TranscodeEndsAt(tap, read);
    return Ok(blockCount);
  }

  /** Every conversion, whatever its input and however it ends, has written
      the TZX header first. */
  lemma TranscodeHeaderFirst(tap: seq<Byte>)
    ensures |Transcode(tap).output| >= 10
    ensures Transcode(tap).output[..10] == Header()
  {
    var out := Transcode(tap).output;
    var blocks := Scan(tap, 0).blocks;
    if Scan(tap, 0).stop.None? {
      assert out == Header() + Body(blocks);
    } else {
      assert out == Header() + (Body(blocks) + Partial(Scan(tap, 0).stop.value));
    }
  }

  /** An empty TAP image converts to the bare header and a count of zero. */
  lemma TranscodeEmpty()
    ensures Transcode([]) == Transcoding(Ok(0), Header())
  {
    assert Header() + [] == Header();
  }

  /** Converting the TAP image of any run of blocks succeeds, counts every
      block (empty ones included) and writes the image of those blocks. */
  lemma TranscodeEncoded(blocks: seq<Payload>)
    ensures Transcode(EncodeTap(blocks)) == Transcoding(Ok(|blocks|), Image(blocks))
  {
    ScanEncodeTap(blocks);
  }

  /** A conversion succeeds exactly when its input is the TAP image of some
      run of blocks. */
  lemma TranscodeOkIff(tap: seq<Byte>)
    ensures Transcode(tap).result.Ok? <==> exists blocks: seq<Payload> :: EncodeTap(blocks) == tap
  {
    if Transcode(tap).result.Ok? {
      EncodeTapOfScan(tap, 0);
      assert EncodeTap(Scan(tap, 0).blocks) == tap;
    }
    if exists blocks: seq<Payload> :: EncodeTap(blocks) == tap {
      var blocks: seq<Payload> :| EncodeTap(blocks) == tap;
      TranscodeEncoded(blocks);
    }
  }

  /** The output of a successful conversion: the header, then 5 + L bytes for
      each non-empty block of the input (2 + L bytes each in the input), and
      reading the blocks back after the header gives exactly the non-empty
      payloads in order. */
  lemma TranscodeLayout(blocks: seq<Payload>)
    ensures |EncodeTap(blocks)| == TapSize(blocks)
    ensures Transcode(EncodeTap(blocks)).result == Ok(|blocks|)
    ensures |Transcode(EncodeTap(blocks)).output| == 10 + TzxSize(blocks)
    ensures Transcode(EncodeTap(blocks)).output[..10] == Header()
    ensures ReadBlocks(Transcode(EncodeTap(blocks)).output[10..]) == Some(NonEmpty(blocks))
  {
    EncodeTapLength(blocks);
    TranscodeEncoded(blocks);
    ImageLength(blocks);
    assert Image(blocks)[10..] == Body(blocks);
    ReadBlocksOfBody(blocks);
  }

  /** After the encoded blocks, a suffix whose scan stops at once with e:
      the conversion fails with e, having written those blocks and the
      partial block. */
  lemma TranscodeStopsAfter(blocks: seq<Payload>, suffix: seq<Byte>, e: Error)
    requires Scan(suffix, |EncodeTap(blocks)|) == Scanned([], Some(e))
    ensures Transcode(EncodeTap(blocks) + suffix) == Transcoding(Err(e), Image(blocks) + Partial(e))
  {
    ScanOverEncoded(blocks, suffix, 0);
    assert blocks + [] == blocks;
  }

  /** A lone byte after the last whole block is a truncated length prefix:
      the conversion fails at its offset, having written the blocks before it. */
  lemma TranscodeTrailingByte(blocks: seq<Payload>, b: Byte)
    ensures Transcode(EncodeTap(blocks) + [b])
         == Transcoding(Err(Malformed(|EncodeTap(blocks)|)), Image(blocks))
  {
    TranscodeStopsAfter(blocks, [b], Malformed(|EncodeTap(blocks)|));
    assert Image(blocks) + [] == Image(blocks);
  }

  /** A block whose prefix declares more bytes than remain makes the
      conversion fail with the offset of its payload, having written the
      blocks before it and that block's head and length field. */
  lemma TranscodeOverrun(blocks: seq<Payload>, len: U16, partial: seq<Byte>)
    requires |partial| < len
    ensures Transcode(EncodeTap(blocks) + (LeBytes(len) + partial))
         == Transcoding(Err(Overrun(|EncodeTap(blocks)| + 2, len)),
                        Image(blocks) + (BlockHead() + LeBytes(len)))
  {
    var n := |EncodeTap(blocks)|;
    ReadLeU16OfLeBytes(len, partial, n);
    assert Scan(LeBytes(len) + partial, n) == Scanned([], Some(Overrun(n + 2, len)));
    TranscodeStopsAfter(blocks, LeBytes(len) + partial, Overrun(n + 2, len));
  }

  /** The converse of the two lemmas above: every failing conversion read
      some whole blocks from the front of its input and then met either a
      single leftover byte (Malformed at its offset) or a prefix declaring
      more bytes than remain (Overrun at the payload offset), and it wrote
      the image of those blocks and the partial block. */
  lemma TranscodeFails(tap: seq<Byte>)
    requires Transcode(tap).result.Err?
    ensures exists blocks: seq<Payload> ::
              && |EncodeTap(blocks)| <= |tap|
              && tap[..|EncodeTap(blocks)|] == EncodeTap(blocks)
              && StopsAt(tap, 0, |EncodeTap(blocks)|, Transcode(tap).result.error)
              && Transcode(tap).output == Image(blocks) + Partial(Transcode(tap).result.error)
  {
    var blocks := Scan(tap, 0).blocks;
    ScanStops(tap, 0);
    assert tap[..|EncodeTap(blocks)|] == EncodeTap(blocks);
  }

  /** The image of a single non-empty block is the header, the block head,
      then that block's TAP encoding. */
  lemma ImageOfOne(payload: Payload)
    requires payload != []
    ensures Image([payload]) == Header() + BlockHead() + EncodeTap([payload])
  {
    assert Body([payload]) == DataBlock(payload) + Body([]);
    assert EncodeTap([payload]) == LeBytes(|payload|) + payload + EncodeTap([]);
  }

  /** The single-block example: a 19-byte header block, prefix included. */
  const SingleBlockTap: seq<Byte> :=
    [0x13, 0x00, 0x00, 0x00, 0x4D, 0x61, 0x6E, 0x69, 0x63, 0x4D, 0x69, 0x6E,
     0x65, 0x72, 0x45, 0x00, 0x0A, 0x00, 0x45, 0x00, 0x1F]

  /** It converts to one TZX block: the output is the TZX header, the block
      head, then the TAP image unchanged. */
  lemma SingleBlock()
    ensures Transcode(SingleBlockTap)
         == Transcoding(Ok(1), Header() + [0x10, 0xE8, 0x03] + SingleBlockTap)
  {
    var tap := SingleBlockTap;
    var payload: Payload := tap[2..];
    assert EncodeTap([payload]) == tap by {
      assert LeBytes(|payload|) == tap[..2];
      assert EncodeTap([payload]) == LeBytes(|payload|) + payload + EncodeTap([]);
    }
    TranscodeEncoded([payload]);
    ImageOfOne(payload);
    assert BlockHead() == [0x10, 0xE8, 0x03];
  }

  /** Empty blocks write nothing but are counted: a lone zero-length prefix
      gives the bare header and a count of one. */
  lemma EmptyBlockCounted()
    ensures Transcode([0, 0]) == Transcoding(Ok(1), Header())
  {
    var empty: Payload := [];
    assert EncodeTap([empty]) == [0, 0] by {
      assert EncodeTap([empty]) == LeBytes(0) + empty + EncodeTap([]);
    }
    TranscodeEncoded([empty]);
    assert Body([empty]) == Emit(empty) + Body([]);
  }

  /** An odd total length is not an error in itself: a one-byte block
      followed by nothing converts to one block. */
  lemma OddLengthConverts()
    ensures Transcode([1, 0, 7]) == Transcoding(Ok(1), Header() + [0x10, 0xE8, 0x03, 1, 0, 7])
  {
    var payload: Payload := [7];
    assert EncodeTap([payload]) == [1, 0, 7] by {
      assert EncodeTap([payload]) == LeBytes(1) + payload + EncodeTap([]);
    }
    TranscodeEncoded([payload]);
    ImageOfOne(payload);
  }
}
