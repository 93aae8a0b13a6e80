/** The TZX image that the converter writes (TZX format revision 1.20): a
    10-byte file header, then one block of ID 0x10, "Standard speed data
    block", for each non-empty TAP block. */
module Tzx {
  import opened Tap

  const Signature: string := "ZXTape!"
  const EndOfText: Byte := 0x1A
  const MajorVersion: Byte := 1
  const MinorVersion: Byte := 20
  const StandardSpeedDataId: Byte := 0x10
  /** The pause after every block, in milliseconds. */
  const PauseMs: U16 := 1000

  /** The file header as the converter writes it, byte by byte: the
      signature in ASCII, the end-of-text marker, then the version 1.20. */
  function Header(): (h: seq<Byte>)
    ensures |h| == 10
    ensures forall i :: 0 <= i < |Signature| ==> h[i] == Signature[i] as int
    ensures h[7] == EndOfText && h[8] == MajorVersion && h[9] == MinorVersion
  {
    [0x5A, 0x58, 0x54, 0x61, 0x70, 0x65, 0x21, 0x1A, 1, 20]
  }

  /** The first three bytes of every block written: the block ID, then the
      pause as a 16-bit little-endian value. */
  function BlockHead(): (h: seq<Byte>)
    ensures h == [StandardSpeedDataId] + LeBytes(PauseMs)
  {
    [0x10, 0xE8, 0x03]
  }

  /** The block written for a non-empty payload: its head, the length field,
      then the payload itself. */
  function DataBlock(payload: Payload): seq<Byte>
  {
    BlockHead() + LeBytes(|payload|) + payload
  }

  /** What is written for one TAP block: nothing for an empty one. */
  function Emit(payload: Payload): seq<Byte>
  {
    if payload == [] then [] else DataBlock(payload)
  }

  /** Everything written after the header for a run of TAP blocks. */
  function Body(blocks: seq<Payload>): seq<Byte>
  {
    if blocks == [] then [] else Emit(blocks[0]) + Body(blocks[1..])
  }

  /** The whole TZX image for a run of TAP blocks. */
  function Image(blocks: seq<Payload>): seq<Byte>
  {
    Header() + Body(blocks)
  }

  /** The TZX bytes spent on the blocks: 5 + L for each non-empty block. */
  function TzxSize(blocks: seq<Payload>): nat
  {
    if blocks == [] then 0
    else (if blocks[0] == [] then 0 else 5 + |blocks[0]|) + TzxSize(blocks[1..])
  }

  /** The non-empty blocks, in order. */
  function NonEmpty(blocks: seq<Payload>): seq<Payload>
  {
    if blocks == [] then []
    else (if blocks[0] == [] then [] else [blocks[0]]) + NonEmpty(blocks[1..])
  }

  /** Appending a TAP block appends what is written for it, and nothing else. */
  lemma {:induction false} BodyAppend(blocks: seq<Payload>, payload: Payload)
    ensures Body(blocks + [payload]) == Body(blocks) + Emit(payload)
  {
    if blocks == [] {
      assert [] + [payload] == [payload];
      assert Body([payload]) == Emit(payload) + Body([]);
    } else {
      assert (blocks + [payload])[1..] == blocks[1..] + [payload];
      BodyAppend(blocks[1..], payload);
    }
  }

  lemma ImageAppend(blocks: seq<Payload>, payload: Payload)
    ensures Image(blocks + [payload]) == Image(blocks) + Emit(payload)
  {
    BodyAppend(blocks, payload);
  }

  lemma {:induction false} BodyLength(blocks: seq<Payload>)
    ensures |Body(blocks)| == TzxSize(blocks)
  {
    if blocks != [] {
      BodyLength(blocks[1..]);
    }
  }

  /** The image is the header followed by 5 + L bytes for each non-empty block. */
  lemma ImageLength(blocks: seq<Payload>)
    ensures |Image(blocks)| == 10 + TzxSize(blocks)
  {
    BodyLength(blocks);
  }

  /** Reads a run of standard speed data blocks back: the reference decoder
      for what the converter writes. */
  function ReadBlocks(tzx: seq<Byte>): Option<seq<Payload>>
    decreases |tzx|
  {
    if tzx == [] then Some([])
    else if |tzx| < 5 || tzx[..3] != BlockHead() then None
    else if 5 + (tzx[3] as int + 0x100 * tzx[4] as int) > |tzx| then None
    else
      ReadBlocksAfter(tzx[5 .. 5 + (tzx[3] as int + 0x100 * tzx[4] as int)],
                      ReadBlocks(tzx[5 + (tzx[3] as int + 0x100 * tzx[4] as int) ..]))
  }

  function ReadBlocksAfter(payload: Payload, rest: Option<seq<Payload>>): Option<seq<Payload>>
  {
    if rest.None? then None else Some([payload] + rest.value)
  }

  /** One block read back gives its payload and leaves what follows. */
  lemma ReadDataBlock(payload: Payload, tail: seq<Byte>)
    requires payload != []
    ensures ReadBlocks(DataBlock(payload) + tail) == ReadBlocksAfter(payload, ReadBlocks(tail))
  {
    var t := DataBlock(payload) + tail;
    assert t[..3] == BlockHead();
    assert t[3..5] == LeBytes(|payload|);
    assert t[5 .. 5 + |payload|] == payload;
    assert t[5 + |payload| ..] == tail;
  }

  /** Reading back what is written after the header gives exactly the
      non-empty TAP blocks, each payload byte for byte, in their order. */
  lemma {:induction false} ReadBlocksOfBody(blocks: seq<Payload>)
    ensures ReadBlocks(Body(blocks)) == Some(NonEmpty(blocks))
  {
    if blocks != [] {
      ReadBlocksOfBody(blocks[1..]);
      if blocks[0] != [] {
        ReadDataBlock(blocks[0], Body(blocks[1..]));
      } else {
        assert Body(blocks) == Body(blocks[1..]);
        assert NonEmpty(blocks) == NonEmpty(blocks[1..]);
      }
    }
  }
}
