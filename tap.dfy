/** The ZX Spectrum TAP image that the converter reads: a run of blocks laid
    back to back, each a 16-bit little-endian length followed by that many
    payload bytes, with no end marker and no block count. */
module Tap {
  import opened Seqs

  type Byte = b: int | 0 <= b < 0x100
  type U16 = v: int | 0 <= v < 0x1_0000

  /** A block's payload: its length must fit the 16-bit prefix. */
  type Payload = s: seq<Byte> | |s| < 0x1_0000

  /** Why a conversion stops early. */
  datatype Error =
    | Malformed(offset: nat)          // fewer than 2 bytes left where a length prefix starts
    | Overrun(offset: nat, len: U16)  // the payload starting at offset is declared longer than what remains

  datatype Option<T> = None | Some(value: T)

  datatype Result<T> = Ok(value: T) | Err(error: Error)

  /** The two bytes of v, least significant first. */
  function LeBytes(v: U16): (b: seq<Byte>)
    ensures |b| == 2 && b[0] as int + 0x100 * b[1] as int == v
  {
    [v % 0x100, v / 0x100]
  }

  lemma LeBytesOf(lo: Byte, hi: Byte)
    ensures LeBytes(lo as int + 0x100 * hi as int) == [lo, hi]
  {
    var v := lo as int + 0x100 * hi as int;
    assert v % 0x100 == lo && v / 0x100 == hi;
  }

  /** read_le_u16: decodes the length prefix at the front of input (which
      starts at offset pos of the image) and returns it with the bytes after
      it; fails when fewer than two bytes remain. */
  function ReadLeU16(input: seq<Byte>, pos: nat): (r: Result<(U16, seq<Byte>)>)
    ensures r.Err? <==> |input| < 2
    ensures r.Err? ==> r.error == Malformed(pos)
    ensures r.Ok? ==> r.value.1 == input[2..]
  {
    if |input| < 2 then Err(Malformed(pos))
    else Ok((input[0] as int + 0x100 * input[1] as int, input[2..]))
  }

  /** The value read is the one whose little-endian encoding is the two bytes consumed. */
  lemma ReadLeU16Decodes(input: seq<Byte>, pos: nat)
    requires |input| >= 2
    ensures ReadLeU16(input, pos).Ok?
    ensures LeBytes(ReadLeU16(input, pos).value.0) == input[..2]
  {
    LeBytesOf(input[0], input[1]);
  }

  /** Reading a prefix back from its own encoding gives the value and leaves
      exactly what followed it. */
  lemma ReadLeU16OfLeBytes(v: U16, rest: seq<Byte>, pos: nat)
    ensures ReadLeU16(LeBytes(v) + rest, pos) == Ok((v, rest))
  {
    assert (LeBytes(v) + rest)[2..] == rest;
  }

  /** The TAP image that holds the given blocks in order: the reference
      encoding against which the converter's reading loop is checked. */
  function EncodeTap(blocks: seq<Payload>): seq<Byte>
  {
    if blocks == [] then [] else LeBytes(|blocks[0]|) + blocks[0] + EncodeTap(blocks[1..])
  }

  /** The number of image bytes the blocks occupy: 2 + L for a block of L bytes. */
  function TapSize(blocks: seq<Payload>): nat
  {
    if blocks == [] then 0 else 2 + |blocks[0]| + TapSize(blocks[1..])
  }

  lemma {:induction false} EncodeTapLength(blocks: seq<Payload>)
    ensures |EncodeTap(blocks)| == TapSize(blocks)
  {
    if blocks != [] {
      EncodeTapLength(blocks[1..]);
    }
  }

  /** What the conversion loop meets from some cursor on: the blocks it reads,
      in order (empty ones included), and the error that stops it, if any. */
  datatype Scanned = Scanned(blocks: seq<Payload>, stop: Option<Error>)

  /** The reading side of the conversion loop over input, the bytes of the
      image from offset pos on: read a length prefix, reject a payload that
      runs past the end, take the payload and go on 2 + L bytes further. */
  function Scan(input: seq<Byte>, pos: nat): Scanned
    decreases |input|
  {
    if input == [] then Scanned([], None)
    else if ReadLeU16(input, pos).Err? then Scanned([], Some(ReadLeU16(input, pos).error))
    else ScanPayload(ReadLeU16(input, pos).value.1, pos + 2, ReadLeU16(input, pos).value.0)
  }

  /** The rest of one turn, once a prefix declaring len has been read and the
      cursor pos is at the payload: fail on an overrun, otherwise take the
      payload and scan on from after it. The len != 0 test mirrors the
      converter, which only slices the payload of a non-empty block; it does
      not change the outcome, since an empty payload never overruns. */
  function ScanPayload(rest: seq<Byte>, pos: nat, len: U16): Scanned
    decreases |rest| + 1
  {
    if len != 0 && len > |rest| then Scanned([], Some(Overrun(pos, len)))
    else Prepend(rest[..len], Scan(rest[len..], pos + len))
  }

  function Prepend(b: Payload, s: Scanned): Scanned
  {
    Scanned([b] + s.blocks, s.stop)
  }

  /** One turn of the loop: over a prefix for b followed by b, the scan reads
      b and goes on after it. */
  lemma ScanStep(b: Payload, tail: seq<Byte>, pos: nat)
    ensures Scan(LeBytes(|b|) + (b + tail), pos)
         == Scanned([b] + Scan(tail, pos + 2 + |b|).blocks, Scan(tail, pos + 2 + |b|).stop)
  {
    var rest := b + tail;
    ReadLeU16OfLeBytes(|b|, rest, pos);
    assert rest[..|b|] == b && rest[|b|..] == tail;
  }

  /** The same turn, over the encoding of the first of several blocks. */
  lemma ScanFirstBlock(blocks: seq<Payload>, suffix: seq<Byte>, pos: nat)
    requires blocks != []
    ensures |EncodeTap(blocks)| == 2 + |blocks[0]| + |EncodeTap(blocks[1..])|
    ensures Scan(EncodeTap(blocks) + suffix, pos).blocks
         == [blocks[0]] + Scan(EncodeTap(blocks[1..]) + suffix, pos + 2 + |blocks[0]|).blocks
    ensures Scan(EncodeTap(blocks) + suffix, pos).stop
         == Scan(EncodeTap(blocks[1..]) + suffix, pos + 2 + |blocks[0]|).stop
  {
    var b := blocks[0];
    var rest := EncodeTap(blocks[1..]);
    var tail := rest + suffix;
    calc {
      EncodeTap(blocks) + suffix;
      (LeBytes(|b|) + b + rest) + suffix;
      { AppendAssoc(LeBytes(|b|) + b, rest, suffix); }
      (LeBytes(|b|) + b) + tail;
      { AppendAssoc(LeBytes(|b|), b, tail); }
      LeBytes(|b|) + (b + tail);
    }
    ScanStep(b, tail, pos);
  }

  /** Scanning over an encoded run of blocks reads exactly those blocks, then
      carries on with whatever follows them. */
  lemma {:induction false} ScanOverEncoded(blocks: seq<Payload>, suffix: seq<Byte>, pos: nat)
    ensures Scan(EncodeTap(blocks) + suffix, pos).blocks
         == blocks + Scan(suffix, pos + |EncodeTap(blocks)|).blocks
    ensures Scan(EncodeTap(blocks) + suffix, pos).stop == Scan(suffix, pos + |EncodeTap(blocks)|).stop
    decreases |blocks|
  {
    var after := Scan(suffix, pos + |EncodeTap(blocks)|);
    if blocks == [] {
      assert EncodeTap(blocks) + suffix == suffix;
      assert blocks + after.blocks == after.blocks;
    } else {
      ScanFirstBlock(blocks, suffix, pos);
      ScanOverEncoded(blocks[1..], suffix, pos + 2 + |blocks[0]|);
      ConsAppend(blocks, after.blocks);
    }
  }

  /** Scanning an encoded image reads back exactly the encoded blocks, with no error. */
  lemma {:induction false} ScanEncodeTap(blocks: seq<Payload>)
    ensures Scan(EncodeTap(blocks), 0) == Scanned(blocks, None)
  {
    ScanOverEncoded(blocks, [], 0);
    assert EncodeTap(blocks) + [] == EncodeTap(blocks);
    assert blocks + [] == blocks;
  }

  /** A scan of a non-empty input that ends without error took a whole first
      block: its prefix is the first two bytes, and the scan goes on after it. */
  lemma ScanHead(input: seq<Byte>, pos: nat)
    requires input != []
    requires Scan(input, pos).stop == None
    ensures |input| >= 2
    ensures 2 + ReadLeU16(input, pos).value.0 <= |input|
    ensures Scan(input, pos)
         == Prepend(input[2 .. 2 + ReadLeU16(input, pos).value.0],
                    Scan(input[2 + ReadLeU16(input, pos).value.0 ..], pos + 2 + ReadLeU16(input, pos).value.0))
    ensures LeBytes(ReadLeU16(input, pos).value.0) == input[..2]
  {
    ReadLeU16Decodes(input, pos);
    var len := ReadLeU16(input, pos).value.0;
    var rest := input[2..];
    assert rest[..len] == input[2 .. 2 + len];
    assert rest[len..] == input[2 + len ..];
  }

  /** When a scan ends without error, re-encoding the blocks it read rebuilds
      the scanned bytes exactly: nothing is skipped and nothing is left over. */
  lemma {:induction false} EncodeTapOfScan(input: seq<Byte>, pos: nat)
    requires Scan(input, pos).stop == None
    ensures EncodeTap(Scan(input, pos).blocks) == input
    decreases |input|
  {
    if input != [] {
      ScanHead(input, pos);
      var len := ReadLeU16(input, pos).value.0;
      var b: Payload := input[2 .. 2 + len];
      var after := Scan(input[2 + len ..], pos + 2 + len);
      EncodeTapOfScan(input[2 + len ..], pos + 2 + len);
      var blocks := Scan(input, pos).blocks;
      assert blocks[0] == b && blocks[1..] == after.blocks;
      assert input == input[..2] + b + input[2 + len ..];
    }
  }

  /** A scan that ends without error has gone through the whole image: its
      length is the sum of 2 + L over the blocks read. */
  lemma ScanCoversImage(tap: seq<Byte>)
    requires Scan(tap, 0).stop == None
    ensures |tap| == TapSize(Scan(tap, 0).blocks)
  {
    EncodeTapOfScan(tap, 0);
    EncodeTapLength(Scan(tap, 0).blocks);
  }

  /** Where a scan that started at image offset pos stops with e, after
      reading whole blocks that take the first n bytes of input: a truncated
      prefix is a single byte left over; an overrun is a full prefix
      declaring more bytes than remain after it. */
  predicate StopsAt(input: seq<Byte>, pos: nat, n: nat, e: Error)
  {
    match e
    case Malformed(offset) => offset == pos + n && |input| == n + 1
    case Overrun(offset, len) =>
      offset == pos + n + 2 && n + 2 <= |input| < n + 2 + len && input[n .. n + 2] == LeBytes(len)
  }

  /** A first block whose payload is all there is read, and the scan goes
      on after it. */
  lemma ScanTakes(input: seq<Byte>, pos: nat)
    requires |input| >= 2
    requires 2 + ReadLeU16(input, pos).value.0 <= |input|
    ensures Scan(input, pos)
         == Prepend(input[2 .. 2 + ReadLeU16(input, pos).value.0],
                    Scan(input[2 + ReadLeU16(input, pos).value.0 ..], pos + 2 + ReadLeU16(input, pos).value.0))
    ensures LeBytes(ReadLeU16(input, pos).value.0) == input[..2]
  {
    ReadLeU16Decodes(input, pos);
    var len := ReadLeU16(input, pos).value.0;
    var rest := input[2..];
    assert rest[..len] == input[2 .. 2 + len];
    assert rest[len..] == input[2 + len ..];
  }

  lemma EncodeTapCons(b: Payload, blocks: seq<Payload>)
    ensures EncodeTap([b] + blocks) == LeBytes(|b|) + b + EncodeTap(blocks)
  {
    assert ([b] + blocks)[0] == b && ([b] + blocks)[1..] == blocks;
  }

  lemma PrefixJoin(input: seq<Byte>, k: nat, m: nat)
    requires k + m <= |input|
    ensures input[..k + m] == input[..k] + input[k..][..m]
  {
  }

  /** A stop m bytes into input[k..] is a stop k + m bytes into input. */
  lemma StopsAtShift(input: seq<Byte>, k: nat, pos: nat, m: nat, e: Error)
    requires k <= |input|
    requires StopsAt(input[k..], pos + k, m, e)
    ensures StopsAt(input, pos, k + m, e)
  {
    if e.Overrun? {
      assert input[k..][m .. m + 2] == input[k + m .. k + m + 2];
    }
  }

  /** The inductive step of ScanStops: a scan that takes a first block of
      k bytes fails where the scan of the rest fails, k bytes further on. */
  lemma ScanStopsStep(input: seq<Byte>, pos: nat, k: nat, b: Payload, after: Scanned)
    requires k == 2 + |b| <= |input|
    requires input[..k] == LeBytes(|b|) + b
    requires Scan(input, pos) == Prepend(b, after)
    requires after.stop.Some?
    requires |EncodeTap(after.blocks)| <= |input[k..]|
    requires input[k..][..|EncodeTap(after.blocks)|] == EncodeTap(after.blocks)
    requires StopsAt(input[k..], pos + k, |EncodeTap(after.blocks)|, after.stop.value)
    ensures |EncodeTap(Scan(input, pos).blocks)| <= |input|
    ensures input[..|EncodeTap(Scan(input, pos).blocks)|] == EncodeTap(Scan(input, pos).blocks)
    ensures StopsAt(input, pos, |EncodeTap(Scan(input, pos).blocks)|, Scan(input, pos).stop.value)
  {
    var m := |EncodeTap(after.blocks)|;
    EncodeTapCons(b, after.blocks);
    assert EncodeTap(Scan(input, pos).blocks) == (LeBytes(|b|) + b) + EncodeTap(after.blocks);
    PrefixJoin(input, k, m);
    StopsAtShift(input, k, pos, m, after.stop.value);
  }

  /** The only ways a scan fails: it reads whole blocks, which re-encode to
      the front of the input, and then meets a truncated prefix or an
      overrun right after them. */
  lemma {:induction false} ScanStops(input: seq<Byte>, pos: nat)
    requires Scan(input, pos).stop.Some?
    ensures |EncodeTap(Scan(input, pos).blocks)| <= |input|
    ensures input[..|EncodeTap(Scan(input, pos).blocks)|] == EncodeTap(Scan(input, pos).blocks)
    ensures StopsAt(input, pos, |EncodeTap(Scan(input, pos).blocks)|, Scan(input, pos).stop.value)
    decreases |input|
  {
    if |input| >= 2 {
      ReadLeU16Decodes(input, pos);
      var len := ReadLeU16(input, pos).value.0;
      if 2 + len <= |input| {
        ScanTakes(input, pos);
        var k := 2 + len;
        var b: Payload := input[2 .. k];
        var after := Scan(input[k..], pos + k);
        ScanStops(input[k..], pos + k);
        assert input[..k] == LeBytes(len) + b;
        ScanStopsStep(input, pos, k, b, after);
      } else {
        assert input[0 .. 2] == input[..2];
      }
    }
  }
}
