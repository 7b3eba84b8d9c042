/** The LZ4 legacy frame, as the encoder and decoder streams write and read it. */
module Lz4Legacy {
  import opened Common
  import opened ChunkStream

  const LZ4_UNCOMPRESSED: nat := 0x800000
  const LZ4_COMPRESSED: nat := LZ4_UNCOMPRESSED + LZ4_UNCOMPRESSED / 255 + 16
  const LZ4_MAGIC: nat := 0x184C2102

  /** The block codec: an empty result of `compress` is the library's failure value. */
  datatype BlockCodec = BlockCodec(compress: Bytes -> Bytes, decompress: (Bytes, nat) -> Option<Bytes>) {
    /** Blocks come back, and never exceed the library's bound. */
    ghost predicate Valid() {
      forall block: Bytes {:trigger compress(block)} | 0 < |block| <= LZ4_UNCOMPRESSED ::
        && 0 < |compress(block)| <= LZ4_COMPRESSED
        && decompress(compress(block), LZ4_UNCOMPRESSED) == Some(block)
    }
  }

  // ----- the encoder -----

  datatype Encoder = Encoder(out: Bytes, inTotal: nat)

  /** `LZ4_encoder::write_chunk` */
  function EncodeChunk(lz4: BlockCodec, enc: Encoder, size: nat, chunk: Bytes, final: bool): Outcome<Encoder> {
    var block := lz4.compress(chunk);
    if block == [] || |block| >= TWO_TO_THE_32 then Outcome(enc, size, false)
    else Outcome(Encoder(enc.out + LittleEndian32(|block|) + block, (enc.inTotal + |chunk|) % TWO_TO_THE_32), size, true)
  }

  function EncoderOf(lz4: BlockCodec): Consumer<Encoder> {
    Consumer((enc, size, chunk, final) => EncodeChunk(lz4, enc, size, chunk, final))
  }

  function Block(lz4: BlockCodec, chunk: Bytes): Bytes
    requires |lz4.compress(chunk)| < TWO_TO_THE_32
  {
    LittleEndian32(|lz4.compress(chunk)|) + lz4.compress(chunk)
  }

  /** The blocks of a frame: full ones, then one for the remainder. */
  ghost function Blocks(lz4: BlockCodec, input: Bytes): Bytes
    requires lz4.Valid()
    decreases |input|
  {
    if input == [] then []
    else if |input| <= LZ4_UNCOMPRESSED then Block(lz4, input)
    else Block(lz4, input[..LZ4_UNCOMPRESSED]) + Blocks(lz4, input[LZ4_UNCOMPRESSED..])
  }

  /** The whole frame; LG devices append the uncompressed size. */
  ghost function Frame(lz4: BlockCodec, input: Bytes, lg: bool): Bytes
    requires lz4.Valid()
  {
    LittleEndian32(LZ4_MAGIC) + Blocks(lz4, input)
    + if lg then LittleEndian32(|input| % TWO_TO_THE_32) else []
  }

  /** One chunk adds one block. */
  lemma EncodeOne(lz4: BlockCodec, enc: Encoder, size: nat, chunk: Bytes, final: bool)
    requires lz4.Valid() && 0 < |chunk| <= LZ4_UNCOMPRESSED
    ensures EncoderOf(lz4).chunk(enc, size, chunk, final)
            == Outcome(Encoder(enc.out + Block(lz4, chunk), (enc.inTotal + |chunk|) % TWO_TO_THE_32), size, true)
  {
    var block := lz4.compress(chunk);
    assert enc.out + LittleEndian32(|block|) + block == enc.out + Block(lz4, chunk);
  }

  lemma SumModulo(a: nat, b: nat, c: nat)
    ensures ((a + b) % TWO_TO_THE_32 + c) % TWO_TO_THE_32 == (a + (b + c)) % TWO_TO_THE_32
  {
  }

  /** What the encoder has written, plus its last block, is the blocks of the input. */
  lemma {:induction false} EncoderWritesBlocks(lz4: BlockCodec, enc: Encoder, input: Bytes)
    requires lz4.Valid() && enc.inTotal < TWO_TO_THE_32
    ensures var flow := Drain(EncoderOf(lz4), LZ4_UNCOMPRESSED, enc, LZ4_UNCOMPRESSED, input);
            flow.Open? && Finish(EncoderOf(lz4), flow)
                          == (Encoder(enc.out + Blocks(lz4, input), (enc.inTotal + |input|) % TWO_TO_THE_32), true)
    decreases |input|
  {
    hide Block, EncoderOf;
    if input == [] {
      assert enc.out + [] == enc.out;
    } else if |input| < LZ4_UNCOMPRESSED {
      EncodeOne(lz4, enc, LZ4_UNCOMPRESSED, input, true);
    } else {
      var first, rest := input[..LZ4_UNCOMPRESSED], input[LZ4_UNCOMPRESSED..];
      EncodeOne(lz4, enc, LZ4_UNCOMPRESSED, first, false);
      var next := Encoder(enc.out + Block(lz4, first), (enc.inTotal + |first|) % TWO_TO_THE_32);
      EncoderWritesBlocks(lz4, next, rest);
      SumModulo(enc.inTotal, |first|, |rest|);
      BlocksStep(lz4, enc.out, input);
    }
  }

  lemma BlocksStep(lz4: BlockCodec, out: Bytes, input: Bytes)
    requires lz4.Valid() && |input| >= LZ4_UNCOMPRESSED
    ensures (out + Block(lz4, input[..LZ4_UNCOMPRESSED])) + Blocks(lz4, input[LZ4_UNCOMPRESSED..])
            == out + Blocks(lz4, input)
  {
    var first, rest := input[..LZ4_UNCOMPRESSED], input[LZ4_UNCOMPRESSED..];
    assert (out + Block(lz4, first)) + Blocks(lz4, rest) == out + (Block(lz4, first) + Blocks(lz4, rest));
    if rest == [] {
      assert input == first;
      assert Block(lz4, first) + [] == Block(lz4, first);
    }
  }

  /** The encoder stream, its writes cut anywhere, produces the frame. */
  method Encode(lz4: BlockCodec, writes: seq<Bytes>, lg: bool) returns (out: Bytes)
    requires lz4.Valid()
    ensures out == Frame(lz4, Flatten(writes), lg)
  {
    var enc := Encoder(LittleEndian32(LZ4_MAGIC), 0);
    EncoderWritesBlocks(lz4, enc, Flatten(writes));
    var last, ok := RunStream(EncoderOf(lz4), enc, LZ4_UNCOMPRESSED, LZ4_UNCOMPRESSED, writes);
    out := last.out;
    if lg {
      out := out + LittleEndian32(last.inTotal);
    } else {
      assert out + [] == out;
    }
  }

  // ----- the decoder -----

  datatype Decoder = Decoder(out: Bytes, blockSize: nat)

  /** `LZ4_decoder::write_chunk` */
  function DecodeChunk(lz4: BlockCodec, dec: Decoder, size: nat, chunk: Bytes, final: bool): Outcome<Decoder> {
    if |chunk| != size || (dec.blockSize == 0 && |chunk| < 4) then Outcome(dec, size, false)
    else if dec.blockSize == 0 then
      var n := FromLittleEndian32(chunk);
      if n == LZ4_MAGIC then Outcome(dec, 4, true) else Outcome(dec.(blockSize := n), n, true)
    else
      match lz4.decompress(chunk, LZ4_UNCOMPRESSED)
      case None => Outcome(dec.(blockSize := 0), 4, false)
      case Some(block) => Outcome(Decoder(dec.out + block, 0), 4, true)
  }

  function DecoderOf(lz4: BlockCodec): Consumer<Decoder> {
    Consumer((dec, size, chunk, final) => DecodeChunk(lz4, dec, size, chunk, final))
  }

  /** The decoder takes one 4-byte word between blocks. */
  lemma DecodeWord(lz4: BlockCodec, dec: Decoder, n: nat, rest: Bytes)
    requires dec.blockSize == 0 && n < TWO_TO_THE_32
    ensures Drain(DecoderOf(lz4), LZ4_COMPRESSED, dec, 4, LittleEndian32(n) + rest)
            == Drain(DecoderOf(lz4), LZ4_COMPRESSED, if n == LZ4_MAGIC then dec else dec.(blockSize := n),
                     if n == LZ4_MAGIC then 4 else n, rest)
  {
    var bytes := LittleEndian32(n) + rest;
    assert bytes[..4] == LittleEndian32(n) && bytes[4..] == rest;
    LittleEndianRoundTrip(n);
  }

  lemma DecodeBlock(lz4: BlockCodec, dec: Decoder, chunk: Bytes, rest: Bytes)
    requires lz4.Valid() && dec.blockSize == 0 && 0 < |chunk| <= LZ4_UNCOMPRESSED
    ensures Drain(DecoderOf(lz4), LZ4_COMPRESSED, dec, 4, Block(lz4, chunk) + rest)
            == Drain(DecoderOf(lz4), LZ4_COMPRESSED, Decoder(dec.out + chunk, 0), 4, rest)
  {
    var block := lz4.compress(chunk);
    DecodeWord(lz4, dec, |block|, block + rest);
    assert Block(lz4, chunk) + rest == LittleEndian32(|block|) + (block + rest);
    assert (block + rest)[..|block|] == block && (block + rest)[|block|..] == rest;
  }

  lemma {:induction false} DecodeBlocks(lz4: BlockCodec, dec: Decoder, input: Bytes, rest: Bytes)
    requires lz4.Valid() && dec.blockSize == 0
    ensures Drain(DecoderOf(lz4), LZ4_COMPRESSED, dec, 4, Blocks(lz4, input) + rest)
            == Drain(DecoderOf(lz4), LZ4_COMPRESSED, Decoder(dec.out + input, 0), 4, rest)
    decreases |input|
  {
    if input == [] {
      assert [] + rest == rest && dec.out + [] == dec.out;
    } else if |input| <= LZ4_UNCOMPRESSED {
      DecodeBlock(lz4, dec, input, rest);
    } else {
      var first, more := input[..LZ4_UNCOMPRESSED], input[LZ4_UNCOMPRESSED..];
      assert (Block(lz4, first) + Blocks(lz4, more)) + rest == Block(lz4, first) + (Blocks(lz4, more) + rest);
      DecodeBlock(lz4, dec, first, Blocks(lz4, more) + rest);
      DecodeBlocks(lz4, Decoder(dec.out + first, 0), more, rest);
      assert (dec.out + first) + more == dec.out + input;
    }
  }

  /** Decoding a frame gives back its input, with nothing left in the buffer. */
  lemma FrameDecodes(lz4: BlockCodec, input: Bytes, lg: bool)
    requires lz4.Valid()
    ensures var flow := Drain(DecoderOf(lz4), LZ4_COMPRESSED, Decoder([], 0), 4, Frame(lz4, input, lg));
            flow.Open? && flow.buffered == [] && flow.state.out == input
  {
    var dec := Decoder([], 0);
    var trailer := if lg then LittleEndian32(|input| % TWO_TO_THE_32) else [];
    assert Frame(lz4, input, lg) == LittleEndian32(LZ4_MAGIC) + (Blocks(lz4, input) + trailer);
    DecodeWord(lz4, dec, LZ4_MAGIC, Blocks(lz4, input) + trailer);
    DecodeBlocks(lz4, dec, input, trailer);
    assert [] + input == input;
    if lg {
      DecodeWord(lz4, Decoder(input, 0), |input| % TWO_TO_THE_32, []);
      assert trailer + [] == trailer;
    }
  }

  // ----- which inputs the decoder can take -----

  /** An input read as size words and blocks: no size word is zero while bytes follow it, and none exceeds the buffer
      while more bytes follow than the buffer holds. A block that does not decompress ends the stream. */
  predicate StaysInside(lz4: BlockCodec, bytes: Bytes)
    decreases |bytes|
  {
    if |bytes| < 4 then true
    else
      var n, rest := FromLittleEndian32(bytes[..4]), bytes[4..];
      if n == LZ4_MAGIC then StaysInside(lz4, rest)
      else if rest == [] then true
      else if n == 0 then false
      else if n > LZ4_COMPRESSED then |rest| <= LZ4_COMPRESSED
      else |rest| < n || lz4.decompress(rest[..n], LZ4_UNCOMPRESSED).None? || StaysInside(lz4, rest[n..])
  }

  /** The decoder keeps inside its buffer, for every way of cutting the input, exactly on these inputs. */
  lemma {:induction false} InsideIff(lz4: BlockCodec, dec: Decoder, bytes: Bytes)
    requires dec.blockSize == 0
    ensures !Drain(DecoderOf(lz4), LZ4_COMPRESSED, dec, 4, bytes).Undefined? <==> StaysInside(lz4, bytes)
    decreases |bytes|
  {
    hide Drain;
    var c := DecoderOf(lz4);
    OneChunk(c, LZ4_COMPRESSED, dec, 4, bytes);
    if |bytes| < 4 {
    } else {
      var n, rest := FromLittleEndian32(bytes[..4]), bytes[4..];
      if n == LZ4_MAGIC {
        InsideIff(lz4, dec, rest);
      } else {
        OneChunk(c, LZ4_COMPRESSED, dec.(blockSize := n), n, rest);
        if 0 < n <= LZ4_COMPRESSED && n <= |rest| {
          var block := lz4.decompress(rest[..n], LZ4_UNCOMPRESSED);
          if block.Some? { InsideIff(lz4, Decoder(dec.out + block.value, 0), rest[n..]); }
        }
      }
    }
  }

  /** A size word of zero followed by anything leaves the decoder with no chunk to put it in. */
  lemma ZeroSizeWord(lz4: BlockCodec)
    ensures Drain(DecoderOf(lz4), LZ4_COMPRESSED, Decoder([], 0), 4, [0, 0, 0, 0, 7]).Undefined?
  {
    var bytes: Bytes := [0, 0, 0, 0, 7];
    assert bytes[..4] == [0, 0, 0, 0] && bytes[4..] == [7];
    InsideIff(lz4, Decoder([], 0), bytes);
  }

  /** The round trip: whatever the writes on either side, decoding what the encoder produced gives
      back the bytes that were encoded. */
  method EncodeThenDecode(lz4: BlockCodec, writes: seq<Bytes>, lg: bool, cut: Bytes -> seq<Bytes>)
    returns (out: Bytes, ok: bool)
    requires lz4.Valid()
    requires forall bytes {:trigger cut(bytes)} :: Flatten(cut(bytes)) == bytes
    ensures ok && out == Flatten(writes)
  {
    var frame := Encode(lz4, writes, lg);
    FrameDecodes(lz4, Flatten(writes), lg);
    var last;
    last, ok := RunStream(DecoderOf(lz4), Decoder([], 0), LZ4_COMPRESSED, 4, cut(frame));
    out := last.out;
  }
}
