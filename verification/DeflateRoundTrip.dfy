/** What the compressor writes, the decompressor reads: `uncompress(compress(x))`. */
module DeflateRoundTrip {
  import opened Options
  import opened Bits
  import opened Tokens
  import opened DeflateFormat
  import opened BlockReading
  import opened BufferGrowth
  import C = RawDeflate
  import D = RawInflate

  /** How many zero bits fill up the last byte. */
  function Padding(length: nat): (n: nat)
    ensures n < 8
  {
    (8 - length % 8) % 8
  }

  lemma {:induction false} PaddedBits(stream: seq<byte>, bits: seq<bool>)
    requires C.IsPadded(stream, bits)
    ensures BytesBits(stream) == bits + Zeros(Padding(|bits|))
  {
    hide BytesBits;
    var n := 8 * |stream| - |bits|;
    assert n == Padding(|bits|);
    assert seq(n, i => false) == Zeros(n);
  }

  /**
   Compresses and decompresses a non-empty input.  Where the code lengths of the two alphabets do not straddle their
   boundary, the input comes back exactly if the block does not outrun the output buffer; if it does, decompressing
   fails or gives a proper prefix.  The block of an input of at most 32768 bytes never does.  Where they straddle it,
   the result is what the header as the two-part reader has it makes of the body.
   */
  method CompressThenDecompress(data: seq<byte>) returns (status: D.Status, back: seq<byte>, ghost block: Block)
    requires |data| > 0
    ensures Consistent(block) && Expand([], block.tokens) == data
    ensures !CrossesBoundary(block) ==>
      if BlockOutruns(block) && 0 !in block.lit[..block.n] then status == D.CannotGrow
      else status == D.Finished && back <= data && (back == data <==> !BlockOutruns(block))
    ensures !CrossesBoundary(block) && |data| <= FIRST_SIZE ==> status == D.Finished && back == data
    ensures var content := Inflate(BlockBits(block) + Zeros(Padding(|BlockBits(block)|)), InTwo);
      content.Some? && |content.value| <= FIRST_SIZE ==> status == D.Finished && back == content.value
  {
    var packed;
    packed, block := C.Compress(data);
    assert Shaped(block);
    hide *;
    var decoder := new D.RawInflate(packed);
    status := decoder.Decompress(8 * |packed|);
    back := decoder.Output();
    FittingStream(packed);
    PaddedBits(packed, BlockBits(block));
    if !CrossesBoundary(block) {
      BlockCutsOff(packed, block, Padding(|BlockBits(block)|));
    }
  }
}
