/** The HC compressors and the decoder together, at every level. */
module Lz4hcRoundTrip {
  import opened Lz4Format
  import opened Lz4Compressor
  import opened Lz4Decoder
  import opened Lz4Stream
  import opened Lz4StreamDecoder
  import opened Lz4RoundTrip
  import opened Lz4hc

  /** The decoder gives back what a block of its own encodes; the buffer may be larger. */
  method DecodeAlone(block: seq<byte>, ghost input: seq<byte>, length: nat, slack: nat)
    returns (result: int, output: seq<byte>)
    requires Encodes(block, [], input) && length == |input| && 1 <= length + slack
    ensures result == |input| && output == input
  {
    hide Encodes, Decoded, Complete;
    var mem := new byte[length + slack];
    result := DecompressSafe(block, mem, 0, mem.Length);
    EncodedDecodes(block, [], input, result, mem[0..], mem.Length);
    output := mem[..result];
  }

  /** LZ4_compress_HC, then LZ4_decompress_safe: at every level, for every input and capacity. */
  method HcRoundTrip(input: seq<byte>, blockCapacity: nat, cLevel: int, slack: nat)
    returns (size: nat, result: int, output: seq<byte>)
    requires 1 <= |input| + slack
    ensures |input| <= MAX_INPUT_SIZE && CompressBound(|input|) <= blockCapacity ==> size > 0
    ensures size <= blockCapacity && (size > 0 ==> result == |input| && output == input)
  {
    hide Encodes, CompressBound, Ready;
    var state := new StreamHc();
    var block := new byte[blockCapacity];
    size := state.CompressExtState(input, 0, |input|, block, blockCapacity, cLevel);
    if size == 0 {
      return size, -1, [];
    }
    assert input[0..0 + |input|] == input;
    result, output := DecodeAlone(block[..size], input, |input|, slack);
  }

  /** The same on a state that has been used for anything before, reset by LZ4_resetStreamHC_fast: the tables
      keep what earlier inputs left in them, and no block refers to it. */
  method HcReuseRoundTrip(state: StreamHc, input: seq<byte>, blockCapacity: nat, cLevel: int, slack: nat)
    returns (size: nat, result: int, output: seq<byte>)
    requires state.Valid() && 1 <= |input| + slack
    modifies state, state.hc, state.hc.hashTable, state.hc.chainTable
    ensures state.Valid()
    ensures |input| <= MAX_INPUT_SIZE && CompressBound(|input|) <= blockCapacity ==> size > 0
    ensures size <= blockCapacity && (size > 0 ==> result == |input| && output == input)
  {
    hide Encodes, CompressBound, Ready;
    var block := new byte[blockCapacity];
    size := state.CompressFastReset(input, 0, |input|, block, blockCapacity, cLevel);
    if size == 0 {
      return size, -1, [];
    }
    assert input[0..0 + |input|] == input;
    result, output := DecodeAlone(block[..size], input, |input|, slack);
  }

  /** LZ4_compress_HC_destSize: the block fits the target and decodes to the consumed part of the input. */
  method HcDestSizeRoundTrip(input: seq<byte>, target: int, cLevel: int)
    returns (size: nat, consumed: nat, result: int, output: seq<byte>)
    ensures size > 0 <==> |input| <= MAX_INPUT_SIZE && 1 <= target
    ensures size <= (if target < 0 then 0 else target) && consumed <= |input|
    ensures size > 0 ==> result == consumed && output == input[..consumed]
  {
    hide Encodes, Ready;
    var state := new StreamHc();
    var block := new byte[if target < 0 then 0 else target];
    size, consumed := state.CompressDestSize(input, 0, |input|, block, target, cLevel);
    if size == 0 {
      return size, consumed, -1, [];
    }
    assert input[0..0 + consumed] == input[..consumed];
    result, output := DecodeAlone(block[..size], input[..consumed], consumed, 1);
  }

  /** The sending side of an HC stream: the blocks before `pos` are done. */
  ghost predicate HcSending(encoder: StreamHc, input: seq<byte>, pos: nat)
    reads encoder, encoder.hc, encoder.hc.hashTable, encoder.hc.chainTable
  {
    encoder.Valid() && encoder.InMemory(input) && (encoder.prefixStart == NULL || encoder.end == pos)
  }

  /** One block into the given capacity; it fails only below the worst-case size, and then stays empty. */
  method HcSendBlock(encoder: StreamHc, input: seq<byte>, pos: nat, n: nat, capacity: nat) returns (block: seq<byte>)
    requires HcSending(encoder, input, pos) && pos + n <= |input| && n <= MAX_INPUT_SIZE
    modifies encoder, encoder.hc, encoder.hc.hashTable, encoder.hc.chainTable
    ensures HcSending(encoder, input, pos + n) && |block| <= capacity
    ensures block != [] ==> Encodes(block, input[..pos], input[pos..pos + n])
    ensures CompressBound(n) <= capacity ==> block != []
  {
    hide Encodes, CompressBound, Ready;
    ghost var h := encoder.text;
    assert h == input[pos - |h|..pos];
    var dst := new byte[capacity];
    var r, hist := encoder.Continue(input, pos, n, dst, capacity);
    block := dst[..r];
    if r > 0 {
      BehindAll(input, pos, n, block, h, hist);
    }
  }

  /** Any input, cut into any number of contiguous blocks and compressed by one HC stream at any level, the
      index reload at 2 GB included, is rebuilt as far as the blocks fit. */
  method HcStreamRoundTrip(input: seq<byte>, sizes: seq<nat>, capacities: seq<nat>, cLevel: int)
    returns (ok: bool, output: seq<byte>)
    requires Sum(sizes) == |input| && forall i :: 0 <= i < |sizes| ==> sizes[i] <= MAX_INPUT_SIZE
    requires |capacities| == |sizes|
    ensures output <= input && (ok ==> output == input)
    ensures (forall i :: 0 <= i < |sizes| ==> CompressBound(sizes[i]) <= capacities[i]) ==> ok
  {
    hide Encodes, CompressBound, HcSending, Receiving;
    var encoder := new StreamHc();
    encoder.ResetFast(cLevel);
    var decoder := new StreamDecode();
    var mem := new byte[|input|];
    HcStarting(encoder, decoder, mem, input);
    var pos := 0;
    for i := 0 to |sizes|
      invariant pos == Sum(sizes[..i]) <= |input|
      invariant HcSending(encoder, input, pos) && Receiving(decoder, mem, input, pos)
    {
      SumPrefix(sizes, i + 1);
      assert sizes[..i + 1][..i] == sizes[..i];
      var block := HcSendBlock(encoder, input, pos, sizes[i], capacities[i]);
      if block == [] {
        Rebuilt(decoder, mem, input, pos);
        return false, mem[..pos];
      }
      ReceiveBlock(decoder, mem, input, pos, sizes[i], block);
      pos := pos + sizes[i];
    }
    assert sizes[..|sizes|] == sizes;
    Rebuilt(decoder, mem, input, pos);
    return true, mem[..pos];
  }

  lemma HcStarting(encoder: StreamHc, decoder: StreamDecode, mem: array<byte>, input: seq<byte>)
    requires encoder.Valid() && encoder.prefixStart == NULL
    requires mem.Length == |input| && decoder.Valid(mem) && decoder.prefixSize == decoder.extDictSize == 0
    ensures HcSending(encoder, input, 0) && Receiving(decoder, mem, input, 0)
  {
    hide Ready;
  }
}
