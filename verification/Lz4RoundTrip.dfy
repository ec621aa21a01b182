/** Both sides together: whatever the compressors write, the decoders turn back into the input. */
module Lz4RoundTrip {
  import opened Lz4Format
  import opened Lz4Compressor
  import opened Lz4Decoder
  import opened Lz4PlainDecoder
  import opened Lz4Stream
  import opened Lz4StreamDecoder

  // ----- from one side's contract to the other's -----

  /** Decoding what Encodes describes, with room for it, gives the input. */
  lemma {:induction false} EncodedDecodes(block: seq<byte>, hist: seq<byte>, input: seq<byte>, r: int, out: seq<byte>,
                                          capacity: int)
    requires Encodes(block, hist, input) && Decoded(block, hist, r, out) && Complete(block, hist, r, capacity)
    requires |input| <= capacity && (0 < capacity || block == [0])
    ensures r == |input| <= |out| && out[..r] == input
  {
    hide Meaning, ConformingBlock;
    assert ConformingBlock(block, hist, |input|);
    assert out[..r] == (hist + out[..r])[|hist|..] == input;
  }

  /** A block stays good behind more history. */
  lemma {:induction false} EncodesBehind(x: seq<byte>, block: seq<byte>, hist: seq<byte>, input: seq<byte>)
    requires Encodes(block, hist, input)
    ensures Encodes(block, x + hist, input)
  {
    hide Decode, Conforming;
    MoreHistory(block, 0, x, hist);
    MoreHistoryConforms(block, 0, x, hist, |hist| + |input|);
    assert x + (hist + input) == x + hist + input;
    assert |x| + (|hist| + |input|) == |x + hist| + |input|;
  }

  // ----- one block -----

  /** LZ4_compress_fast, then LZ4_decompress_safe, for every input, acceleration and capacity: when the
      block fits, and it does when there are CompressBound bytes for it, the input comes back. */
  method BlockRoundTrip(input: seq<byte>, blockCapacity: nat, acceleration: int, slack: nat)
    returns (size: nat, result: int, output: seq<byte>)
    requires 1 <= |input| + slack
    ensures |input| <= MAX_INPUT_SIZE && CompressBound(|input|) <= blockCapacity ==> size > 0
    ensures size <= blockCapacity && (size > 0 ==> result == |input| && output == input)
  {
    hide Encodes, Decoded, Complete, CompressBound;
    var state := new Stream();
    var block := new byte[blockCapacity];
    size := state.CompressFastExtState(input, block, blockCapacity, acceleration);
    if size == 0 {
      return size, -1, [];
    }
    var mem := new byte[|input| + slack];
    result := DecompressSafe(block[..size], mem, 0, mem.Length);
    EncodedDecodes(block[..size], [], input, result, mem[0..], mem.Length);
    output := mem[..result];
  }

  /** Reusing the state: after any earlier use of a valid state a fast reset still gives a block that
      stands on its own, without any trace of the earlier inputs. */
  method ReuseRoundTrip(state: Stream, input: seq<byte>, blockCapacity: nat, acceleration: int)
    returns (size: nat, result: int, output: seq<byte>)
    requires state.Valid() && input != []
    modifies state, state.hashTable
    ensures state.Valid()
    ensures |input| <= MAX_INPUT_SIZE && CompressBound(|input|) <= blockCapacity ==> size > 0
    ensures size > 0 ==> result == |input| && output == input
  {
    hide Encodes, Decoded, Complete, CompressBound;
    var block := new byte[blockCapacity];
    size := state.CompressFastReset(input, block, blockCapacity, acceleration);
    if size == 0 {
      return size, -1, [];
    }
    var mem := new byte[|input|];
    result := DecompressSafe(block[..size], mem, 0, mem.Length);
    EncodedDecodes(block[..size], [], input, result, mem[0..], mem.Length);
    output := mem[..result];
  }

  /** LZ4_compress_destSize: the block fits the target, and a buffer of exactly the reported size
      receives exactly the consumed part of the input. */
  method DestSizeRoundTrip(input: seq<byte>, target: nat)
    returns (size: nat, consumed: nat, result: int, output: seq<byte>)
    requires 1 <= target && |input| <= MAX_INPUT_SIZE
    ensures 0 < size <= target && consumed <= |input|
    ensures CompressBound(|input|) <= target ==> consumed == |input|
    ensures consumed > 0 ==> result == consumed && output == input[..consumed]
  {
    hide Encodes, Decoded, Complete, CompressBound;
    var state := new Stream();
    var block := new byte[target];
    size, consumed := state.CompressDestSize(input, block, target, 1);
    var mem := new byte[consumed];
    if consumed == 0 {
      return size, consumed, 0, [];
    }
    result := DecompressSafe(block[..size], mem, 0, mem.Length);
    EncodedDecodes(block[..size], [], input[..consumed], result, mem[0..], mem.Length);
    output := mem[..result];
  }

  /** LZ4_decompress_safe_partial on a compressed block: any target gives that much of the input. */
  method PartialRoundTrip(input: seq<byte>, acceleration: int, target: nat) returns (result: int, output: seq<byte>)
    requires |input| <= MAX_INPUT_SIZE
    ensures var n := if target < |input| then target else |input|; result == n && output == input[..n]
  {
    hide Encodes, Decoded, Complete, Meaning, ConformingBlock;
    var state := new Stream();
    var block := new byte[CompressBound(|input|)];
    var size := state.CompressFastExtState(input, block, block.Length, acceleration);
    EncodedMeaning(block[..size], input);
    var mem := new byte[target];
    result := DecompressSafePartial(block[..size], mem, 0, target, target);
    output := mem[..result];
    assert mem[0..0 + result] == output;
  }

  lemma EncodedMeaning(block: seq<byte>, input: seq<byte>)
    requires Encodes(block, [], input)
    ensures Meaning(block, []) == Done(input) && ConformingBlock(block, [], |input|)
  {
    hide Meaning, ConformingBlock;
    assert [] + input == input;
  }

  // ----- the two decoders -----

  /** Whatever LZ4_decompress_fast accepts, LZ4_decompress_safe decodes to the same bytes. */
  method DecodersAgree(src: seq<byte>, n: nat) returns (consumed: int, result: int, plain: seq<byte>, fast: seq<byte>)
    requires 0 < n
    requires !Plain(src, 0, [], n).Starved? && !Plain(src, 0, [], n).NullOffset?
    ensures consumed <= |src| && (consumed >= 0 ==> result == n == |plain| && plain == fast)
    ensures consumed < 0 ==> forall c :: 0 <= c <= |src| ==> !ConformingBlock(src[..c], [], n)
  {
    hide Plain, Decoded, Complete, Decode, Conforming;
    var a, b := new byte[n], new byte[n];
    var job := Job(src, a, 0, n, false, UsingExtDict, 0, []);
    assert job.Out(a[..], 0) == [];
    consumed := DecompressUnsafe(job);
    plain, result, fast := a[..], -1, [];
    if consumed >= 0 {
      assert job.Out(a[..], n) == plain;
      AcceptedConforms(src, 0, [], n);
      assert [] + plain == plain;
      result := DecompressSafe(src[..consumed], b, 0, n);
      EncodedDecodes(src[..consumed], [], plain, result, b[0..], n);
      fast := b[..];
    } else {
      forall c | 0 <= c <= |src| ensures !ConformingBlock(src[..c], [], n) {
        if ConformingBlock(src[..c], [], n) {
          ConformingAccepted(src, c, 0, [], n);
        }
      }
    }
  }

  // ----- streams -----

  function Sum(sizes: seq<nat>): nat {
    if sizes == [] then 0 else Sum(sizes[..|sizes| - 1]) + sizes[|sizes| - 1]
  }

  lemma {:induction false} SumPrefix(sizes: seq<nat>, i: nat)
    requires i <= |sizes|
    ensures Sum(sizes[..i]) <= Sum(sizes)
    decreases |sizes|
  {
    if i < |sizes| {
      SumPrefix(sizes[..|sizes| - 1], i);
      assert sizes[..|sizes| - 1][..i] == sizes[..i];
    } else {
      assert sizes[..i] == sizes;
    }
  }

  /** The sending side of a stream: the blocks before `pos` are done. */
  ghost predicate Sending(encoder: Stream, input: seq<byte>, pos: nat)
    reads encoder, encoder.hashTable
  {
    && encoder.Valid() && encoder.tableType != Stored(ByU16) && encoder.InMemory(input)
    && (encoder.dictSize == 0 || encoder.dictionary + encoder.dictSize == pos)
  }

  /** The receiving side: everything before `pos` is rebuilt, and is the prefix of what follows. */
  ghost predicate Receiving(decoder: StreamDecode, mem: array<byte>, input: seq<byte>, pos: nat)
    reads decoder, mem
  {
    && mem.Length == |input| && pos <= |input| && decoder.Valid(mem)
    && decoder.prefixSize == pos && decoder.extDictSize == 0 && (0 < pos ==> decoder.prefixEnd == pos)
    && mem[..pos] == input[..pos]
  }

  /** One block into the given capacity; it fails only below the worst-case size, and then stays empty. */
  method SendBlock(encoder: Stream, input: seq<byte>, pos: nat, n: nat, capacity: nat, acceleration: int)
    returns (block: seq<byte>)
    requires Sending(encoder, input, pos) && pos + n <= |input| && n <= MAX_INPUT_SIZE
    modifies encoder, encoder.hashTable
    ensures Sending(encoder, input, pos + n) && |block| <= capacity
    ensures block != [] ==> Encodes(block, input[..pos], input[pos..pos + n])
    ensures CompressBound(n) <= capacity ==> block != []
  {
    hide Encodes, CompressBound, Stream.Valid;
    ghost var h := encoder.History(input);
    assert h == input[pos - |h|..pos];
    var dst := new byte[capacity];
    var r, hist := encoder.CompressFastContinue(input, pos, n, dst, capacity, acceleration);
    block := dst[..r];
    if r > 0 {
      BehindAll(input, pos, n, block, h, hist);
    }
  }

  lemma BehindAll(input: seq<byte>, pos: nat, n: nat, block: seq<byte>, h: seq<byte>, hist: seq<byte>)
    requires pos + n <= |input| && |hist| <= |h| <= pos && h == input[pos - |h|..pos] && hist == h[|h| - |hist|..]
    requires Encodes(block, hist, input[pos..pos + n])
    ensures Encodes(block, input[..pos], input[pos..pos + n])
  {
    hide Encodes;
    EncodesBehind(input[..pos - |hist|], block, hist, input[pos..pos + n]);
    assert input[..pos - |hist|] + hist == input[..pos];
  }

  method ReceiveBlock(decoder: StreamDecode, mem: array<byte>, ghost input: seq<byte>, pos: nat, n: nat,
                      block: seq<byte>)
    requires Receiving(decoder, mem, input, pos) && pos + n <= |input|
    requires Encodes(block, input[..pos], input[pos..pos + n])
    modifies decoder, mem
    ensures Receiving(decoder, mem, input, pos + n)
  {
    hide Encodes, Decoded, Complete;
    assert decoder.History(mem, pos) == mem[..pos];
    ghost var before := mem[..pos];
    var d := decoder.Continue(block, mem, pos, n);
    if n > 0 {
      EncodedDecodes(block, input[..pos], input[pos..pos + n], d, mem[pos..], n);
    }
    assert mem[..pos] == before;
    Joined(mem[..], input, pos, n);
  }

  lemma Joined(m: seq<byte>, input: seq<byte>, pos: nat, n: nat)
    requires pos + n <= |m| == |input| && m[..pos] == input[..pos] && (n > 0 ==> m[pos..][..n] == input[pos..pos + n])
    ensures m[..pos + n] == input[..pos + n]
  {
    if n > 0 {
      assert m[..pos + n] == m[..pos] + m[pos..][..n];
      assert input[..pos + n] == input[..pos] + input[pos..pos + n];
    }
  }

  /** Any input, cut into any number of contiguous blocks of any sizes, compressed one after the other
      by one stream (renormalising its indexes when needed) into any capacities and decoded in order by
      another, is rebuilt as far as the blocks fit. All of them do when each has CompressBound bytes. */
  method StreamRoundTrip(input: seq<byte>, sizes: seq<nat>, capacities: seq<nat>, acceleration: int)
    returns (ok: bool, output: seq<byte>)
    requires Sum(sizes) == |input| && forall i :: 0 <= i < |sizes| ==> sizes[i] <= MAX_INPUT_SIZE
    requires |capacities| == |sizes|
    ensures output <= input && (ok ==> output == input)
    ensures (forall i :: 0 <= i < |sizes| ==> CompressBound(sizes[i]) <= capacities[i]) ==> ok
  {
    hide Encodes, CompressBound, Sending, Receiving;
    var encoder := new Stream();
    var decoder := new StreamDecode();
    var mem := new byte[|input|];
    Starting(encoder, decoder, mem, input);
    var pos := 0;
    for i := 0 to |sizes|
      invariant pos == Sum(sizes[..i]) <= |input|
      invariant Sending(encoder, input, pos) && Receiving(decoder, mem, input, pos)
    {
      SumPrefix(sizes, i + 1);
      assert sizes[..i + 1][..i] == sizes[..i];
      var block := SendBlock(encoder, input, pos, sizes[i], capacities[i], acceleration);
      if block == [] {
        Rebuilt(decoder, mem, input, pos);
        return false, mem[..pos];
      }
      ReceiveBlock(decoder, mem, input, pos, sizes[i], block);
      pos := pos + sizes[i];
    }
    assert sizes[..|sizes|] == sizes;
    Rebuilt(decoder, mem, input, pos);
    return true, mem[..pos];
  }

  lemma Starting(encoder: Stream, decoder: StreamDecode, mem: array<byte>, input: seq<byte>)
    requires encoder.Valid() && encoder.tableType != Stored(ByU16) && encoder.dictSize == 0 && encoder.InMemory(input)
    requires mem.Length == |input| && decoder.Valid(mem) && decoder.prefixSize == decoder.extDictSize == 0
    ensures Sending(encoder, input, 0) && Receiving(decoder, mem, input, 0)
  {
  }

  lemma Rebuilt(decoder: StreamDecode, mem: array<byte>, input: seq<byte>, pos: nat)
    requires Receiving(decoder, mem, input, pos)
    ensures pos <= |input| == mem.Length && mem[..pos] == input[..pos]
  {
  }
}
