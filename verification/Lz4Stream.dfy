/** The state kept between calls: table reuse and fast resets, streaming over contiguous or separate
    blocks, index renormalisation, and the streaming decoder.
    The caller's input memory is a sequence `mem`, its addresses are positions in it. */
module Lz4Stream {
  import opened Lz4Format
  import opened Lz4Compressor
  import opened Lz4Decoder

  const KB64 := 65536
  const GB1 := 0x4000_0000
  const ACCELERATION_MAX := 65537
  const NULL := -1

  function CompressBound(n: int): int {
    if n < 0 || n > MAX_INPUT_SIZE then 0 else n + n / 255 + 16
  }

  datatype StoredType = Cleared | Stored(t: TableType)

  /** An index may only be stored with at least eight bytes behind it. */
  predicate EntryOk(e: nat, currentOffset: nat) {
    e == 0 || e + 8 <= currentOffset
  }

  /** LZ4_stream_t_internal */
  class Stream {
    const hashTable: array<nat>
    var currentOffset: nat
    var tableType: StoredType
    var dictionary: int
    var dictSize: nat

    ghost predicate Valid()
      reads this, hashTable
    {
      && hashTable.Length == TABLE_SIZE && currentOffset <= 0x8000_0000 && dictSize <= currentOffset
      && (forall i :: 0 <= i < TABLE_SIZE ==> EntryOk(hashTable[i], currentOffset))
      && (tableType == Cleared ==> currentOffset == 0)
    }

    /** LZ4_initStream */
    constructor ()
      ensures Valid() && fresh(hashTable)
      ensures currentOffset == 0 && tableType == Cleared && dictSize == 0
    {
      hashTable := new nat[TABLE_SIZE](_ => 0);
      currentOffset, tableType, dictionary, dictSize := 0, Cleared, NULL, 0;
    }

    /** MEM_INIT of the whole table. */
    method ClearTable()
      requires hashTable.Length == TABLE_SIZE
      modifies hashTable
      ensures forall i :: 0 <= i < TABLE_SIZE ==> hashTable[i] == 0
    {
      forall i | 0 <= i < TABLE_SIZE {
        hashTable[i] := 0;
      }
    }

    /** The table may be used by a call with these parameters as it is. */
    ghost predicate Ready(p: Params)
      reads this, hashTable
    {
      && Valid() && p.Valid() && p.start == currentOffset
      && (tableType == Cleared || tableType == Stored(p.tableType))
      && TableInv(p, hashTable[..], p.h + 1)
    }

    /** LZ4_prepareTable: afterwards no entry left by an earlier input can be taken for a match. */
    method PrepareTable(inputSize: nat, t: TableType)
      requires Valid()
      modifies this, hashTable
      ensures Valid() && dictSize == 0 && (tableType == Cleared || tableType == Stored(t))
      ensures t == ByU16 && currentOffset != 0 ==> currentOffset + inputSize < 0xFFFF
      ensures t == ByU32 && currentOffset != 0 ==> inputSize < 4096 && currentOffset <= GB1 + KB64
      ensures t == ByU32 && currentOffset != 0 ==>
                forall i :: 0 <= i < TABLE_SIZE ==> hashTable[i] + DISTANCE_MAX < currentOffset
    {
      if tableType != Cleared {
        if tableType != Stored(t)
           || (t == ByU16 && currentOffset + inputSize >= 0xFFFF)
           || (t == ByU32 && currentOffset > GB1)
           || inputSize >= 4096 {
          ClearTable();
          currentOffset := 0;
          tableType := Cleared;
        }
      }
      if currentOffset != 0 && t == ByU32 {
        currentOffset := currentOffset + KB64;
      }
      dictionary, dictSize := NULL, 0;
    }

    /** What stays of the history in memory. */
    function History(mem: seq<byte>): seq<byte>
      requires dictSize == 0 || 0 <= dictionary <= dictionary + dictSize <= |mem|
      reads this
    {
      if dictSize == 0 then [] else mem[dictionary..dictionary + dictSize]
    }

    /** LZ4_compress_generic, with the history `hist` already looked up in memory. */
    method CompressGeneric(hist: seq<byte>, input: seq<byte>, dst: array<byte>, dstCapacity: int, output: Output,
                           t: TableType, dict: DictDirective, dictSmall: bool, acceleration: nat)
      returns (r: nat, consumed: nat)
      requires Valid() && |hist| == dictSize && (output != NotLimited ==> dstCapacity <= dst.Length)
      requires output == NotLimited ==> |input| + |input| / 255 + 16 <= dst.Length
      requires 0 < |input| <= MAX_INPUT_SIZE ==>
                 Ready(Call(hist, input, currentOffset, t, dict, dictSmall, output, dstCapacity, acceleration)) &&
                 currentOffset + |input| <= 0x8000_0000
      modifies this, hashTable, dst
      ensures Valid()
      ensures output != NotLimited ==> r <= (if dstCapacity < 0 then 0 else dstCapacity)
      ensures output == NotLimited ==> r <= |input| + |input| / 255 + 16
      ensures consumed <= |input| && (r > 0 && output != FillOutput ==> consumed == |input|)
      ensures r > 0 ==> Encodes(dst[..r], hist, input[..consumed])
      ensures |input| > MAX_INPUT_SIZE ==> r == 0
      ensures r == 0 && |input| <= MAX_INPUT_SIZE ==> output != NotLimited && dstCapacity < CompressBound(|input|)
      ensures r == 0 && |input| <= MAX_INPUT_SIZE && output == FillOutput ==> dstCapacity < 1
      ensures 0 < |input| <= MAX_INPUT_SIZE && (output == FillOutput ==> 1 <= dstCapacity) ==>
                tableType == Stored(t) && currentOffset == old(currentOffset) + |input|
                    && dictSize == old(dictSize) + |input|
      ensures !(0 < |input| <= MAX_INPUT_SIZE && (output == FillOutput ==> 1 <= dstCapacity)) ==>
                tableType == old(tableType) && currentOffset == old(currentOffset) && dictSize == old(dictSize)
      ensures dictionary == old(dictionary)
    {
      hide TableInv, Encodes;
      consumed := 0;
      if |input| > MAX_INPUT_SIZE {
        return 0, 0;
      }
      if |input| == 0 {
        if output != NotLimited && dstCapacity <= 0 {
          return 0, 0;
        }
        dst[0] := 0;
        EmptyBlock(dst[..1], hist, input);
        return 1, 0;
      }
      if output == FillOutput && dstCapacity < 1 {
        return 0, 0;
      }
      var p := Call(hist, input, currentOffset, t, dict, dictSmall, output, dstCapacity, acceleration);
      dictSize := dictSize + |input|;
      currentOffset := currentOffset + |input|;
      tableType := Stored(t);
      r, consumed := CompressValidated(p, dst, hashTable);
      CallWritten(p, hist, input, dst[..r], consumed, r);
      EntriesAfter(p, hashTable[..]);
    }

    /** The table type for an input without history: 16-bit indexes when they suffice. */
    static function TypeFor(n: nat): TableType {
      if n < LIMIT_64K then ByU16 else ByU32
    }

    static function Clamp(acceleration: int): (r: nat)
      ensures 1 <= r <= ACCELERATION_MAX
    {
      if acceleration < 1 then 1 else if acceleration > ACCELERATION_MAX then ACCELERATION_MAX else acceleration
    }

    /** LZ4_compress_fast_extState, behind LZ4_compress_fast and LZ4_compress_default: a fresh state. */
    method CompressFastExtState(input: seq<byte>, dst: array<byte>, maxOutputSize: int, acceleration: int)
      returns (r: nat)
      requires hashTable.Length == TABLE_SIZE && maxOutputSize <= dst.Length
      modifies this, hashTable, dst
      ensures Valid() && r <= (if maxOutputSize < 0 then 0 else maxOutputSize)
      ensures r > 0 ==> Encodes(dst[..r], [], input)
      ensures |input| <= MAX_INPUT_SIZE && maxOutputSize >= CompressBound(|input|) ==> r > 0
    {
      hide TableInv, Encodes;
      ClearTable();
      currentOffset, tableType, dictionary, dictSize := 0, Cleared, NULL, 0;
      r := CompressNoDict(input, dst, maxOutputSize, Clamp(acceleration));
    }

    /** The choice between the unlimited and the limited compressor, on a prepared table. */
    method CompressNoDict(input: seq<byte>, dst: array<byte>, dstCapacity: int, acceleration: nat) returns (r: nat)
      requires Valid() && dictSize == 0 && 1 <= acceleration && dstCapacity <= dst.Length
      requires tableType == Cleared || tableType == Stored(TypeFor(|input|))
      requires currentOffset != 0 && TypeFor(|input|) == ByU16 ==> currentOffset + |input| < 0xFFFF
      requires TypeFor(|input|) == ByU32 ==> currentOffset == 0
      modifies this, hashTable, dst
      ensures Valid() && r <= (if dstCapacity < 0 then 0 else dstCapacity)
      ensures r > 0 ==> Encodes(dst[..r], [], input)
      ensures |input| <= MAX_INPUT_SIZE && dstCapacity >= CompressBound(|input|) ==> r > 0
    {
      hide TableInv, Encodes;
      var t := TypeFor(|input|);
      var dictSmall := t == ByU16 && currentOffset != 0;
      var output := if dstCapacity >= CompressBound(|input|) then NotLimited else LimitedOutput;
      if 0 < |input| <= MAX_INPUT_SIZE {
        Admissible(Call([], input, currentOffset, t, NoDict, dictSmall, output, dstCapacity, acceleration),
                   hashTable[..]);
      }
      if |input| > MAX_INPUT_SIZE {
        return 0;
      }
      var consumed;
      r, consumed := CompressGeneric([], input, dst, dstCapacity, output, t, NoDict, dictSmall, acceleration);
      assert r > 0 ==> input[..consumed] == input;
    }

    /** LZ4_compress_fast_extState_fastReset: the state, with whatever earlier calls left in its table,
        is used again without clearing it when that is safe. */
    method CompressFastReset(input: seq<byte>, dst: array<byte>, dstCapacity: int, acceleration: int) returns (r: nat)
      requires Valid() && dstCapacity <= dst.Length
      modifies this, hashTable, dst
      ensures Valid() && r <= (if dstCapacity < 0 then 0 else dstCapacity)
      ensures r > 0 ==> Encodes(dst[..r], [], input)
      ensures |input| <= MAX_INPUT_SIZE && dstCapacity >= CompressBound(|input|) ==> r > 0
    {
      hide TableInv, Encodes;
      PrepareTable(|input|, TypeFor(|input|));
      r := CompressNoDict(input, dst, dstCapacity, Clamp(acceleration));
    }

    /** LZ4_resetStream_fast */
    method ResetFast()
      requires Valid()
      modifies this, hashTable
      ensures Valid() && dictSize == 0 && (tableType == Cleared || tableType == Stored(ByU32))
    {
      PrepareTable(0, ByU32);
    }

    /** LZ4_compress_destSize_extState_internal: as much of the input as fits the target. */
    method CompressDestSize(input: seq<byte>, dst: array<byte>, targetDstSize: int, acceleration: int)
      returns (r: nat, consumed: nat)
      requires hashTable.Length == TABLE_SIZE && targetDstSize <= dst.Length && 1 <= acceleration
      modifies this, hashTable, dst
      ensures r <= (if targetDstSize < 0 then 0 else targetDstSize) && consumed <= |input|
      ensures r > 0 ==> Encodes(dst[..r], [], input[..consumed])
      ensures |input| <= MAX_INPUT_SIZE && targetDstSize >= 1 ==> r > 0
      ensures |input| <= MAX_INPUT_SIZE && targetDstSize >= CompressBound(|input|) ==> consumed == |input|
    {
      hide TableInv, Encodes;
      ClearTable();
      currentOffset, tableType, dictionary, dictSize := 0, Cleared, NULL, 0;
      if targetDstSize >= CompressBound(|input|) {
        r := CompressFastExtState(input, dst, targetDstSize, acceleration);
        assert input[..|input|] == input;
        return r, |input|;
      }
      var t := TypeFor(|input|);
      if |input| <= MAX_INPUT_SIZE {
        Admissible(Call([], input, 0, t, NoDict, false, FillOutput, targetDstSize, acceleration), hashTable[..]);
      }
      r, consumed := CompressGeneric([], input, dst, targetDstSize, FillOutput, t, NoDict, false, acceleration);
    }

    // ----- streaming -----

    /** LZ4_renormDictT: the indexes are moved down when the next block would push them past 2 GB.
        Entries in the window keep their distance, the others become 0, 64 KB back and out of reach. */
    method Renorm(nextSize: nat)
      requires Valid() && nextSize <= 0x7FFF_FFFF
      modifies this, hashTable
      ensures Valid() && tableType == old(tableType)
      ensures old(currentOffset) + nextSize <= 0x8000_0000 ==>
                hashTable[..] == old(hashTable[..]) && currentOffset == old(currentOffset) &&
                dictionary == old(dictionary) && dictSize == old(dictSize)
      ensures old(currentOffset) + nextSize > 0x8000_0000 ==>
                currentOffset == KB64 && dictSize == (if old(dictSize) > KB64 then KB64 else old(dictSize)) &&
                dictionary + dictSize == old(dictionary + dictSize)
      ensures old(currentOffset) + nextSize > 0x8000_0000 ==> forall i :: 0 <= i < TABLE_SIZE ==>
                if KB64 <= old(currentOffset) <= old(hashTable[i]) + KB64
                then currentOffset - hashTable[i] == old(currentOffset) - old(hashTable[i])
                else hashTable[i] + DISTANCE_MAX < currentOffset
      ensures currentOffset + (if nextSize <= MAX_INPUT_SIZE then nextSize else 0) <= 0x8000_0000
    {
      if currentOffset + nextSize > 0x8000_0000 {
        var delta := (currentOffset - KB64) % 0x1_0000_0000;
        var dictEnd := dictionary + dictSize;
        ghost var before := hashTable[..];
        for i := 0 to TABLE_SIZE
          modifies hashTable
          invariant forall j :: 0 <= j < i ==> hashTable[j] == Rescaled(before[j], delta)
          invariant forall j :: i <= j < TABLE_SIZE ==> hashTable[j] == before[j]
        {
          hashTable[i] := if hashTable[i] < delta then 0 else hashTable[i] - delta;
        }
        currentOffset := KB64;
        if dictSize > KB64 {
          dictSize := KB64;
        }
        dictionary := dictEnd - dictSize;
      }
    }

    /** Where the dictionary has to lie in the caller's memory. */
    predicate InMemory(mem: seq<byte>)
      reads this
    {
      dictSize == 0 || 0 <= dictionary <= dictionary + dictSize <= |mem|
    }

    /** LZ4_compress_fast_continue: the next block is mem[source..source + size]. `hist` is the history
        the block refers to, the newest bytes of what the previous call left. An input that is too
        large is refused, and the state is then unusable: its size has become the dictionary size. */
    method CompressFastContinue(mem: seq<byte>, source: nat, size: nat, dst: array<byte>, maxOutputSize: int,
                                acceleration: int) returns (r: nat, ghost hist: seq<byte>)
      requires Valid() && InMemory(mem) && tableType != Stored(ByU16)
      requires source + size <= |mem| && size <= 0x7FFF_FFFF && maxOutputSize <= dst.Length
      modifies this, hashTable, dst
      ensures size <= MAX_INPUT_SIZE ==> Valid() && InMemory(mem) && tableType != Stored(ByU16)
      ensures size > MAX_INPUT_SIZE ==> r == 0
      ensures |hist| <= |old(History(mem))| && hist == old(History(mem))[|old(History(mem))| - |hist|..]
      ensures r <= (if maxOutputSize < 0 then 0 else maxOutputSize)
      ensures r > 0 ==> Encodes(dst[..r], hist, mem[source..source + size])
      ensures size <= MAX_INPUT_SIZE && maxOutputSize >= CompressBound(size) ==> r > 0
      ensures old(dictionary + dictSize) == source && old(dictSize) != 0 ==>
                |hist| == |old(History(mem))| || |hist| == KB64
      ensures size <= MAX_INPUT_SIZE ==> dictSize == 0 || dictionary + dictSize == source + size
      ensures 0 < size <= MAX_INPUT_SIZE ==> dictSize >= size
    {
      hide TableInv, Encodes, EntryOk, CompressBound;
      var dictEnd := if dictSize != 0 then dictionary + dictSize else NULL;
      ghost var before := History(mem);
      Renorm(size);
      dictEnd := DropUnusable(source, size, dictEnd);
      hist := History(mem);
      assert hist == before[|before| - |hist|..];
      r := CompressBlock(mem, source, size, dst, maxOutputSize, Clamp(acceleration), dictEnd);
    }

    /** The block itself: in prefix mode when the input follows the dictionary, otherwise with an
        external dictionary, which the input then replaces. */
    method CompressBlock(mem: seq<byte>, source: nat, size: nat, dst: array<byte>, maxOutputSize: int,
                         acceleration: nat, dictEnd: int) returns (r: nat)
      requires Valid() && InMemory(mem) && tableType != Stored(ByU16) && 1 <= acceleration
      requires source + size <= |mem| && maxOutputSize <= dst.Length
      requires size <= MAX_INPUT_SIZE ==> currentOffset + size <= 0x8000_0000
      requires dictEnd == source ==> dictionary + dictSize == source
      requires dictEnd != source && size > 0 ==> dictSize == 0 || MINMATCH <= dictSize
      modifies this, hashTable, dst
      ensures size <= MAX_INPUT_SIZE ==> Valid() && InMemory(mem) && tableType != Stored(ByU16)
      ensures size > MAX_INPUT_SIZE ==> r == 0
      ensures r <= (if maxOutputSize < 0 then 0 else maxOutputSize)
      ensures r > 0 ==> Encodes(dst[..r], old(History(mem)), mem[source..source + size])
      ensures size <= MAX_INPUT_SIZE && maxOutputSize >= CompressBound(size) ==> r > 0
      ensures size <= MAX_INPUT_SIZE ==> dictSize == 0 || dictionary + dictSize == source + size
      ensures 0 < size <= MAX_INPUT_SIZE ==> dictSize >= size
    {
      hide TableInv, Encodes;
      var hist, input := History(mem), mem[source..source + size];
      var dictSmall := dictSize < KB64 && dictSize < currentOffset;
      var dict := if dictEnd == source then WithPrefix64k else UsingExtDict;
      if 0 < size <= MAX_INPUT_SIZE {
        Admissible(Call(hist, input, currentOffset, ByU32, dict, dictSmall, LimitedOutput, maxOutputSize, acceleration),
                   hashTable[..]);
      }
      var consumed;
      r, consumed :=
          CompressGeneric(hist, input, dst, maxOutputSize, LimitedOutput, ByU32, dict, dictSmall, acceleration);
      assert r > 0 ==> input[..consumed] == input;
      if dict == UsingExtDict {
        dictionary, dictSize := source, size;
      }
    }

    /** Tiny dictionaries are dropped, and what the new input overwrites of a dictionary. */
    method DropUnusable(source: nat, size: nat, dictEnd0: int) returns (dictEnd: int)
      requires Valid() && dictEnd0 == (if dictSize != 0 then dictionary + dictSize else NULL)
      modifies this
      ensures Valid() && currentOffset == old(currentOffset) && tableType == old(tableType)
      ensures dictSize <= old(dictSize)
              && (dictSize != 0 ==> dictionary + dictSize == old(dictionary + dictSize) == dictEnd)
      ensures dictEnd == source ==> dictionary + dictSize == source
      ensures dictEnd0 == source ==> dictSize == old(dictSize)
      ensures dictEnd != source && size > 0 ==> dictSize == 0 || MINMATCH <= dictSize
    {
      dictEnd := dictEnd0;
      if dictSize < 4 && dictEnd != source && size > 0 {
        dictSize, dictionary, dictEnd := 0, source, source;
      }
      var sourceEnd := source + size;
      if sourceEnd > dictionary && sourceEnd < dictEnd {
        dictSize := dictEnd - sourceEnd;
        if dictSize > KB64 {
          dictSize := KB64;
        }
        if dictSize < 4 {
          dictSize := 0;
        }
        dictionary := dictEnd - dictSize;
      }
    }
  }

  function Rescaled(e: nat, delta: nat): nat {
    if e < delta then 0 else e - delta
  }

  function Call(hist: seq<byte>, input: seq<byte>, start: nat, t: TableType, dict: DictDirective, dictSmall: bool,
                output: Output, dstCapacity: int, acceleration: nat): Params
  {
    Params(hist + input, |hist|, start, t, dict, dictSmall, output, if dstCapacity < 0 then 0 else dstCapacity,
           acceleration)
  }

  /** The block conforms, and behind `hist` it decodes to `input`. */
  ghost predicate Encodes(block: seq<byte>, hist: seq<byte>, input: seq<byte>) {
    Meaning(block, hist) == Done(hist + input) && ConformingBlock(block, hist, |input|)
  }

  lemma EmptyBlock(block: seq<byte>, hist: seq<byte>, input: seq<byte>)
    requires block == [0] && input == []
    ensures Encodes(block, hist, input)
  {
    hide Decode, Conforming;
    EmptyOutput(block, hist);
    assert Parse(block, 0) == Last([]) by { assert block[1..] == []; }
    LastDecodes(block, 0, hist, []);
    assert hist + [] == hist && hist + input == hist;
  }

  lemma CallWritten(p: Params, hist: seq<byte>, input: seq<byte>, block: seq<byte>, consumed: nat, r: nat)
    requires p.text == hist + input && p.h == |hist| && consumed <= |input|
    requires r > 0 ==> Written(p, block, consumed)
    ensures r > 0 ==> Encodes(block, hist, input[..consumed])
  {
    hide Decode, Conforming;
    assert p.Hist() == hist;
    assert p.text[..p.h + consumed] == hist + input[..consumed];
  }

  lemma EntriesAfter(p: Params, table: seq<nat>)
    requires p.Valid() && TableInv(p, table, |p.text|)
    ensures forall i :: 0 <= i < TABLE_SIZE ==> EntryOk(table[i], p.start + p.Size())
  {
    hide HashPosition;
  }

  /** Entries with eight bytes behind them suit a call that tells the usable ones from the others. */
  lemma Admissible(p: Params, table: seq<nat>)
    requires p.Valid() && |table| == TABLE_SIZE && p.h <= p.start
    requires forall i :: 0 <= i < TABLE_SIZE ==> EntryOk(table[i], p.start)
    requires p.dictSmall || forall i :: 0 <= i < TABLE_SIZE ==>
               table[i] + p.h >= p.start || (p.tableType == ByU32 && table[i] + DISTANCE_MAX < p.start)
    requires p.dict == UsingExtDict ==> p.h == 0 || MINMATCH <= p.h
    ensures TableInv(p, table, p.h + 1)
  {
    hide HashPosition;
  }
}
