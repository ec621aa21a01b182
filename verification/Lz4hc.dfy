/** The HC entry points: level table, choice of the parser, one-shot compression, reuse of a state, and
    streams of contiguous blocks. */
module Lz4hc {
  import opened Lz4Format
  import opened Lz4Copy
  import opened Lz4Compressor
  import opened Lz4Stream
  import opened Lz4hcSearch
  import opened Lz4hcLazy
  import opened Lz4hcMid
  import opened Lz4hcOptimal

  datatype Strategy = Mid | Chain | Optimal
  datatype Level = Level(strat: Strategy, nbSearches: nat, targetLength: nat)

  const CLEVEL_DEFAULT := 9
  const CLEVEL_MAX := 12

  /** LZ4_setCompressionLevel: the level that is stored. */
  function Clamped(cLevel: int): (r: int)
    ensures 1 <= r <= CLEVEL_MAX
  {
    if cLevel < 1 then CLEVEL_DEFAULT else if cLevel > CLEVEL_MAX then CLEVEL_MAX else cLevel
  }

  /** LZ4HC_getCLevelParams with k_clTable. */
  function LevelParams(cLevel0: int): Level {
    var cLevel := Clamped(cLevel0);
    if cLevel <= 2 then Level(Mid, 2, 16)
    else if cLevel == 3 then Level(Chain, 4, 16)
    else if cLevel == 4 then Level(Chain, 8, 16)
    else if cLevel == 5 then Level(Chain, 16, 16)
    else if cLevel == 6 then Level(Chain, 32, 16)
    else if cLevel == 7 then Level(Chain, 64, 16)
    else if cLevel == 8 then Level(Chain, 128, 16)
    else if cLevel == 9 then Level(Chain, 256, 16)
    else if cLevel == 10 then Level(Optimal, 96, 64)
    else if cLevel == 11 then Level(Optimal, 512, 128)
    else Level(Optimal, 16384, OPT_NUM)
  }

  /** The tables serve the parser of the level for whatever follows the text. */
  ghost predicate Ready(hc: HashChain, t: seq<byte>, cLevel: int)
    reads hc, hc.hashTable, hc.chainTable
  {
    65536 <= hc.base && if LevelParams(cLevel).strat == Mid then hc.Below(hc.base + |t|) else hc.Valid(t)
  }

  /** Tables that serve a text serve what continues it. */
  lemma ReadyOn(hc: HashChain, t: seq<byte>, t2: seq<byte>, cLevel: int)
    requires Ready(hc, t, cLevel) && t <= t2 && hc.base + |t2| < 0xFFFF_0000
    ensures LevelParams(cLevel).strat == Mid ==> hc.Below(hc.base + |t|)
    ensures LevelParams(cLevel).strat != Mid ==> hc.Valid(t2) && hc.nextToUpdate <= hc.base + |t|
  {
    hide TablesOk;
    if LevelParams(cLevel).strat != Mid {
      TablesPrefix(t, t2, hc.base, hc.hashTable[..], hc.chainTable[..], hc.nextToUpdate - hc.base);
      TableSizes(t, hc.base, hc.hashTable[..], hc.chainTable[..], hc.nextToUpdate - hc.base);
    }
  }

  lemma SameLevel(hc: HashChain, t: seq<byte>, a: int, b: int)
    requires LevelParams(a) == LevelParams(b) && Ready(hc, t, a)
    ensures Ready(hc, t, b)
  {
    hide LevelParams, HashChain.Below, HashChain.Valid;
  }

  lemma Slices(mem: seq<byte>, start: nat, mid: nat, end: nat, n: nat)
    requires start <= mid <= end <= |mem| && mid + n <= end
    ensures mem[start..mid] + mem[mid..end] == mem[start..end]
    ensures mem[mid..end][..n] == mem[mid..mid + n]
  {
  }

  /** Whatever the tables served, they hold nothing beyond it. */
  lemma ReadyBelow(hc: HashChain, t: seq<byte>, cLevel: int)
    requires Ready(hc, t, cLevel)
    ensures hc.Below(hc.base + |t|)
  {
    hide TablesOk, EntriesBelow;
    if LevelParams(cLevel).strat != Mid {
      ValidBelow(t, hc.base, hc.hashTable[..], hc.chainTable[..], hc.nextToUpdate - hc.base);
      TableSizes(t, hc.base, hc.hashTable[..], hc.chainTable[..], hc.nextToUpdate - hc.base);
      HigherBound(hc, hc.nextToUpdate, hc.base + |t|);
    }
  }

  /** The parser of the level, on input behind `hist`. */
  method CompressAtLevel(hc: HashChain, hist: seq<byte>, input: seq<byte>, dst: array<byte>, dstCapacity: int,
                         cLevel: int,
               output: Output, favorDecSpeed: bool) returns (r: nat, consumed: nat)
    requires |input| <= MAX_INPUT_SIZE && (output != NotLimited ==> dstCapacity <= dst.Length)
    requires output == NotLimited ==> |input| + |input| / 255 + 16 <= dst.Length
    requires output == FillOutput ==> 1 <= dstCapacity
    requires Ready(hc, hist, cLevel) && hc.base + |hist + input| < 0xFFFF_0000
    modifies hc`nextToUpdate, hc.hashTable, hc.chainTable, dst
    ensures output != NotLimited ==> r <= (if dstCapacity < 0 then 0 else dstCapacity)
    ensures output == NotLimited ==> r <= |input| + |input| / 255 + 16
    ensures consumed <= |input| && (r > 0 && output != FillOutput ==> consumed == |input|)
    ensures r > 0 ==> Encodes(dst[..r], hist, input[..consumed])
    ensures r == 0 ==> output == LimitedOutput && dstCapacity < CompressBound(|input|)
    ensures Ready(hc, hist + input, cLevel)
  {
    hide Encodes, HashChain.Valid, HashChain.Below, Written;
    var p := Call(hist, input, 0, ByU32, WithPrefix64k, false, output, dstCapacity, 1);
    var level := LevelParams(cLevel);
    ReadyOn(hc, hist, p.text, cLevel);
    match level.strat {
      case Mid =>
        r, consumed := CompressMid(p, hc, dst);
      case Chain =>
        r, consumed := CompressHashChain(p, hc, dst, level.nbSearches);
      case Optimal =>
        var t := Settings(level.nbSearches, level.targetLength, cLevel >= CLEVEL_MAX, favorDecSpeed);
        r, consumed := CompressOptimal(p, hc, dst, t);
    }
    CallWritten(p, hist, input, dst[..r], consumed, r);
  }

  /** LZ4_streamHC_t without dictionary contexts: the tables, the prefix in memory, and the settings. The
      prefix has the index `hc.base`. The ghost field is what the prefix holds. */
  class StreamHc {
    const hc: HashChain
    var prefixStart: int
    var end: int
    var compressionLevel: int
    var favorDecSpeed: bool
    var dirty: bool
    ghost var text: seq<byte>

    ghost predicate Valid()
      reads this, hc, hc.hashTable, hc.chainTable
    {
      && hc.base + |text| < 0xFFFF_0000
      && (prefixStart == NULL ==> end == NULL && text == [] && hc.Below(hc.base + 1))
      && (prefixStart != NULL ==> 0 <= prefixStart && end == prefixStart + |text| && Ready(hc, text, compressionLevel))
    }

    /** The prefix is still what it was. */
    ghost predicate InMemory(mem: seq<byte>)
      reads this
    {
      prefixStart != NULL ==> 0 <= prefixStart <= end <= |mem| && mem[prefixStart..end] == text
    }

    /** LZ4_createStreamHC */
    constructor ()
      ensures Valid() && fresh(hc) && fresh(hc.hashTable) && fresh(hc.chainTable)
      ensures prefixStart == NULL && compressionLevel == CLEVEL_DEFAULT && !dirty
    {
      hc := new HashChain();
      prefixStart, end, compressionLevel, favorDecSpeed, dirty, text := NULL, NULL, CLEVEL_DEFAULT, false, false, [];
    }

    /** LZ4_initStreamHC */
    method InitStream()
      requires hc.Below(0x1_0000_0000)
      modifies this, hc, hc.hashTable, hc.chainTable
      ensures Valid() && prefixStart == NULL && compressionLevel == CLEVEL_DEFAULT && !favorDecSpeed && !dirty
              && hc.base == 0
    {
      hc.Zero();
      prefixStart, end, compressionLevel, favorDecSpeed, dirty, text := NULL, NULL, CLEVEL_DEFAULT, false, false, [];
    }

    /** Nothing in the tables lies beyond the index of the end. */
    lemma AllBelow(bound: nat)
      requires Valid() && hc.base + |text| < bound
      ensures hc.Below(bound)
    {
      hide HashChain.Below, Ready;
      if prefixStart == NULL {
        HigherBound(hc, hc.base + 1, bound);
      } else {
        ReadyBelow(hc, text, compressionLevel);
        HigherBound(hc, hc.base + |text|, bound);
      }
    }

    /** LZ4_resetStreamHC_fast: the indexes go on behind those of the last input, unless the last call failed. */
    method ResetFast(cLevel: int)
      requires Valid()
      modifies this, hc, hc.hashTable, hc.chainTable
      ensures Valid() && prefixStart == NULL && compressionLevel == Clamped(cLevel) && !dirty
    {
      hide HashChain.Below, Ready;
      if dirty {
        AllBelow(0x1_0000_0000);
        InitStream();
      } else {
        AllBelow(hc.base + |text| + 1);
        NewBase(hc.base + (end - prefixStart));
        prefixStart, end, text := NULL, NULL, [];
      }
      compressionLevel := Clamped(cLevel);
    }

    method NewBase(base: nat)
      modifies hc`base
      ensures hc.base == base
    {
      hc.base := base;
    }

    /** LZ4HC_init_internal: a prefix begins at `start`. */
    method InitInternal(start: nat)
      requires Valid()
      modifies this`prefixStart, this`end, this`text, hc, hc.hashTable, hc.chainTable
      ensures prefixStart == end == start && text == [] && hc.base <= 0x4001_0000 && hc.Below(hc.base)
              && hc.nextToUpdate == hc.base
      ensures forall cLevel :: Ready(hc, [], cLevel)
    {
      hide HashChain.Below, HashChain.Valid;
      AllBelow(hc.base + |text| + 1);
      hc.Init(end - prefixStart);
      prefixStart, end, text := start, start, [];
    }

    /** LZ4HC_compress_generic_internal for input right behind the prefix, which it joins. After a failure
        the state is dirty. */
    method CompressGeneric(mem: seq<byte>, source: nat, size: nat, dst: array<byte>, dstCapacity: int, cLevel: int,
                           output: Output)
      returns (r: nat, consumed: nat)
      requires Valid() && prefixStart != NULL && end == source && source + size <= |mem| && InMemory(mem)
      requires hc.base + |text| <= 0x8000_0000 && LevelParams(cLevel) == LevelParams(compressionLevel)
      requires output != NotLimited ==> dstCapacity <= dst.Length
      requires output == NotLimited && size <= MAX_INPUT_SIZE ==> size + size / 255 + 16 <= dst.Length
      modifies this`end, this`dirty, this`text, hc`nextToUpdate, hc.hashTable, hc.chainTable, dst
      ensures Valid() && InMemory(mem) && prefixStart != NULL
      ensures var refused := size > MAX_INPUT_SIZE || (output == FillOutput && dstCapacity < 1);
              && end == (if refused then source else source + size)
              && text == old(text) + (if refused then [] else mem[source..source + size])
              && (dirty <==> old(dirty) || (!refused && r == 0)) && (refused ==> r == 0)
      ensures output != NotLimited ==> r <= (if dstCapacity < 0 then 0 else dstCapacity)
      ensures output == NotLimited ==> r <= size + size / 255 + 16
      ensures consumed <= size && (r > 0 && output != FillOutput ==> consumed == size)
      ensures r > 0 ==> Encodes(dst[..r], old(text), mem[source..source + consumed])
      ensures r == 0 && size <= MAX_INPUT_SIZE ==> output != NotLimited && dstCapacity < CompressBound(size)
      ensures r == 0 && size <= MAX_INPUT_SIZE && output == FillOutput ==> dstCapacity < 1
    {
      hide Encodes, Ready, LevelParams;
      if output == FillOutput && dstCapacity < 1 {
        return 0, 0;
      }
      if size > MAX_INPUT_SIZE {
        return 0, 0;
      }
      var hist := mem[prefixStart..end];
      end := end + size;
      SameLevel(hc, hist, compressionLevel, cLevel);
      text := hist + mem[source..source + size];
      r, consumed :=
          CompressAtLevel(hc, hist, mem[source..source + size], dst, dstCapacity, cLevel, output, favorDecSpeed);
      SameLevel(hc, text, cLevel, compressionLevel);
      Slices(mem, prefixStart, source, source + size, consumed);
      if r == 0 {
        dirty := true;
      }
    }

    /** LZ4_compress_HC_extStateHC_fastReset: the state is used again, without any trace of earlier inputs. */
    method CompressFastReset(mem: seq<byte>, source: nat, size: nat, dst: array<byte>, dstCapacity: int, cLevel: int)
      returns (r: nat)
      requires Valid() && source + size <= |mem| && dstCapacity <= dst.Length
      modifies this, hc, hc.hashTable, hc.chainTable, dst
      ensures Valid() && r <= (if dstCapacity < 0 then 0 else dstCapacity)
      ensures r > 0 ==> Encodes(dst[..r], [], mem[source..source + size])
      ensures size <= MAX_INPUT_SIZE && CompressBound(size) <= dstCapacity ==> r > 0
      ensures dirty ==> r == 0 && size <= MAX_INPUT_SIZE
    {
      hide Encodes, Ready, LevelParams;
      ResetFast(cLevel);
      InitInternal(source);
      SameParams(cLevel);
      var consumed;
      r, consumed := CompressGeneric(mem, source, size, dst, dstCapacity, cLevel,
                                     if dstCapacity < CompressBound(size) then LimitedOutput else NotLimited);
    }

    /** LZ4_compress_HC_extStateHC, and with it LZ4_compress_HC. */
    method CompressExtState(mem: seq<byte>, source: nat, size: nat, dst: array<byte>, dstCapacity: int, cLevel: int)
      returns (r: nat)
      requires Valid() && source + size <= |mem| && dstCapacity <= dst.Length
      modifies this, hc, hc.hashTable, hc.chainTable, dst
      ensures Valid() && r <= (if dstCapacity < 0 then 0 else dstCapacity)
      ensures r > 0 ==> Encodes(dst[..r], [], mem[source..source + size])
      ensures size <= MAX_INPUT_SIZE && CompressBound(size) <= dstCapacity ==> r > 0
    {
      hide Encodes, Ready, CompressBound, HashChain.Below;
      AllBelow(0x1_0000_0000);
      InitStream();
      r := CompressFastReset(mem, source, size, dst, dstCapacity, cLevel);
    }

    /** LZ4_compress_HC_destSize */
    method CompressDestSize(mem: seq<byte>, source: nat, size: nat, dst: array<byte>, target: int, cLevel: int)
      returns (r: nat, consumed: nat)
      requires Valid() && source + size <= |mem| && target <= dst.Length
      modifies this, hc, hc.hashTable, hc.chainTable, dst
      ensures Valid() && r <= (if target < 0 then 0 else target) && consumed <= size
      ensures r > 0 ==> Encodes(dst[..r], [], mem[source..source + consumed])
      ensures r > 0 <==> size <= MAX_INPUT_SIZE && 1 <= target
    {
      hide Encodes, Ready, LevelParams, HashChain.Below;
      AllBelow(0x1_0000_0000);
      InitStream();
      InitInternal(source);
      compressionLevel := Clamped(cLevel);
      SameParams(cLevel);
      r, consumed := CompressGeneric(mem, source, size, dst, target, cLevel, FillOutput);
    }

    /** LZ4_loadDictHC: the last 64 KB of the dictionary become the prefix, and enter the tables. */
    method LoadDict(mem: seq<byte>, dictionary: nat, dictSize: nat) returns (n: nat)
      requires Valid() && dictionary + dictSize <= |mem|
      modifies this, hc, hc.hashTable, hc.chainTable
      ensures Valid() && InMemory(mem) && prefixStart != NULL && hc.base + |text| <= 0x8000_0000
      ensures compressionLevel == Clamped(old(compressionLevel)) && end == dictionary + dictSize
      ensures n == (if dictSize > KB64 then KB64 else dictSize) && text == mem[end - n..end]
    {
      hide HashChain.Below, HashChain.Valid, LevelParams;
      var start := dictionary;
      n := dictSize;
      if n > KB64 {
        start, n := start + (n - KB64), KB64;
      }
      var cLevel := compressionLevel;
      AllBelow(0x1_0000_0000);
      InitStream();
      compressionLevel := Clamped(cLevel);
      InitInternal(start);
      end, text := start + n, mem[start..start + n];
      ReadyOn(hc, [], text, compressionLevel);
      if LevelParams(compressionLevel).strat == Mid {
        FillHTable(hc, mem[start..start + n]);
      } else if n >= 4 {
        hc.Insert(mem[start..start + n], n - 3);
      }
    }

    /** LZ4_compress_HC_continue for a block right behind the previous one. `hist` is the history it refers to:
        all of the prefix, or its last 64 KB when the indexes had passed 2 GB. */
    method Continue(mem: seq<byte>, source: nat, size: nat, dst: array<byte>, dstCapacity: int)
      returns (r: nat, ghost hist: seq<byte>)
      requires Valid() && InMemory(mem) && (prefixStart == NULL || end == source)
      requires source + size <= |mem| && dstCapacity <= dst.Length
      modifies this, hc, hc.hashTable, hc.chainTable, dst
      ensures Valid() && InMemory(mem) && prefixStart != NULL && (size <= MAX_INPUT_SIZE ==> end == source + size)
      ensures |hist| <= |old(text)| && hist == old(text)[|old(text)| - |hist|..]
      ensures |hist| == |old(text)| || |hist| == KB64
      ensures r <= (if dstCapacity < 0 then 0 else dstCapacity)
      ensures r > 0 ==> Encodes(dst[..r], hist, mem[source..source + size])
      ensures size <= MAX_INPUT_SIZE && CompressBound(size) <= dstCapacity ==> r > 0
    {
      hide Encodes, Ready, LevelParams;
      if prefixStart == NULL {
        InitInternal(source);
      }
      if hc.base + (end - prefixStart) > 0x8000_0000 {
        var dictSize := end - prefixStart;
        if dictSize > KB64 {
          dictSize := KB64;
        }
        var n := LoadDict(mem, end - dictSize, dictSize);
      }
      hist := text;
      var consumed;
      r, consumed := CompressGeneric(mem, source, size, dst, dstCapacity, compressionLevel,
                                     if dstCapacity < CompressBound(size) then LimitedOutput else NotLimited);
    }

    lemma SameParams(cLevel: int)
      ensures LevelParams(Clamped(cLevel)) == LevelParams(cLevel)
    {
    }
  }
}
