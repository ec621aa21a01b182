/** The decoding entry points and the state of the streaming decoder (LZ4_decompress_safe_continue).
    Memory is one array; addresses are its indexes. */
module Lz4StreamDecoder {
  import opened Lz4Format
  import opened Lz4Decoder
  import opened Lz4Accept

  /** What a call returning `r` says about the bytes it left at mem[dest..], behind `hist`. */
  ghost predicate Decoded(src: seq<byte>, hist: seq<byte>, r: int, out: seq<byte>) {
    r >= 0 ==> r <= |out| && (Meaning(src, hist).ZeroOffset? || Meaning(src, hist) == Done(hist + out[..r]))
  }

  /** A conforming block that fits is decoded in full, unless there is no room at all: then it is refused,
      but for the byte 0. */
  ghost predicate Complete(src: seq<byte>, hist: seq<byte>, r: int, capacity: int) {
    forall n: nat :: ConformingBlock(src, hist, n) && n <= capacity ==>
        if capacity > 0 || src == [0] then r == n else r < 0
  }

  function Min(a: int, b: int): int {
    if a < b then a else b
  }

  /** LZ4_decompress_safe */
  method DecompressSafe(src: seq<byte>, mem: array<byte>, dest: nat, capacity: int) returns (r: int)
    requires dest <= mem.Length && dest + capacity <= mem.Length
    modifies mem
    ensures forall k :: 0 <= k < mem.Length && (k < dest || dest + capacity <= k) ==> mem[k] == old(mem[k])
    ensures r <= capacity || r == -1
    ensures Decoded(src, [], r, mem[dest..]) && Complete(src, [], r, capacity)
    ensures if capacity < 0 then r == -1 else Exact(src, Setting(capacity, 0, 0), r)
  {
    hide Decoded, Complete, Exact;
    r := WithHistory(src, mem, dest, capacity, NoDict, dest, [], []);
  }

  /** LZ4_decompress_safe_partial: the target is cut to the capacity, then as much as it asks for
      of a conforming block is delivered, and that is a prefix of the full decoding. */
  method DecompressSafePartial(src: seq<byte>, mem: array<byte>, dest: nat, target: int, capacity: int) returns (r: int)
    requires dest <= mem.Length && dest + capacity <= mem.Length
    modifies mem
    ensures forall k :: 0 <= k < mem.Length && (k < dest || dest + capacity <= k) ==> mem[k] == old(mem[k])
    ensures r <= Min(target, capacity) || r == -1
    ensures r >= 0 && !Meaning(src, []).ZeroOffset? ==> mem[dest..dest + r] <= Meaning(src, []).out
    ensures forall n: nat :: ConformingBlock(src, [], n) && 0 <= target && 0 <= capacity ==>
              r == Min(n, Min(target, capacity)) && Meaning(src, []).Done? && |Meaning(src, []).out| == n
  {
    hide Meaning, ConformingBlock;
    r := DecompressGeneric(src, mem, dst := dest, outputSize := Min(target, capacity), partial := true, dict := NoDict,
                           lowPrefix := dest, extDict := []);
    assert [] + old(mem[dest..dest]) == [];
    if r >= 0 { assert [] + mem[dest..dest + r] == mem[dest..dest + r]; }
    forall n: nat | ConformingBlock(src, [], n) ensures Meaning(src, []).Done? && |Meaning(src, []).out| == n {
      ConformingSize(src, [], n);
    }
  }

  lemma ConformingSize(src: seq<byte>, hist: seq<byte>, n: nat)
    requires ConformingBlock(src, hist, n)
    ensures Meaning(src, hist).Done? && |Meaning(src, hist).out| == |hist| + n
  {
    hide Decode, Conforming;
    ConformingDecodes(src, 0, hist, |hist| + n);
  }

  lemma TakeDrop(m: seq<byte>, dest: nat, r: int)
    requires dest <= |m|
    ensures 0 <= r <= |m| - dest ==> m[dest..][..r] == m[dest..dest + r]
  {
  }

  /** LZ4_streamDecode_t_internal: the newest output is mem[prefixEnd - prefixSize..prefixEnd], what
      precedes it, if it is elsewhere, is mem[externalDict..externalDict + extDictSize]. */
  class StreamDecode {
    var externalDict: nat
    var extDictSize: nat
    var prefixEnd: nat
    var prefixSize: nat

    ghost predicate Valid(mem: array<byte>)
      reads this
    {
      && prefixSize <= prefixEnd <= mem.Length && externalDict + extDictSize <= mem.Length
      && (prefixSize == 0 ==> extDictSize == 0)
    }

    constructor ()
      ensures externalDict == extDictSize == prefixEnd == prefixSize == 0
    {
      externalDict, extDictSize, prefixEnd, prefixSize := 0, 0, 0, 0;
    }

    /** LZ4_setStreamDecode */
    method SetStreamDecode(dictionary: nat, dictSize: nat)
      modifies this
      ensures prefixSize == dictSize && prefixEnd == dictionary + dictSize && extDictSize == 0
      ensures forall mem: array<byte> :: dictionary + dictSize <= mem.Length ==> Valid(mem)
    {
      prefixSize, prefixEnd, externalDict, extDictSize := dictSize, dictionary + dictSize, 0, 0;
    }

    function Prefix(mem: array<byte>): seq<byte>
      requires prefixSize <= prefixEnd <= mem.Length
      reads this, mem
    {
      mem[prefixEnd - prefixSize..prefixEnd]
    }

    function ExtDict(mem: array<byte>): seq<byte>
      requires externalDict + extDictSize <= mem.Length
      reads this, mem
    {
      mem[externalDict..externalDict + extDictSize]
    }

    /** The history of a block that is decoded at `dest`: a jump leaves only the newest segment. */
    ghost function History(mem: array<byte>, dest: nat): seq<byte>
      requires Valid(mem)
      reads this, mem
    {
      if prefixEnd == dest then ExtDict(mem) + Prefix(mem) else Prefix(mem)
    }

    /** How far the history of that block reaches, and how much of it is right in front. */
    function Around(dest: nat, capacity: nat): Setting
      reads this
    {
      if prefixSize == 0 then Setting(capacity, 0, 0)
      else if prefixEnd == dest then Setting(capacity, prefixSize, prefixSize + extDictSize)
      else Setting(capacity, 0, prefixSize)
    }

    /** The part of memory the call needs beside the output is not overwritten by it. */
    ghost predicate Apart(dest: nat, capacity: int)
      reads this
    {
      if prefixSize == 0 then true
      else if prefixEnd == dest then externalDict + extDictSize <= dest || dest + capacity <= externalDict
          || extDictSize == 0
      else prefixEnd <= dest || dest + capacity <= prefixEnd - prefixSize
    }

    /** The next block lies elsewhere: what was the prefix becomes the external dictionary. */
    method Elsewhere(src: seq<byte>, mem: array<byte>, dest: nat, capacity: int) returns (r: int)
      requires Valid(mem) && dest <= mem.Length && dest + capacity <= mem.Length && Apart(dest, capacity)
      requires prefixEnd != dest && 0 < prefixSize
      modifies this, mem
      ensures Valid(mem)
      ensures forall k :: 0 <= k < mem.Length && (k < dest || dest + capacity <= k) ==> mem[k] == old(mem[k])
      ensures r <= capacity || r == -1
      ensures Decoded(src, old(Prefix(mem)), r, mem[dest..]) && Complete(src, old(Prefix(mem)), r, capacity)
      ensures if capacity < 0 then r == -1 else Exact(src, Setting(capacity, 0, old(prefixSize)), r)
      ensures prefixEnd == (if r > 0 then dest + r else old(prefixEnd))
              && prefixSize == (if r > 0 then r else old(prefixSize))
      ensures ExtDict(mem) == old(Prefix(mem))
    {
      hide Decoded, Complete, Exact, Meaning, ConformingBlock;
      extDictSize, externalDict := prefixSize, prefixEnd - prefixSize;
      var dictionary := ExtDict(mem);
      assert dictionary + mem[dest..dest] == dictionary;
      r := WithHistory(src, mem, dest, capacity, UsingExtDict, dest, dictionary, dictionary);
      assert ExtDict(mem) == dictionary;
      if r <= 0 {
        return;
      }
      prefixSize, prefixEnd := r, dest + r;
    }

    /** LZ4_decompress_safe_continue */
    method Continue(src: seq<byte>, mem: array<byte>, dest: nat, capacity: int) returns (r: int)
      requires Valid(mem) && dest <= mem.Length && dest + capacity <= mem.Length && Apart(dest, capacity)
      modifies this, mem
      ensures Valid(mem)
      ensures forall k :: 0 <= k < mem.Length && (k < dest || dest + capacity <= k) ==> mem[k] == old(mem[k])
      ensures r <= capacity || r == -1
      ensures Decoded(src, old(History(mem, dest)), r, mem[dest..])
              && Complete(src, old(History(mem, dest)), r, capacity)
      ensures if capacity < 0 then r == -1 else Exact(src, old(Around(dest, capacity)), r)
      ensures r <= 0 ==> prefixEnd == old(prefixEnd) && prefixSize == old(prefixSize)
      ensures r > 0 ==> prefixEnd == dest + r
      ensures r > 0 ==> prefixSize == r + if old(prefixEnd) == dest then old(prefixSize) else 0
      ensures old(prefixSize) == 0 || old(prefixEnd) == dest ==> extDictSize == old(extDictSize)
      ensures old(prefixSize) != 0 && old(prefixEnd) != dest ==> ExtDict(mem) == old(Prefix(mem))
    {
      hide StreamDecode.Apart;
      hide Decoded, Complete, Exact, Meaning, ConformingBlock;
      if prefixSize == 0 {
        assert History(mem, dest) == [];
        r := DecompressSafe(src, mem, dest, capacity);
        if r <= 0 {
          return;
        }
        prefixSize, prefixEnd := r, dest + r;
      } else if prefixEnd == dest {
        r := Rolling(src, mem, dest, capacity);
        if r <= 0 {
          return;
        }
        prefixSize, prefixEnd := prefixSize + r, prefixEnd + r;
      } else {
        r := Elsewhere(src, mem, dest, capacity);
      }
    }

    /** The next block directly follows the previous one. */
    method Rolling(src: seq<byte>, mem: array<byte>, dest: nat, capacity: int) returns (r: int)
      requires Valid(mem) && dest <= mem.Length && dest + capacity <= mem.Length && prefixEnd == dest && 0 < prefixSize
      modifies mem
      ensures forall k :: 0 <= k < mem.Length && (k < dest || dest + capacity <= k) ==> mem[k] == old(mem[k])
      ensures r <= capacity || r == -1
      ensures Decoded(src, old(History(mem, dest)), r, mem[dest..])
              && Complete(src, old(History(mem, dest)), r, capacity)
      ensures if capacity < 0 then r == -1 else Exact(src, Setting(capacity, prefixSize, prefixSize + extDictSize), r)
    {
      hide Decoded, Complete, Exact, Meaning, ConformingBlock;
      ghost var hist := ExtDict(mem) + Prefix(mem);
      if prefixSize >= 65535 {
        Newest(ExtDict(mem), mem[..], prefixSize, dest);
        r := WithPrefix(src, mem, dest, capacity, hist);
        if capacity >= 0 { SameVerdict(src, Setting(capacity, 65536, 65536),
                                       Setting(capacity, prefixSize, prefixSize + extDictSize), r); }
      } else if extDictSize == 0 {
        assert hist == Prefix(mem);
        r := WithHistory(src, mem, dest, capacity, NoDict, dest - prefixSize, [], hist);
      } else {
        r := WithHistory(src, mem, dest, capacity, UsingExtDict, dest - prefixSize, ExtDict(mem), hist);
      }
    }
  }

  lemma Newest(e: seq<byte>, m: seq<byte>, size: nat, dest: nat)
    requires DISTANCE_MAX <= size <= dest <= |m|
    ensures var h := e + m[dest - size..dest];
            DISTANCE_MAX <= |h| && h[|h| - DISTANCE_MAX..] == m[dest - DISTANCE_MAX..dest]
  {
  }

  /** LZ4_decompress_safe_withPrefix64k, with whatever lies further back. */
  method WithPrefix(src: seq<byte>, mem: array<byte>, dest: nat, capacity: int, ghost hist: seq<byte>) returns (r: int)
    requires DISTANCE_MAX <= dest <= mem.Length && dest + capacity <= mem.Length
    requires DISTANCE_MAX <= |hist| && hist[|hist| - DISTANCE_MAX..] == mem[dest - DISTANCE_MAX..dest]
    modifies mem
    ensures forall k :: 0 <= k < mem.Length && (k < dest || dest + capacity <= k) ==> mem[k] == old(mem[k])
    ensures r <= capacity || r == -1
    ensures Decoded(src, hist, r, mem[dest..]) && Complete(src, hist, r, capacity)
    ensures if capacity < 0 then r == -1 else Exact(src, Setting(capacity, 65536, 65536), r)
  {
    hide Decoded, Complete, Exact;
    ghost var near := mem[if dest < 65536 then 0 else dest - 65536..dest];
    assert near[|near| - DISTANCE_MAX..] == mem[dest - DISTANCE_MAX..dest];
    r := WithHistory(src, mem, dest, capacity, WithPrefix64k, dest - 65536, [], near);
    SameWindow(src, near, hist, r, mem[dest..], capacity);
  }

  /** LZ4_decompress_safe_withPrefix64k, _withSmallPrefix, _doubleDict and _forceExtDict. */
  method WithHistory(src: seq<byte>, mem: array<byte>, dest: nat, capacity: int, dict: DictDirective, lowPrefix: int,
                     extDict: seq<byte>, ghost hist: seq<byte>) returns (r: int)
    requires dest <= mem.Length && dest + capacity <= mem.Length && lowPrefix <= dest
    requires dict == WithPrefix64k ==> lowPrefix == dest - 65536 && 65535 <= dest
    requires dict != WithPrefix64k ==> 0 <= lowPrefix
    requires dict != UsingExtDict ==> extDict == []
    requires hist == extDict + mem[if lowPrefix < 0 then 0 else lowPrefix..dest]
    modifies mem
    ensures forall k :: 0 <= k < mem.Length && (k < dest || dest + capacity <= k) ==> mem[k] == old(mem[k])
    ensures r <= capacity || r == -1
    ensures Decoded(src, hist, r, mem[dest..]) && Complete(src, hist, r, capacity)
    ensures if capacity < 0 then r == -1
            else Exact(src, Setting(capacity, dest - lowPrefix, dest - lowPrefix + |extDict|), r)
  {
    hide Meaning, ConformingBlock, WalkToken;
    r := DecompressGeneric(src, mem, dest, capacity, false, dict, lowPrefix, extDict);
    TakeDrop(mem[..], dest, r);
  }

  /** History beyond 65535 bytes makes no difference. */
  lemma {:induction false} SameVerdict(src: seq<byte>, e: Setting, e2: Setting, r: int)
    requires e.room == e2.room && Exact(src, e, r)
    requires DISTANCE_MAX <= e.near && DISTANCE_MAX <= e2.near && DISTANCE_MAX <= e.far && DISTANCE_MAX <= e2.far
    ensures Exact(src, e2, r)
  {
    hide WalkToken;
    if src != [] { FarEnough(src, e, e2, 0, 0); }
  }

  /** Two histories that agree on the newest 65535 bytes are the same to a block. */
  lemma {:induction false} SameWindow(src: seq<byte>, near: seq<byte>, hist: seq<byte>, r: int, out: seq<byte>,
                                      capacity: int)
    requires DISTANCE_MAX <= |near| && DISTANCE_MAX <= |hist|
    requires near[|near| - DISTANCE_MAX..] == hist[|hist| - DISTANCE_MAX..]
    requires Decoded(src, near, r, out) && Complete(src, near, r, capacity)
    ensures Decoded(src, hist, r, out) && Complete(src, hist, r, capacity)
  {
    hide Decode, Conforming;
    var w := near[|near| - DISTANCE_MAX..];
    var a, b := near[..|near| - DISTANCE_MAX], hist[..|hist| - DISTANCE_MAX];
    assert near == a + w && hist == b + w;
    MoreHistory(src, 0, a, w);
    MoreHistory(src, 0, b, w);
    if r >= 0 && Decode(src, 0, near).Done? {
      var o := Decode(src, 0, w).out;
      assert a + o == a + (w + out[..r]);
      assert o == (a + o)[|a|..] == w + out[..r];
      assert b + o == hist + out[..r];
    }
    forall n: nat ensures ConformingBlock(src, hist, n) <==> ConformingBlock(src, near, n) {
      MoreHistoryConforms(src, 0, a, w, |w| + n);
      MoreHistoryConforms(src, 0, b, w, |w| + n);
    }
  }
}
