/** The overshooting copies of the optimised decoder, each proved to write, between its start and
    its nominal end, what a forward one-byte-at-a-time copy writes, and to overshoot no further
    than it says. */
module Lz4Copy {
  import opened Lz4Format

  /** From position `from` up to `hi`, every byte repeats the one `off` places before it. */
  ghost predicate Repeats(a: seq<byte>, from: nat, hi: nat, off: nat) {
    off <= from && hi <= |a| && forall k :: from <= k < hi ==> a[k] == a[k - off]
  }

  lemma {:induction false} Chain(a: seq<byte>, from: nat, hi: nat, off: nat, j: nat, n: nat)
    requires off >= 1 && Repeats(a, from, hi, off) && from <= j + off && j + n * off < hi
    ensures j + n * off < |a| && a[j + n * off] == a[j]
    decreases n
  {
    if n > 0 {
      assert n * off == (n - 1) * off + off;
      Chain(a, from, hi, off, j, n - 1);
    }
  }

  /** Copying from a multiple of the offset behind continues the repetition: this is what makes the
      table-driven start and the 8-, 16- and 32-byte strides equal to a bytewise overlapping copy. */
  lemma {:induction false} Extend(a: seq<byte>, from: nat, mid: nat, hi: nat, off: nat, times: nat)
    requires off >= 1 && times >= 1 && mid <= hi <= |a|
    requires Repeats(a, from, mid, off) && from <= mid + off - times * off
    requires 0 <= mid - times * off
    requires forall k :: mid <= k < hi ==> a[k] == a[k - times * off]
    ensures Repeats(a, from, hi, off)
    decreases hi
  {
    if mid < hi {
      Extend(a, from, mid, hi - 1, off, times);
      var k := hi - 1;
      assert times * off == (times - 1) * off + off;
      Chain(a, from, k, off, k - times * off, times - 1);
    }
  }

  /** memcpy inside one buffer: the two ranges may not overlap. */
  method MemCpy(mem: array<byte>, d: nat, s: nat, n: nat)
    requires d + n <= mem.Length && s + n <= mem.Length
    requires s + n <= d || d + n <= s
    modifies mem
    ensures forall k :: d <= k < d + n ==> mem[k] == old(mem[k - d + s])
    ensures forall k :: 0 <= k < d || d + n <= k < mem.Length ==> mem[k] == old(mem[k])
  {
    forall k | 0 <= k < n {
      mem[d + k] := mem[s + k];
    }
  }

  /** memcpy or memmove from a read-only buffer. */
  method MemCpyFrom(dst: array<byte>, d: nat, src: seq<byte>, s: nat, n: nat)
    requires d + n <= dst.Length && s + n <= |src|
    modifies dst
    ensures forall k :: d <= k < d + n ==> dst[k] == src[k - d + s]
    ensures forall k :: 0 <= k < d || d + n <= k < dst.Length ==> dst[k] == old(dst[k])
  {
    forall k | 0 <= k < n {
      dst[d + k] := src[s + k];
    }
  }

  /** One byte at a time, forward: an overlapping copy repeats what it has just written. */
  method CopyBytes(mem: array<byte>, dstPtr: nat, srcPtr: nat, n: nat)
    requires srcPtr <= dstPtr && dstPtr + n <= mem.Length
    modifies mem
    ensures srcPtr < dstPtr ==> forall k :: dstPtr <= k < dstPtr + n ==> mem[k] == mem[k - (dstPtr - srcPtr)]
    ensures forall k :: 0 <= k < dstPtr || dstPtr + n <= k < mem.Length ==> mem[k] == old(mem[k])
  {
    var d, s := dstPtr, srcPtr;
    while d < dstPtr + n
      invariant dstPtr <= d <= dstPtr + n && s - srcPtr == d - dstPtr
      invariant srcPtr < dstPtr ==> forall k :: dstPtr <= k < d ==> mem[k] == mem[k - (dstPtr - srcPtr)]
      invariant forall k :: 0 <= k < dstPtr || dstPtr + n <= k < mem.Length ==> mem[k] == old(mem[k])
    {
      mem[d] := mem[s];
      d, s := d + 1, s + 1;
    }
  }

  /** The furthest byte a copy in strides of `stride` may touch, at least one stride being copied. */
  function Reach(d: nat, e: nat, stride: nat): nat
    requires stride > 0
  {
    if e <= d then d + stride else e + stride - 1
  }

  /** LZ4_wildCopy8 on literals */
  method WildCopy8From(dst: array<byte>, dstPtr: nat, src: seq<byte>, srcPtr: nat, dstEnd: nat)
    requires Reach(dstPtr, dstEnd, 8) <= dst.Length
    requires srcPtr + Reach(dstPtr, dstEnd, 8) <= |src| + dstPtr
    modifies dst
    ensures forall k :: dstPtr <= k < dstEnd ==> dst[k] == src[k - dstPtr + srcPtr]
    ensures forall k :: 0 <= k < dstPtr || Reach(dstPtr, dstEnd, 8) <= k < dst.Length ==> dst[k] == old(dst[k])
  {
    var d, s := dstPtr, srcPtr;
    MemCpyFrom(dst, d, src, s, 8);
    d, s := d + 8, s + 8;
    while d < dstEnd
      invariant dstPtr + 8 <= d <= Reach(dstPtr, dstEnd, 8) && s - srcPtr == d - dstPtr
      invariant forall k :: dstPtr <= k < d ==> dst[k] == src[k - dstPtr + srcPtr]
      invariant forall k :: 0 <= k < dstPtr || Reach(dstPtr, dstEnd, 8) <= k < dst.Length ==> dst[k] == old(dst[k])
    {
      MemCpyFrom(dst, d, src, s, 8);
      d, s := d + 8, s + 8;
    }
  }

  /** LZ4_wildCopy32 on literals */
  method WildCopy32From(dst: array<byte>, dstPtr: nat, src: seq<byte>, srcPtr: nat, dstEnd: nat)
    requires Reach(dstPtr, dstEnd, 32) <= dst.Length
    requires srcPtr + Reach(dstPtr, dstEnd, 32) <= |src| + dstPtr
    modifies dst
    ensures forall k :: dstPtr <= k < dstEnd ==> dst[k] == src[k - dstPtr + srcPtr]
    ensures forall k :: 0 <= k < dstPtr || Reach(dstPtr, dstEnd, 32) <= k < dst.Length ==> dst[k] == old(dst[k])
  {
    var d, s := dstPtr, srcPtr;
    MemCpyFrom(dst, d, src, s, 16);
    MemCpyFrom(dst, d + 16, src, s + 16, 16);
    d, s := d + 32, s + 32;
    while d < dstEnd
      invariant dstPtr + 32 <= d <= Reach(dstPtr, dstEnd, 32) && s - srcPtr == d - dstPtr
      invariant forall k :: dstPtr <= k < d ==> dst[k] == src[k - dstPtr + srcPtr]
      invariant forall k :: 0 <= k < dstPtr || Reach(dstPtr, dstEnd, 32) <= k < dst.Length ==> dst[k] == old(dst[k])
    {
      MemCpyFrom(dst, d, src, s, 16);
      MemCpyFrom(dst, d + 16, src, s + 16, 16);
      d, s := d + 32, s + 32;
    }
  }

  /** LZ4_wildCopy8 inside the output, for distances from 8 on: each byte repeats the one
      `dstPtr - srcPtr` before it. */
  method WildCopy8(mem: array<byte>, dstPtr: nat, srcPtr: nat, dstEnd: nat)
    requires Reach(dstPtr, dstEnd, 8) <= mem.Length && srcPtr + 8 <= dstPtr
    modifies mem
    ensures forall k :: dstPtr <= k < dstEnd ==> mem[k] == mem[k - (dstPtr - srcPtr)]
    ensures forall k :: 0 <= k < dstPtr || Reach(dstPtr, dstEnd, 8) <= k < mem.Length ==> mem[k] == old(mem[k])
  {
    var d, s := dstPtr, srcPtr;
    MemCpy(mem, d, s, 8);
    d, s := d + 8, s + 8;
    while d < dstEnd
      invariant dstPtr + 8 <= d <= Reach(dstPtr, dstEnd, 8) && s - srcPtr == d - dstPtr
      invariant forall k :: dstPtr <= k < d ==> mem[k] == mem[k - (dstPtr - srcPtr)]
      invariant forall k :: 0 <= k < dstPtr || Reach(dstPtr, dstEnd, 8) <= k < mem.Length ==> mem[k] == old(mem[k])
    {
      MemCpy(mem, d, s, 8);
      d, s := d + 8, s + 8;
    }
  }

  /** LZ4_wildCopy32 inside the output: two 16-byte copies a round, for distances from 16 on. */
  method WildCopy32(mem: array<byte>, dstPtr: nat, srcPtr: nat, dstEnd: nat)
    requires Reach(dstPtr, dstEnd, 32) <= mem.Length && srcPtr + 16 <= dstPtr
    modifies mem
    ensures forall k :: dstPtr <= k < dstEnd ==> mem[k] == mem[k - (dstPtr - srcPtr)]
    ensures forall k :: 0 <= k < dstPtr || Reach(dstPtr, dstEnd, 32) <= k < mem.Length ==> mem[k] == old(mem[k])
  {
    var d, s := dstPtr, srcPtr;
    MemCpy(mem, d, s, 16);
    MemCpy(mem, d + 16, s + 16, 16);
    d, s := d + 32, s + 32;
    while d < dstEnd
      invariant dstPtr + 32 <= d <= Reach(dstPtr, dstEnd, 32) && s - srcPtr == d - dstPtr
      invariant forall k :: dstPtr <= k < d ==> mem[k] == mem[k - (dstPtr - srcPtr)]
      invariant forall k :: 0 <= k < dstPtr || Reach(dstPtr, dstEnd, 32) <= k < mem.Length ==> mem[k] == old(mem[k])
    {
      MemCpy(mem, d, s, 16);
      MemCpy(mem, d + 16, s + 16, 16);
      d, s := d + 32, s + 32;
    }
  }

  const INC32TABLE: seq<int> := [0, 1, 2, 1, 0, 4, 4, 4]
  const DEC64TABLE: seq<int> := [0, 0, 0, -1, -4, 1, 2, 3]

  method FirstFour(mem: array<byte>, op: nat, match0: nat, offset: nat)
    requires op + 4 <= mem.Length && match0 + offset == op
    modifies mem
    ensures offset >= 1 ==> forall k :: op <= k < op + 4 ==> mem[k] == mem[k - offset]
    ensures forall k :: 0 <= k < op || op + 4 <= k < mem.Length ==> mem[k] == old(mem[k])
  {
    mem[op], mem[op + 1], mem[op + 2], mem[op + 3] := 0, 0, 0, 0;
    for i := 0 to 4
      invariant offset >= 1 ==> forall k :: op <= k < op + i ==> mem[k] == mem[k - offset]
      invariant forall k :: 0 <= k < op || op + 4 <= k < mem.Length ==> mem[k] == old(mem[k])
    {
      mem[op + i] := mem[match0 + i];
    }
  }

  /** How many offsets lie between the ninth output byte and the byte it is copied from. */
  function Times(offset: nat): nat {
    if offset == 0 then 0 else if offset < 8 then [8, 4, 3, 2, 2, 2, 2][offset - 1] else 1
  }

  /** The first eight bytes of a match copy. The new source pointer lies a multiple of the offset,
      and at least 8, behind the new destination, so that 8-byte strides can follow.
      For offset 0, which no valid block has, only the frame is promised. */
  method StartMatch(mem: array<byte>, op: nat, match0: nat, offset: nat) returns (match1: nat)
    requires op + 8 <= mem.Length && match0 + offset == op
    modifies mem
    ensures match0 <= match1 <= op
    ensures offset >= 1 ==> op + 8 - match1 == Times(offset) * offset
    ensures offset >= 1 ==> forall k :: op <= k < op + 8 ==> mem[k] == mem[k - offset]
    ensures forall k :: 0 <= k < op || op + 8 <= k < mem.Length ==> mem[k] == old(mem[k])
  {
    match1 := match0;
    if offset < 8 {
      FirstFour(mem, op, match0, offset);
      match1 := match1 + INC32TABLE[offset];
      ghost var a := mem[..];
      MemCpy(mem, op + 4, match1, 4);
      if offset >= 1 {
        forall k | op + 4 <= k < op + 8 ensures mem[k] == mem[k - offset] {
          SecondFour(a, mem[..], op, offset, k);
        }
      }
      match1 := match1 - DEC64TABLE[offset];
    } else {
      MemCpy(mem, op, match1, 8);
      match1 := match1 + 8;
    }
  }

  /** LZ4_memcpy_using_offset_base */
  method CopyUsingOffsetBase(mem: array<byte>, dstPtr: nat, srcPtr: nat, dstEnd: nat, offset: nat)
    requires srcPtr + offset == dstPtr <= dstEnd && dstPtr + 16 <= mem.Length && dstEnd + 8 <= mem.Length
    modifies mem
    ensures offset >= 1 ==> Repeats(mem[..], dstPtr, dstEnd, offset)
    ensures forall k :: 0 <= k < dstPtr || (dstPtr + 16 <= k && dstEnd + 8 <= k < mem.Length) ==> mem[k] == old(mem[k])
  {
    var s := StartMatch(mem, dstPtr, srcPtr, offset);
    assert offset >= 1 ==> s + 8 <= dstPtr + 8;
    WildCopy8(mem, dstPtr + 8, s, dstEnd);
    if offset >= 1 && dstPtr + 8 <= dstEnd {
      Extend(mem[..], dstPtr, dstPtr + 8, dstEnd, offset, Times(offset));
    }
  }

  /** Eight bytes of a pattern stored at d. */
  method Store8(mem: array<byte>, d: nat, v: seq<byte>)
    requires |v| == 8 && d + 8 <= mem.Length
    modifies mem
    ensures forall k :: d <= k < d + 8 ==> mem[k] == v[k - d]
    ensures forall k :: 0 <= k < d || d + 8 <= k < mem.Length ==> mem[k] == old(mem[k])
  {
    forall i | 0 <= i < 8 {
      mem[d + i] := v[i];
    }
  }

  /** The pattern stored over and over, up to dstEnd or a little further. */
  method StorePattern(mem: array<byte>, dstPtr: nat, dstEnd: nat, v: seq<byte>)
    requires |v| == 8 && dstPtr + MINMATCH <= dstEnd && dstEnd + 12 <= mem.Length
    modifies mem
    ensures forall k :: dstPtr <= k < dstPtr + 8 ==> mem[k] == v[k - dstPtr]
    ensures forall k :: dstPtr + 8 <= k < dstEnd ==> mem[k] == mem[k - 8]
    ensures forall k :: 0 <= k < dstPtr || dstEnd + 12 <= k < mem.Length ==> mem[k] == old(mem[k])
  {
    Store8(mem, dstPtr, v);
    var d := dstPtr + 8;
    while d < dstEnd
      invariant dstPtr + 8 <= d <= dstEnd + 7
      invariant forall k :: dstPtr <= k < dstPtr + 8 ==> mem[k] == v[k - dstPtr]
      invariant forall k :: d - 8 <= k < d ==> mem[k] == v[k - (d - 8)]
      invariant forall k :: dstPtr + 8 <= k < d ==> mem[k] == mem[k - 8]
      invariant forall k :: 0 <= k < dstPtr || dstEnd + 12 <= k < mem.Length ==> mem[k] == old(mem[k])
    {
      Store8(mem, d, v);
      d := d + 8;
    }
  }

  function Pattern(m: seq<byte>): (v: seq<byte>)
    requires |m| == 1 || |m| == 2 || |m| == 4
    ensures |v| == 8
    ensures forall i :: 0 <= i < |m| ==> v[i] == m[i]
    ensures forall i :: |m| <= i < 8 ==> v[i] == v[i - |m|]
  {
    if |m| == 1 then [m[0], m[0], m[0], m[0], m[0], m[0], m[0], m[0]]
    else if |m| == 2 then m + m + (m + m)
    else m + m
  }

  /** LZ4_memcpy_using_offset: offsets 1, 2 and 4 store an 8-byte pattern over and over. */
  method CopyUsingOffset(mem: array<byte>, dstPtr: nat, srcPtr: nat, dstEnd: nat, offset: nat)
    requires srcPtr + offset == dstPtr && dstPtr + MINMATCH <= dstEnd && dstEnd + 12 <= mem.Length
    modifies mem
    ensures offset >= 1 ==> Repeats(mem[..], dstPtr, dstEnd, offset)
    ensures forall k :: 0 <= k < dstPtr || dstEnd + 12 <= k < mem.Length ==> mem[k] == old(mem[k])
  {
    if offset == 1 || offset == 2 || offset == 4 {
      hide Pattern;
      ghost var m := mem[srcPtr..dstPtr];
      var v := Pattern(mem[srcPtr..srcPtr + offset]);
      StorePattern(mem, dstPtr, dstEnd, v);
      forall k | dstPtr <= k < dstPtr + 8 ensures mem[k] == mem[k - offset] {
        if k < dstPtr + offset {
          assert mem[k - offset] == m[k - dstPtr] == v[k - dstPtr];
        }
      }
      if dstPtr + 8 <= dstEnd {
        Extend(mem[..], dstPtr, dstPtr + 8, dstEnd, offset, 8 / offset);
      }
    } else {
      CopyUsingOffsetBase(mem, dstPtr, srcPtr, dstEnd, offset);
    }
  }

  lemma SecondFour(a: seq<byte>, b: seq<byte>, op: nat, offset: nat, k: nat)
    requires 1 <= offset < 8 && offset <= op && op + 4 <= k < op + 8 <= |a| == |b|
    requires forall j :: op <= j < op + 4 ==> a[j] == a[j - offset]
    requires forall j :: 0 <= j < op + 4 ==> b[j] == a[j]
    requires forall j :: op + 4 <= j < op + 8 ==> b[j] == a[j - op - 4 + op - offset + INC32TABLE[offset]]
    ensures b[k] == b[k - offset]
  {
    var src := k - 4 - offset + INC32TABLE[offset];
    assert b[k] == a[src];
    if offset == 1 {
      assert a[op] == a[op + 1] == a[op + 2] == a[op + 3];
    }
  }
}
