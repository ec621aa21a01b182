/** The HC compressor of levels 1 and 2 (LZ4MID_compress): two hash tables, of four and of seven bytes, in
    the two halves of the hash table, and one match at a time. */
module Lz4hcMid {
  import opened Lz4Format
  import opened Lz4Copy
  import opened Lz4Compressor
  import opened Lz4hcEncode
  import opened Lz4hcSearch
  import opened Lz4hcLazy

  const MID_HASHSIZE := 8
  const MID_HASHTABLESIZE := 16384

  /** LZ4MID_hash4Ptr */
  function HashMid4(t: seq<byte>, p: nat): (r: nat)
    requires p + 4 <= |t|
    ensures r < MID_HASHTABLESIZE
  {
    Little(t, p, 4) * 2654435761 % 0x1_0000_0000 / 0x4_0000
  }

  /** LZ4MID_hash8Ptr: the lower seven of eight bytes. */
  function HashMid8(t: seq<byte>, p: nat): (r: nat)
    requires p + 8 <= |t|
    ensures r < MID_HASHTABLESIZE
  {
    Little(t, p, 7) * 0x100 * 58295818150454627 % 0x1_0000_0000_0000_0000 / 0x4_0000_0000_0000
  }

  /** LZ4MID_addPosition in the table of four bytes; the index need not be that of the hashed position. */
  method AddPos4(t: seq<byte>, hc: HashChain, p: nat, index: nat, ghost bound: nat)
    requires p + 4 <= |t| && index < bound && hc.Below(bound)
    modifies hc.hashTable
    ensures hc.Below(bound)
  {
    hide HashMid4;
    hc.hashTable[HashMid4(t, p)] := index;
  }

  /** LZ4MID_addPosition in the table of seven bytes. */
  method AddPos8(t: seq<byte>, hc: HashChain, p: nat, index: nat, ghost bound: nat)
    requires p + 8 <= |t| && index < bound && hc.Below(bound)
    modifies hc.hashTable
    ensures hc.Below(bound) && hc.hashTable[..MID_HASHTABLESIZE] == old(hc.hashTable[..MID_HASHTABLESIZE])
  {
    hide HashMid8;
    hc.hashTable[MID_HASHTABLESIZE + HashMid8(t, p)] := index;
  }

  /** A match at `start`, or none. */
  datatype Mid = Miss | Hit(start: nat, len: nat, off: nat)

  ghost predicate MidMatch(p: Params, m: Mid, ip: nat) {
    m.Hit? ==> ip <= m.start <= ip + 1 && MINMATCH <= m.len && ip + 4 <= m.start + m.len
               && m.start + MFLIMIT <= |p.text| && TrueMatch(p, m.start, m.len, m.off)
  }

  /** The table entry `entry` as a candidate for ip: how far it matches, if the window and the prefix reach
      it. */
  method Candidate(p: Params, base: nat, ip: nat, entry: nat) returns (len: nat)
    requires p.h <= ip && ip + MFLIMIT <= |p.text| && entry < base + ip
    ensures len > 0 ==> base <= entry && TrueMatch(p, ip, len, base + ip - entry)
    ensures base + ip - entry <= DISTANCE_MAX && base <= entry ==>
              ip + len + LASTLITERALS == |p.text| || p.text[ip + len] != p.text[entry - base + len]
  {
    len := 0;
    if base + ip - entry <= DISTANCE_MAX && entry >= base {
      len := Count(p.text, ip, entry - base, |p.text| - LASTLITERALS);
    }
  }

  /** The search for a long match. */
  method LongMatch(p: Params, hc: HashChain, ip: nat) returns (m: Mid)
    requires p.h <= ip && ip + MFLIMIT <= |p.text| && hc.Below(hc.base + ip)
    modifies hc.hashTable
    ensures hc.Below(hc.base + ip + 1) && MidMatch(p, m, ip)
    ensures forall h :: 0 <= h < MID_HASHTABLESIZE ==> hc.hashTable[h] < hc.base + ip
  {
    hide HashMid8, TrueMatch;
    var h8 := MID_HASHTABLESIZE + HashMid8(p.text, ip);
    var pos8 := hc.hashTable[h8];
    HigherBound(hc, hc.base + ip, hc.base + ip + 1);
    ghost var lower := hc.hashTable[..MID_HASHTABLESIZE];
    AddPos8(p.text, hc, ip, hc.base + ip, hc.base + ip + 1);
    assert forall h :: 0 <= h < MID_HASHTABLESIZE ==> lower[h] < hc.base + ip;
    var len := Candidate(p, hc.base, ip, pos8);
    m := if len >= MINMATCH then Hit(ip, len, hc.base + ip - pos8) else Miss;
  }

  lemma HigherBound(hc: HashChain, bound: nat, bound2: nat)
    requires hc.Below(bound) && bound <= bound2
    ensures hc.Below(bound2)
  {
  }

  /** The search for a short match; when there is one, a longer one at the next position replaces it. */
  method ShortMatch(p: Params, hc: HashChain, ip: nat) returns (m: Mid)
    requires p.h <= ip && ip + MFLIMIT <= |p.text| && hc.Below(hc.base + ip + 1)
    requires forall h :: 0 <= h < MID_HASHTABLESIZE ==> hc.hashTable[h] < hc.base + ip
    modifies hc.hashTable
    ensures hc.Below(if m.Miss? then hc.base + ip + 1 else hc.base + ip + 2) && MidMatch(p, m, ip)
  {
    hide HashMid4, HashMid8, TrueMatch;
    var h4 := HashMid4(p.text, ip);
    var pos4 := hc.hashTable[h4];
    AddPos4(p.text, hc, ip, hc.base + ip, hc.base + ip + 1);
    var len := Candidate(p, hc.base, ip, pos4);
    if len < MINMATCH {
      return Miss;
    }
    HigherBound(hc, hc.base + ip + 1, hc.base + ip + 2);
    m := Hit(ip, len, hc.base + ip - pos4);
    var h8 := MID_HASHTABLESIZE + HashMid8(p.text, ip + 1);
    var pos8 := hc.hashTable[h8];
    if ip + MFLIMIT < |p.text| {
      var ml2 := Candidate(p, hc.base, ip + 1, pos8);
      if ml2 > len {
        AddPos8(p.text, hc, ip + 1, hc.base + ip + 1, hc.base + ip + 2);
        m := Hit(ip + 1, ml2, hc.base + ip + 1 - pos8);
      }
    }
  }

  /** One round of the search. */
  method FindMid(p: Params, hc: HashChain, ip: nat) returns (m: Mid)
    requires p.h <= ip && ip + MFLIMIT <= |p.text| && hc.Below(hc.base + ip)
    modifies hc.hashTable
    ensures hc.Below(if m.Miss? then hc.base + ip + 1 else hc.base + ip + 2) && MidMatch(p, m, ip)
  {
    hide MidMatch;
    m := LongMatch(p, hc, ip);
    if m.Miss? {
      m := ShortMatch(p, hc, ip);
    } else {
      HigherBound(hc, hc.base + ip + 1, hc.base + ip + 2);
    }
  }

  /** Widening the match backwards, at the same distance. */
  method CatchBack(p: Params, anchor: nat, m: Mid, ghost ip: nat) returns (start: nat, len: nat)
    requires m.Hit? && MidMatch(p, m, ip) && p.h <= anchor <= m.start
    ensures anchor <= start <= m.start && start + len == m.start + m.len && IsMatch(p, start, Found(m.off, len, 0))
    ensures start > anchor && start > m.off ==> p.text[start - 1] != p.text[start - m.off - 1]
  {
    start, len := m.start, m.len;
    while start > anchor && start > m.off && p.text[start - 1] == p.text[start - m.off - 1]
      invariant anchor <= start <= m.start && start + len == m.start + m.len && TrueMatch(p, start, len, m.off)
    {
      start, len := start - 1, len + 1;
    }
  }

  /** The positions at the start of a match enter the tables, under the indexes of the position where the
      search found it. */
  method FillStart(p: Params, hc: HashChain, ip: nat, start: nat, ghost bound: nat)
    requires start <= ip + 1 && start + MFLIMIT <= |p.text| && hc.Below(bound) && hc.base + ip + 2 < bound
    modifies hc.hashTable
    ensures hc.Below(bound)
  {
    hide HashChain.Below;
    AddPos8(p.text, hc, start + 1, hc.base + ip + 1, bound);
    AddPos8(p.text, hc, start + 2, hc.base + ip + 2, bound);
    AddPos4(p.text, hc, start + 1, hc.base + ip + 1, bound);
  }

  /** The last positions of a match enter the tables, when they are early enough in the input. */
  method FillEnd(p: Params, hc: HashChain, end: nat)
    requires 3 <= end && end + LASTLITERALS <= |p.text| && hc.Below(hc.base + end)
    modifies hc.hashTable
    ensures hc.Below(hc.base + end)
  {
    hide HashChain.Below;
    if end - 2 + MID_HASHSIZE < |p.text| {
      if end > 5 {
        AddPos8(p.text, hc, end - 5, hc.base + end - 5, hc.base + end);
      }
      AddPos8(p.text, hc, end - 3, hc.base + end - 3, hc.base + end);
      AddPos8(p.text, hc, end - 2, hc.base + end - 2, hc.base + end);
      AddPos4(p.text, hc, end - 2, hc.base + end - 2, hc.base + end);
      AddPos4(p.text, hc, end - 1, hc.base + end - 1, hc.base + end);
    }
  }

  /** From the label _lz4mid_encode_sequence: the match found at ip is widened and written. */
  method EncodeHit(p: Params, hc: HashChain, dst: array<byte>, op0: nat, anchor0: nat, ip: nat, m: Mid,
                   ghost qs0: seq<Sequence>, ghost lastStart0: nat)
    returns (full: bool, op: nat, anchor: nat, start: nat, f: Found, ghost qs: seq<Sequence>, ghost lastStart: nat)
    requires p.Valid() && Progress(p, dst[..], op0, anchor0, qs0, lastStart0) && p.h <= anchor0 <= ip
    requires m.Hit? && MidMatch(p, m, ip) && hc.Below(hc.base + ip + 2)
    modifies hc.hashTable, dst
    ensures forall k :: Bound(p) <= k < dst.Length ==> dst[k] == old(dst[k])
    ensures Progress(p, dst[..], op, anchor, qs, lastStart) && anchor <= |p.text|
    ensures !full ==> ip < anchor && hc.Below(hc.base + anchor)
    ensures full ==> p.output != NotLimited && anchor <= start && start + MFLIMIT <= |p.text| && IsMatch(p, start, f)
    ensures full ==> hc.Below(hc.base + |p.text|)
    ensures full && p.output == LimitedOutput ==> p.olimit < p.Size() + p.Size() / 255 + 16
  {
    hide Progress, HashChain.Below;
    var len;
    start, len := CatchBack(p, anchor0, m, ip);
    f := Found(m.off, len, 0);
    HigherBound(hc, hc.base + ip + 2, hc.base + start + len);
    FillStart(p, hc, ip, start, hc.base + start + len);
    full, op, anchor, qs, lastStart := Encode(p, dst, op0, anchor0, start, f, qs0, lastStart0);
    if !full {
      FillEnd(p, hc, anchor);
    } else {
      HigherBound(hc, hc.base + start + len, hc.base + |p.text|);
    }
  }

  /** LZ4MID_compress: the same promises as for the other parsers, whatever the tables hold. */
  method CompressMid(p: Params, hc: HashChain, dst: array<byte>) returns (r: nat, consumed: nat)
    requires p.Valid() && Bound(p) <= dst.Length && (p.output == FillOutput ==> 1 <= p.olimit)
    requires hc.Below(hc.base + p.h)
    modifies hc.hashTable, dst
    ensures forall k :: Bound(p) <= k < dst.Length ==> dst[k] == old(dst[k])
    ensures r <= Bound(p) && consumed <= p.Size()
    ensures r > 0 ==> Written(p, dst[..r], consumed)
    ensures p.output != FillOutput && r > 0 ==> consumed == p.Size()
    ensures r == 0 ==> p.output == LimitedOutput && p.olimit < p.Size() + p.Size() / 255 + 16
    ensures hc.Below(hc.base + |p.text|)
  {
    hide Progress, Written, HashChain.Below, MidMatch;
    var op: nat, anchor: nat, ip: nat := 0, p.h, p.h;
    ghost var qs, lastStart: nat := [], p.h;
    StartsEmpty(p, dst[..]);
    while p.Size() >= MIN_LENGTH && ip + MFLIMIT <= |p.text|
      invariant p.h <= anchor <= ip && Progress(p, dst[..], op, anchor, qs, lastStart)
      invariant hc.Below(hc.base + Reached(p, ip))
      invariant forall k :: Bound(p) <= k < dst.Length ==> dst[k] == old(dst[k])
      decreases |p.text| - ip
    {
      var m := FindMid(p, hc, ip);
      if m.Miss? {
        HigherBound(hc, hc.base + ip + 1, hc.base + Reached(p, ip + 1 + (ip - anchor) / 512));
        ip := ip + 1 + (ip - anchor) / 512;
      } else {
        var full, start, f;
        full, op, anchor, start, f, qs, lastStart := EncodeHit(p, hc, dst, op, anchor, ip, m, qs, lastStart);
        if full {
          if p.output != FillOutput {
            return 0, 0;
          }
          MatchToOverflow(p, start, f);
          op, anchor, qs, lastStart := Overflow(p, dst, op, anchor, start, f.len, f.off, qs, lastStart);
          r, consumed := LastLiterals(p, dst, op, anchor, qs, lastStart);
          return;
        }
        ip := anchor;
      }
    }
    HigherBound(hc, hc.base + Reached(p, ip), hc.base + |p.text|);
    r, consumed := LastLiterals(p, dst, op, anchor, qs, lastStart);
  }

  /** LZ4MID_fillHTable: a dictionary enters the tables, every third position in both and then every one of
      its last 32 KB in the table of seven bytes. */
  method FillHTable(hc: HashChain, dict: seq<byte>)
    requires hc.Below(hc.base) && hc.nextToUpdate == hc.base
    modifies hc`nextToUpdate, hc.hashTable
    ensures hc.Below(hc.base + |dict|)
  {
    hide HashChain.Below;
    HigherBound(hc, hc.base, hc.base + |dict|);
    if |dict| <= MID_HASHSIZE {
      return;
    }
    var target, idx := |dict| - MID_HASHSIZE, 0;
    while idx < target
      invariant hc.Below(hc.base + |dict|)
      decreases target - idx
    {
      AddPos4(dict, hc, idx, hc.base + idx, hc.base + |dict|);
      AddPos8(dict, hc, idx + 1, hc.base + idx + 1, hc.base + |dict|);
      idx := idx + 3;
    }
    idx := if |dict| > 32768 + MID_HASHSIZE then target - 32768 else 0;
    while idx < target
      invariant hc.Below(hc.base + |dict|)
      decreases target - idx
    {
      AddPos8(dict, hc, idx, hc.base + idx, hc.base + |dict|);
      idx := idx + 1;
    }
    hc.nextToUpdate := hc.base + target;
  }

  /** How far the text has been searched. */
  function Reached(p: Params, ip: nat): nat {
    if ip <= |p.text| then ip else |p.text|
  }

  lemma MatchToOverflow(p: Params, start: nat, f: Found)
    requires IsMatch(p, start, f)
    ensures MINMATCH <= f.len && 0 <= f.off && TrueMatch(p, start, f.len, f.off)
  {
  }
}
