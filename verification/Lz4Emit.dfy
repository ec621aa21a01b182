/** Writing sequences into the output buffer, as the fast compressor does it: wild literal copies
    and four length bytes at a time. Each method says exactly which bytes it produces and how far
    beyond them it may scribble. */
module Lz4Emit {
  import opened Lz4Format
  import opened Lz4Copy

  lemma {:induction false} LengthBytesShape(v: nat)
    ensures |LengthBytes(v)| == v / 255 + 1
    ensures LengthBytes(v)[v / 255] == v % 255
    ensures forall i :: 0 <= i < v / 255 ==> LengthBytes(v)[i] == 255
  {
    if v >= 255 { LengthBytesShape(v - 255); }
  }

  /** The bytes behind a literal token: one 255 at a time. */
  method EmitLength(dst: array<byte>, op0: nat, v: nat) returns (op: nat)
    requires op0 + |LengthBytes(v)| <= dst.Length
    modifies dst
    ensures op == op0 + |LengthBytes(v)| && dst[op0..op] == LengthBytes(v)
    ensures forall k :: 0 <= k < op0 || op <= k < dst.Length ==> dst[k] == old(dst[k])
  {
    LengthBytesShape(v);
    var len := v;
    op := op0;
    while len >= 255
      invariant 0 <= len && v == 255 * (op - op0) + len && op0 <= op
      invariant forall k :: op0 <= k < op ==> dst[k] == 255
      invariant forall k :: 0 <= k < op0 || op <= k < dst.Length ==> dst[k] == old(dst[k])
    {
      dst[op] := 255;
      op, len := op + 1, len - 255;
    }
    dst[op] := len;
    op := op + 1;
    assert forall i :: 0 <= i < op - op0 ==> dst[op0..op][i] == LengthBytes(v)[i];
  }

  /** Token and literal length; the match nibble of the token stays 0. */
  method EmitToken(dst: array<byte>, op0: nat, length: nat) returns (op: nat)
    requires op0 + 1 + |Extra(length)| <= dst.Length
    modifies dst
    ensures op == op0 + 1 + |Extra(length)| && dst[op0..op] == [Nibble(length) * 16] + Extra(length)
    ensures forall k :: 0 <= k < op0 || op <= k < dst.Length ==> dst[k] == old(dst[k])
  {
    hide LengthBytes;
    op := op0 + 1;
    if length >= RUN_MASK {
      dst[op0] := RUN_MASK * 16;
      op := EmitLength(dst, op, length - RUN_MASK);
      assert dst[op0..op] == [dst[op0]] + dst[op0 + 1..op];
    } else {
      dst[op0] := length * 16;
    }
  }

  /** How far LZ4_wildCopy8 may write beyond `length` bytes. */
  function Overshoot(length: nat): nat { if length == 0 then 8 else 7 }

  /** Token, literal length and literals, the latter by LZ4_wildCopy8. */
  method EmitLiterals(dst: array<byte>, op0: nat, text: seq<byte>, anchor: nat, ip: nat) returns (op: nat)
    requires anchor <= ip && ip + 8 <= |text|
    requires op0 + |LiteralPart(text[anchor..ip], 0)| + Overshoot(ip - anchor) <= dst.Length
    modifies dst
    ensures op == op0 + |LiteralPart(text[anchor..ip], 0)| && dst[op0..op] == LiteralPart(text[anchor..ip], 0)
    ensures forall k :: 0 <= k < op0 || op + Overshoot(ip - anchor) <= k < dst.Length ==> dst[k] == old(dst[k])
  {
    hide Extra, Nibble;
    var length := ip - anchor;
    var start := EmitToken(dst, op0, length);
    ghost var head := dst[op0..start];
    WildCopy8From(dst, start, text, anchor, start + length);
    op := start + length;
    assert dst[op0..start] == head;
    assert dst[start..op] == text[anchor..ip];
    assert dst[op0..op] == dst[op0..start] + dst[start..op];
  }

  /** The bytes behind a match token, four 255s at a time. */
  method EmitMatchLength(dst: array<byte>, op0: nat, v: nat) returns (op: nat)
    requires op0 + |LengthBytes(v)| + 3 <= dst.Length
    modifies dst
    ensures op == op0 + |LengthBytes(v)| && dst[op0..op] == LengthBytes(v)
    ensures forall k :: 0 <= k < op0 || op + 3 <= k < dst.Length ==> dst[k] == old(dst[k])
  {
    LengthBytesShape(v);
    var matchCode := v;
    op := op0;
    dst[op], dst[op + 1], dst[op + 2], dst[op + 3] := 255, 255, 255, 255;
    while matchCode >= 4 * 255
      invariant 0 <= matchCode && v == 255 * (op - op0) + matchCode && op0 <= op
      invariant forall k :: op0 <= k < op + 4 ==> dst[k] == 255
      invariant forall k :: 0 <= k < op0 || op + 4 <= k < dst.Length ==> dst[k] == old(dst[k])
    {
      op := op + 4;
      dst[op], dst[op + 1], dst[op + 2], dst[op + 3] := 255, 255, 255, 255;
      matchCode := matchCode - 4 * 255;
    }
    op := op + matchCode / 255;
    dst[op] := matchCode % 255;
    op := op + 1;
    assert forall i :: 0 <= i < op - op0 ==> dst[op0..op][i] == LengthBytes(v)[i];
  }

  /** Offset and match length; the token gets its match nibble. */
  method EmitMatch(dst: array<byte>, token: nat, op0: nat, offset: nat, matchCode: nat) returns (op: nat)
    requires token < op0 <= dst.Length && offset <= DISTANCE_MAX && dst[token] % 16 == 0
    requires op0 + |MatchPart(offset, matchCode + MINMATCH)| + 3 <= dst.Length
    modifies dst
    ensures dst[token] == old(dst[token]) + Nibble(matchCode)
    ensures op == op0 + |MatchPart(offset, matchCode + MINMATCH)|
            && dst[op0..op] == MatchPart(offset, matchCode + MINMATCH)
    ensures forall k :: (0 <= k < op0 && k != token) || op + 3 <= k < dst.Length ==> dst[k] == old(dst[k])
  {
    hide LengthBytes;
    dst[op0], dst[op0 + 1] := offset % 256, offset / 256;
    op := op0 + 2;
    if matchCode >= ML_MASK {
      dst[token] := dst[token] + ML_MASK;
      op := EmitMatchLength(dst, op, matchCode - ML_MASK);
    } else {
      dst[token] := dst[token] + matchCode;
    }
    assert dst[op0..op] == dst[op0..op0 + 2] + dst[op0 + 2..op];
  }

  /** Token, length and literals of the last run, by an exact copy. */
  method EmitLast(dst: array<byte>, op0: nat, text: seq<byte>, anchor: nat, lastRun: nat) returns (op: nat)
    requires anchor + lastRun <= |text|
    requires op0 + |LiteralPart(text[anchor..anchor + lastRun], 0)| <= dst.Length
    modifies dst
    ensures op == op0 + |LiteralPart(text[anchor..anchor + lastRun], 0)|
    ensures dst[op0..op] == LiteralPart(text[anchor..anchor + lastRun], 0)
    ensures forall k :: 0 <= k < op0 || op <= k < dst.Length ==> dst[k] == old(dst[k])
  {
    hide Extra, Nibble;
    var start := EmitToken(dst, op0, lastRun);
    ghost var head := dst[op0..start];
    MemCpyFrom(dst, start, text, anchor, lastRun);
    op := start + lastRun;
    assert dst[op0..start] == head;
    assert dst[start..op] == text[anchor..anchor + lastRun];
    assert dst[op0..op] == dst[op0..start] + dst[start..op];
  }

  /** A token with its literals, then the match: together the encoding of one more sequence. */
  lemma {:induction false} Appended(d: seq<byte>, token: nat, mid: nat, op: nat, qs: seq<Sequence>, q: Sequence,
                                    lits: seq<byte>)
    requires token < mid <= op <= |d| && q.literals == lits
    requires d[..token] == EncodeAll(qs)
    requires d[token..mid] == LiteralPart(lits, Nibble(q.matchLength - MINMATCH))
    requires d[mid..op] == MatchPart(q.offset, q.matchLength)
    ensures d[..op] == EncodeAll(qs + [q])
  {
    hide LiteralPart, MatchPart, Nibble;
    assert (qs + [q])[..|qs|] == qs;
    assert d[..op] == d[..token] + (d[token..mid] + d[mid..op]);
  }

  /** Giving a token its match nibble. */
  lemma {:induction false} NibbleAdded(d: seq<byte>, d2: seq<byte>, token: nat, mid: nat, lits: seq<byte>, low: nat)
    requires token < mid <= |d| == |d2| && low <= 15
    requires d[token..mid] == LiteralPart(lits, 0) && d2[token] == d[token] + low
    requires forall k :: token < k < mid ==> d2[k] == d[k]
    ensures d2[token..mid] == LiteralPart(lits, low)
  {
    hide Extra, Nibble;
    var l := LiteralPart(lits, 0);
    assert d[token] == d[token..mid][0] == Nibble(|lits|) * 16;
    forall k | 0 < k < mid - token ensures d2[token..mid][k] == LiteralPart(lits, low)[k] {
      assert d2[token..mid][k] == d[token..mid][k];
    }
  }
}
