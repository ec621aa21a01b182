/** The output side of the HC compressors: one sequence at a time (LZ4HC_encodeSequence), and the end
    of a block that overflows its target. */
module Lz4hcEncode {
  import opened Lz4Format
  import opened Lz4Copy
  import opened Lz4Emit
  import opened Lz4Compressor

  /** A match that may be encoded at `start`: a true copy at a distance the format can express, ending
      in front of the last literals. */
  ghost predicate TrueMatch(p: Params, start: int, len: int, off: int) {
    && p.h <= start && 1 <= off <= start && off <= DISTANCE_MAX
    && 0 <= len && start + len + LASTLITERALS <= |p.text|
    && Repeats(p.text, start, start + len, off)
  }

  /** A part of a match is a match. */
  lemma PartOfMatch(p: Params, start: int, len: int, off: int, start2: int, len2: int)
    requires TrueMatch(p, start, len, off) && start <= start2 && 0 <= len2 && start2 + len2 <= start + len
    ensures TrueMatch(p, start2, len2, off)
  {
  }

  /** dst[..op] is the block up to the input position `anchor`. */
  ghost predicate Progress(p: Params, d: seq<byte>, op: nat, anchor: nat, qs: seq<Sequence>, lastStart: nat) {
    && Tiled(p, qs, anchor, lastStart) && Roomy(p, qs != [], anchor, lastStart, op)
    && op <= |d| && d[..op] == EncodeAll(qs) && Bound(p) <= |d|
  }

  /** The end of the output during the run: the last literals are kept free when filling it. */
  function Oend(p: Params): int {
    if p.output == FillOutput then p.olimit - LASTLITERALS else p.olimit
  }

  /** The bytes behind a match token, two 255s at a time. */
  method EmitPairs(dst: array<byte>, op0: nat, v: nat) returns (op: nat)
    requires op0 + |LengthBytes(v)| <= dst.Length
    modifies dst
    ensures op == op0 + |LengthBytes(v)| && dst[op0..op] == LengthBytes(v)
    ensures forall k :: 0 <= k < op0 || op <= k < dst.Length ==> dst[k] == old(dst[k])
  {
    LengthBytesShape(v);
    var length := v;
    op := op0;
    while length >= 510
      invariant 0 <= length && v == 255 * (op - op0) + length && op0 <= op
      invariant forall k :: op0 <= k < op ==> dst[k] == 255
      invariant forall k :: 0 <= k < op0 || op <= k < dst.Length ==> dst[k] == old(dst[k])
    {
      dst[op], dst[op + 1] := 255, 255;
      op, length := op + 2, length - 510;
    }
    if length >= 255 {
      dst[op] := 255;
      op, length := op + 1, length - 255;
    }
    dst[op] := length;
    op := op + 1;
    assert forall i :: 0 <= i < op - op0 ==> dst[op0..op][i] == LengthBytes(v)[i];
  }

  /** The match length behind the offset that has been written already. */
  method EmitTail(dst: array<byte>, token: nat, op0: nat, ghost offset: nat, matchCode: nat) returns (op: nat)
    requires token + 2 < op0 <= dst.Length && offset <= DISTANCE_MAX && dst[token] % 16 == 0
    requires dst[op0 - 2..op0] == [offset % 256, offset / 256]
    requires op0 - 2 + |MatchPart(offset, matchCode + MINMATCH)| <= dst.Length
    modifies dst
    ensures dst[token] == old(dst[token]) + Nibble(matchCode)
    ensures op == op0 - 2 + |MatchPart(offset, matchCode + MINMATCH)|
    ensures dst[op0 - 2..op] == MatchPart(offset, matchCode + MINMATCH)
    ensures forall k :: (0 <= k < op0 && k != token) || op <= k < dst.Length ==> dst[k] == old(dst[k])
  {
    hide LengthBytes;
    ghost var head := dst[op0 - 2..op0];
    op := op0;
    if matchCode >= ML_MASK {
      dst[token] := dst[token] + ML_MASK;
      op := EmitPairs(dst, op, matchCode - ML_MASK);
    } else {
      dst[token] := dst[token] + matchCode;
    }
    assert dst[op0 - 2..op0] == head;
    assert dst[op0 - 2..op] == dst[op0 - 2..op0] + dst[op0..op];
  }

  /** Match length and token of one more sequence, its literals and its offset being written. */
  method CloseSequence(p: Params, dst: array<byte>, token: nat, op0: nat, anchor: nat, ip: nat, offset: nat,
                       matchCode: nat,
                       ghost qs: seq<Sequence>, ghost lastStart: nat) returns (op: nat, ghost qs2: seq<Sequence>)
    requires Tiled(p, qs, anchor, lastStart) && token + 2 < op0 <= dst.Length && anchor <= ip
             && ip + MFLIMIT <= |p.text|
    requires TrueMatch(p, ip, matchCode + MINMATCH, offset)
    requires op0 - 2 + |MatchPart(offset, matchCode + MINMATCH)| <= dst.Length
    requires dst[..token] == EncodeAll(qs) && dst[token..op0 - 2] == LiteralPart(p.text[anchor..ip], 0)
    requires dst[op0 - 2..op0] == [offset % 256, offset / 256]
    modifies dst
    ensures op == op0 - 2 + |MatchPart(offset, matchCode + MINMATCH)| && dst[..op] == EncodeAll(qs2) && qs2 != []
    ensures Tiled(p, qs2, ip + MINMATCH + matchCode, ip)
    ensures forall k :: op <= k < dst.Length ==> dst[k] == old(dst[k])
  {
    hide EncodeAll, LiteralPart, MatchPart, Tiled, Nibble, Extra;
    TokenOf(dst[..], token, op0 - 2, p.text[anchor..ip]);
    ghost var d := dst[..];
    op := EmitTail(dst, token, op0, offset, matchCode);
    ghost var q := Seq(p.text[anchor..ip], offset, matchCode + MINMATCH);
    qs2 := qs + [q];
    TiledMore(p, qs, anchor, lastStart, ip, offset, matchCode + MINMATCH);
    assert dst[..token] == d[..token];
    NibbleAdded(d, dst[..], token, op0 - 2, q.literals, Nibble(matchCode));
    Appended(dst[..], token, op0 - 2, op, qs, q, q.literals);
  }

  /** Room for the literals and what they overshoot, once the first check has passed. */
  lemma LiteralRoom(p: Params, limited: bool, token: nat, anchor: nat, ip: nat, ml: nat, some: bool, lastStart: nat)
    requires p.Valid() && Roomy(p, some, anchor, lastStart, token) && anchor <= ip && ip + MFLIMIT <= |p.text|
             && MINMATCH <= ml
    requires limited == (p.output != NotLimited) || (p.output == FillOutput && !limited)
    requires limited ==> token + 1 + (ip - anchor) / 255 + (ip - anchor) + 8 <= Oend(p)
    requires p.output == FillOutput && !limited ==> After(token, ip - anchor, ml - MINMATCH) + 6 <= p.olimit
    ensures token + 1 + (ip - anchor + 240) / 255 + (ip - anchor) + Overshoot(ip - anchor) <= Bound(p)
    ensures token + 1 + (ip - anchor + 240) / 255 + (ip - anchor) + 2 <= Bound(p)
  {
    RunSize(anchor - p.h, ip - anchor, token);
    assert (ip - anchor + 240) / 255 <= (ip - anchor) / 255 + 1;
  }

  /** A failed check means the capacity is below the worst-case bound. */
  lemma TooSmall(p: Params, token: nat, anchor: nat, ip: nat, ml: nat, some: bool, lastStart: nat)
    requires p.Valid() && Roomy(p, some, anchor, lastStart, token) && anchor <= ip && MINMATCH <= ml
    requires ip + ml + LASTLITERALS <= |p.text| && ip + MFLIMIT <= |p.text|
    requires || token + 1 + (ip - anchor) / 255 + (ip - anchor) + 8 > p.olimit
             || token + 1 + (ip - anchor + 240) / 255 + (ip - anchor) + 2 + (ml - MINMATCH) / 255 + 6 > p.olimit
    ensures p.olimit < p.Size() + p.Size() / 255 + 16
  {
    var a, ll := anchor - p.h, ip - anchor;
    RunSize(a, ll, token);
    assert a / 255 + ll / 255 <= (a + ll) / 255 <= p.Size() / 255;
    assert (a + ll) / 255 + (ml - MINMATCH) / 255 <= (a + ll + ml) / 255 <= p.Size() / 255;
  }

  /** After the second check the end rules can still be met. */
  lemma RoomBehind(p: Params, limited: bool, token: nat, anchor: nat, ip: nat, ml: nat, some: bool, lastStart: nat)
    requires p.Valid() && Roomy(p, some, anchor, lastStart, token) && anchor <= ip && MINMATCH <= ml
    requires ip + ml + LASTLITERALS <= |p.text|
    requires limited == (p.output != NotLimited) || (p.output == FillOutput && !limited)
    requires limited ==>
             token + 1 + (ip - anchor + 240) / 255 + (ip - anchor) + 2 + (ml - MINMATCH) / 255 + 6 <= Oend(p)
    requires p.output == FillOutput && !limited ==>
               var op := After(token, ip - anchor, ml - MINMATCH);
               op + 6 <= p.olimit && ml + (p.olimit - op - 1) >= MFLIMIT
    ensures var op := After(token, ip - anchor, ml - MINMATCH);
            op + 3 <= Bound(p) && Roomy(p, true, ip + ml, ip, op)
  {
    assert (ml - MINMATCH + 240) / 255 <= (ml - MINMATCH) / 255 + 1;
    RoomyAfter(p, some, anchor, lastStart, token, ip, ml - MINMATCH);
  }

  /** Token, literals and offset. */
  method OpenSequence(p: Params, dst: array<byte>, token: nat, anchor: nat, ip: nat, offset: nat) returns (op: nat)
    requires p.Valid() && anchor <= ip && ip + MFLIMIT <= |p.text| && offset <= DISTANCE_MAX && Bound(p) <= dst.Length
    requires token + 1 + (ip - anchor + 240) / 255 + (ip - anchor) + Overshoot(ip - anchor) <= Bound(p)
    requires token + 1 + (ip - anchor + 240) / 255 + (ip - anchor) + 2 <= Bound(p)
    modifies dst
    ensures forall k :: Bound(p) <= k < dst.Length ==> dst[k] == old(dst[k])
    ensures op == token + 1 + (ip - anchor + 240) / 255 + (ip - anchor) + 2 <= dst.Length
    ensures dst[..token] == old(dst[..token]) && dst[token..op - 2] == LiteralPart(p.text[anchor..ip], 0)
    ensures dst[op - 2..op] == [offset % 256, offset / 256]
  {
    hide LiteralPart, Bound;
    LiteralPartSize(p.text[anchor..ip], 0);
    op := EmitLiterals(dst, token, p.text, anchor, ip);
    ghost var lits := dst[token..op];
    dst[op], dst[op + 1] := offset % 256, offset / 256;
    op := op + 2;
    assert dst[token..op - 2] == lits;
  }

  /** LZ4HC_encodeSequence. `full` reports a buffer issue; the bytes before `token` are then untouched. */
  method EncodeSequenceHc(p: Params, dst: array<byte>, limited: bool, token: nat, anchor: nat, ip: nat, ml: nat,
                          offset: nat,
                          ghost qs: seq<Sequence>, ghost lastStart: nat)
                            returns (full: bool, op: nat, ghost qs2: seq<Sequence>)
    requires p.Valid() && Progress(p, dst[..], token, anchor, qs, lastStart) && anchor <= ip && ip + MFLIMIT <= |p.text|
    requires MINMATCH <= ml && TrueMatch(p, ip, ml, offset)
    requires limited == (p.output != NotLimited) || (p.output == FillOutput && !limited)
    requires p.output == FillOutput && !limited ==>
               var end := After(token, ip - anchor, ml - MINMATCH);
               end + 6 <= p.olimit && ml + (p.olimit - end - 1) >= MFLIMIT
    modifies dst
    ensures forall k :: Bound(p) <= k < dst.Length ==> dst[k] == old(dst[k])
    ensures full ==> limited && Progress(p, dst[..], token, anchor, qs, lastStart)
    ensures full && p.output == LimitedOutput ==> p.olimit < p.Size() + p.Size() / 255 + 16
    ensures !full ==> Progress(p, dst[..], op, ip + ml, qs2, ip)
  {
    hide EncodeAll, LiteralPart, MatchPart, Tiled, Roomy, TrueMatch, Nibble, Extra, EncodeSequence;
    OffsetOfMatch(p, ip, ml, offset);
    var length := ip - anchor;
    full, op, qs2 := false, token + 1, qs;
    if limited && op + length / 255 + length + (2 + 1 + LASTLITERALS) > Oend(p) {
      if p.output == LimitedOutput { TooSmall(p, token, anchor, ip, ml, qs != [], lastStart); }
      return true, op, qs;
    }
    LiteralRoom(p, limited, token, anchor, ip, ml, qs != [], lastStart);
    op := OpenSequence(p, dst, token, anchor, ip, offset);
    if limited && op + (ml - MINMATCH) / 255 + (1 + LASTLITERALS) > Oend(p) {
      if p.output == LimitedOutput { TooSmall(p, token, anchor, ip, ml, qs != [], lastStart); }
      return true, op, qs;
    }
    RoomBehind(p, limited, token, anchor, ip, ml, qs != [], lastStart);
    MatchPartSize(offset, ml);
    op, qs2 := CloseSequence(p, dst, token, op, anchor, ip, offset, ml - MINMATCH, qs, lastStart);
  }

  lemma OffsetOfMatch(p: Params, start: int, len: int, off: int)
    requires TrueMatch(p, start, len, off)
    ensures 1 <= off <= DISTANCE_MAX && start + len + LASTLITERALS <= |p.text|
  {
  }

  // ----- the end of a block -----

  /** The longest match whose length bytes fit, once its literals do. */
  lemma LongestThatFits(left: nat, ml: nat)
    requires MINMATCH <= ml
    ensures var m := if ml > MINMATCH + (ML_MASK - 1) + left * 255 then MINMATCH + (ML_MASK - 1) + left * 255 else ml;
            MINMATCH <= m <= ml && (m - MINMATCH + 240) / 255 <= left && (m < 19 ==> (m - MINMATCH + 240) / 255 == 0)
  {
  }

  /** From the label _dest_overflow: the sequence that did not fit is shortened to the target, or
      dropped; nothing else can follow it. */
  method Overflow(p: Params, dst: array<byte>, token: nat, anchor: nat, ip: nat, ml0: nat, offset: nat,
                  ghost qs: seq<Sequence>, ghost lastStart: nat)
    returns (op: nat, anchor2: nat, ghost qs2: seq<Sequence>, ghost lastStart2: nat)
    requires p.Valid() && p.output == FillOutput && Progress(p, dst[..], token, anchor, qs, lastStart)
    requires anchor <= ip && ip + MFLIMIT <= |p.text| && MINMATCH <= ml0 && TrueMatch(p, ip, ml0, offset)
    modifies dst
    ensures forall k :: Bound(p) <= k < dst.Length ==> dst[k] == old(dst[k])
    ensures Progress(p, dst[..], op, anchor2, qs2, lastStart2)
  {
    hide Progress, TrueMatch;
    op, anchor2, qs2, lastStart2 := token, anchor, qs, lastStart;
    var ll := ip - anchor;
    var llTotalCost := 1 + (ll + 240) / 255 + ll;
    var maxLitPos := Oend(p) - 3;
    if op + llTotalCost <= maxLitPos {
      var bytesLeftForMl := maxLitPos - (op + llTotalCost);
      var maxMlSize := MINMATCH + (ML_MASK - 1) + bytesLeftForMl * 255;
      LongestThatFits(bytesLeftForMl, ml0);
      var ml: nat := if ml0 > maxMlSize then maxMlSize else ml0;
      PartOfMatch(p, ip, ml0, offset, ip, ml);
      if Oend(p) + LASTLITERALS - (op + llTotalCost + 2) - 1 + ml >= MFLIMIT {
        var full;
        full, op, qs2 := EncodeSequenceHc(p, dst, false, op, anchor, ip, ml, offset, qs, lastStart);
        anchor2, lastStart2 := ip + ml, ip;
      }
    }
  }

  /** From the label _last_literals. */
  method LastLiterals(p: Params, dst: array<byte>, op: nat, anchor: nat, ghost qs: seq<Sequence>, ghost lastStart: nat)
    returns (r: nat, consumed: nat)
    requires p.Valid() && Progress(p, dst[..], op, anchor, qs, lastStart)
    modifies dst
    ensures forall k :: Bound(p) <= k < dst.Length ==> dst[k] == old(dst[k])
    ensures r <= Bound(p) && consumed <= p.Size()
    ensures r == 0 ==> p.output == LimitedOutput && p.olimit < p.Size() + p.Size() / 255 + 16
    ensures r > 0 ==> Written(p, dst[..r], consumed)
    ensures p.output != FillOutput && r > 0 ==> consumed == p.Size()
  {
    hide EncodeAll, Roomy, Written;
    r, consumed := EncodeLast(p, dst, op, anchor, qs, lastStart);
  }

  lemma StartsEmpty(p: Params, d: seq<byte>)
    requires p.Valid() && (p.output == FillOutput ==> 1 <= p.olimit) && Bound(p) <= |d|
    ensures Progress(p, d, 0, p.h, [], p.h)
  {
    NothingWritten(p);
  }
}
