/** The greedy compressor (LZ4_compress_generic_validated) in its three output modes, for 16- and
    32-bit tables, without history, behind a prefix or behind an external dictionary.
    Positions are those of `text`, the history followed by the source; the history may lie anywhere
    in memory, and the code below never reads across its end by accident. */
module Lz4Compressor {
  import opened Lz4Format
  import opened Lz4Copy
  import opened Lz4Emit

  const TABLE_SIZE := 8192
  const MIN_LENGTH := 13
  const LIMIT_64K := 65547
  const SKIP_TRIGGER := 64

  datatype TableType = ByU32 | ByU16
  datatype Output = NotLimited | LimitedOutput | FillOutput

  /** The directives of one call. `start` is the index of the first source byte, at text[h]. */
  datatype Params = Params(text: seq<byte>, h: nat, start: nat, tableType: TableType, dict: DictDirective,
                           dictSmall: bool, output: Output, olimit: nat, acceleration: nat)
  {
    predicate Valid() {
      && h <= |text| && 1 <= acceleration
      && start + |text| - h <= 0xFFFF_FFFF
      && (dict == NoDict ==> h == 0)
      && (dictSmall ==> h <= start)
      && (tableType == ByU16 ==> start + |text| - h < LIMIT_64K && dict == NoDict)
      && (output == FillOutput ==> start == 0)
    }

    function Hist(): seq<byte>
      requires h <= |text|
    {
      text[..h]
    }

    /** Number of source bytes. */
    function Size(): nat
      requires h <= |text|
    {
      |text| - h
    }

    /** The index stored in the table for a position. */
    function Index(pos: nat): nat
      requires h <= pos
    {
      pos - h + start
    }
  }

  // ----- hashing and the table -----

  function Little(t: seq<byte>, p: nat, n: nat): (r: nat)
    requires p + n <= |t|
    decreases n
  {
    if n == 0 then 0 else t[p] as int + 256 * Little(t, p + 1, n - 1)
  }

  /** LZ4_hashPosition: hash4 of four bytes for 16-bit tables, hash5 of eight for 32-bit ones. */
  function HashPosition(t: seq<byte>, p: nat, tableType: TableType): (r: nat)
    requires p + 8 <= |t|
    ensures r < TABLE_SIZE && (tableType == ByU32 ==> r < TABLE_SIZE / 2)
  {
    if tableType == ByU16 then
      Little(t, p, 4) * 2654435761 % 0x1_0000_0000 / 0x8_0000
    else
      Little(t, p,
             8) * 0x100_0000 % 0x1_0000_0000_0000_0000 * 889523592379 % 0x1_0000_0000_0000_0000 / 0x10_0000_0000_0000
  }

  /** An entry from before this call: refused by the checks of the search, or a place in the history
      with at least the bytes of a minimal match left behind it. */
  ghost predicate OldEntry(p: Params, e: nat) {
    && e < p.start && (e == 0 || e + 8 <= p.start)
    && (p.dictSmall || e + p.h >= p.start || (p.tableType == ByU32 && e + DISTANCE_MAX < p.start))
    && (p.dict == UsingExtDict && e + p.h >= p.start ==> e + MINMATCH <= p.start)
  }

  /** An entry of this call: a position before `bound`, found under its own hash. The zeroes of a
      fresh table stand for the first source byte. */
  ghost predicate NewEntry(p: Params, slot: nat, e: nat, bound: nat)
    requires p.Valid()
  {
    var pos := e - p.start + p.h;
    && p.start <= e && pos < bound
    && (e != 0 ==> pos + 8 <= |p.text| && slot == HashPosition(p.text, pos, p.tableType))
  }

  ghost predicate TableInv(p: Params, table: seq<nat>, bound: nat)
    requires p.Valid()
  {
    |table| == TABLE_SIZE &&
    forall slot :: 0 <= slot < |table| ==> OldEntry(p, table[slot]) || NewEntry(p, slot, table[slot], bound)
  }

  /** LZ4_putIndexOnHash, at the slot of the position itself. */
  method PutPosition(p: Params, table: array<nat>, pos: nat, slot: nat, ghost bound: nat)
    requires p.Valid() && p.h <= pos < bound && pos + 12 <= |p.text| && bound >= p.h + 1
    requires slot == HashPosition(p.text, pos, p.tableType)
    requires TableInv(p, table[..], bound)
    modifies table
    ensures TableInv(p, table[..], bound)
  {
    hide HashPosition;
    var idx := p.Index(pos);
    assert p.tableType == ByU16 ==> idx < 65536;
    table[slot] := idx;
  }

  predicate Same4(t: seq<byte>, a: nat, b: nat)
    requires a + 4 <= |t| && b + 4 <= |t|
  {
    t[a] == t[b] && t[a + 1] == t[b + 1] && t[a + 2] == t[b + 2] && t[a + 3] == t[b + 3]
  }

  /** A match of at least four bytes for position ip, at a distance the format can express; inside an
      external dictionary its first four bytes do not cross the end of the dictionary. */
  ghost predicate GoodMatch(p: Params, ip: nat, mtch: nat) {
    && mtch < ip <= mtch + DISTANCE_MAX && ip + 4 <= |p.text|
    && Same4(p.text, mtch, ip)
    && (p.dict == UsingExtDict && mtch < p.h ==> mtch + MINMATCH <= p.h)
  }

  /** The checks on a table entry, and the comparison of four bytes. */
  method TryEntry(p: Params, matchIndex: nat, ip: nat, ghost slot: nat) returns (found: bool, mtch: nat)
    requires p.Valid() && p.h < ip && ip + 11 < |p.text|
    requires OldEntry(p, matchIndex) || NewEntry(p, slot, matchIndex, ip)
    ensures found ==> GoodMatch(p, ip, mtch)
  {
    hide HashPosition;
    var current := p.Index(ip);
    assert matchIndex < current;
    found, mtch := false, 0;
    if p.dictSmall && matchIndex < p.start - p.h {
      return;
    }
    if p.tableType != ByU16 && matchIndex + DISTANCE_MAX < current {
      return;
    }
    mtch := matchIndex + p.h - p.start;
    found := Same4(p.text, mtch, ip);
  }

  /** The search loop: hash ahead with growing steps until four bytes agree. */
  method Search(p: Params, table: array<nat>, ip0: nat, forwardH0: nat) returns (found: bool, ip: nat, mtch: nat)
    requires p.Valid() && p.h < ip0 && ip0 + 11 <= |p.text| && forwardH0 == HashPosition(p.text, ip0, p.tableType)
    requires TableInv(p, table[..], ip0)
    modifies table
    ensures found ==> ip0 <= ip && ip + 12 <= |p.text| && GoodMatch(p, ip, mtch) && TableInv(p, table[..], ip + 1)
    ensures !found ==> TableInv(p, table[..], |p.text|)
  {
    hide HashPosition, OldEntry, NewEntry, GoodMatch;
    var forwardIp, step, searchMatchNb, forwardH := ip0, 1, p.acceleration * SKIP_TRIGGER, forwardH0;
    while true
      invariant ip0 <= forwardIp && forwardIp + 11 <= |p.text| && 1 <= step && SKIP_TRIGGER <= searchMatchNb
      invariant forwardH == HashPosition(p.text, forwardIp, p.tableType)
      invariant TableInv(p, table[..], forwardIp)
      decreases |p.text| - forwardIp
    {
      var h := forwardH;
      var matchIndex := table[h];
      ip := forwardIp;
      forwardIp := forwardIp + step;
      step, searchMatchNb := searchMatchNb / SKIP_TRIGGER, searchMatchNb + 1;
      if forwardIp + 11 > |p.text| {
        TableLater(p, table[..], ip, |p.text|);
        return false, ip, 0;
      }
      forwardH := HashPosition(p.text, forwardIp, p.tableType);
      TableLater(p, table[..], ip, ip + 1);
      PutPosition(p, table, ip, h, ip + 1);
      found, mtch := TryEntry(p, matchIndex, ip, h);
      if found {
        return;
      }
      TableLater(p, table[..], ip + 1, forwardIp);
    }
  }

  lemma TableLater(p: Params, table: seq<nat>, bound: nat, bound2: nat)
    requires p.Valid() && TableInv(p, table, bound) && bound <= bound2
    ensures TableInv(p, table, bound2)
  {
    hide HashPosition;
  }

  // ----- matches -----

  /** Extend a match backwards, not beyond `anchor` and not beyond the segment the match lies in. */
  method CatchUp(p: Params, ip0: nat, mtch0: nat, anchor: nat) returns (ip: nat, mtch: nat)
    requires p.Valid() && p.h <= anchor < ip0 && ip0 + 12 <= |p.text| && GoodMatch(p, ip0, mtch0)
    ensures anchor <= ip <= ip0 && GoodMatch(p, ip, mtch) && ip - mtch == ip0 - mtch0
    ensures Repeats(p.text, ip, ip0 + MINMATCH, ip0 - mtch0)
    ensures p.dict == UsingExtDict && mtch0 >= p.h ==> mtch >= p.h
  {
    var lowLimit := if p.dict == UsingExtDict && mtch0 >= p.h then p.h else 0;
    ip, mtch := ip0, mtch0;
    while ip > anchor && mtch > lowLimit && p.text[ip - 1] == p.text[mtch - 1]
      invariant anchor <= ip <= ip0 && lowLimit <= mtch && ip - mtch == ip0 - mtch0
      invariant Repeats(p.text, ip, ip0 + MINMATCH, ip0 - mtch0)
    {
      ip, mtch := ip - 1, mtch - 1;
    }
  }

  /** How many of the next eight bytes agree before the first that differs: a zero exclusive or of
      two words, or what LZ4_NbCommonBytes finds in it. */
  method CommonBytes(t: seq<byte>, mtch: nat, ip: nat) returns (n: nat)
    requires mtch < ip && ip + 8 <= |t|
    ensures n <= 8 && Repeats(t, ip, ip + n, ip - mtch) && (n < 8 ==> t[ip + n] != t[mtch + n])
  {
    n := 0;
    while n < 8 && t[ip + n] == t[mtch + n]
      invariant n <= 8 && Repeats(t, ip, ip + n, ip - mtch)
    {
      n := n + 1;
    }
  }

  /** LZ4_count: the length of the longest common prefix, ip staying below `limit`; words of eight
      bytes first, then four, two and one. */
  method Count(t: seq<byte>, ip0: nat, mtch0: nat, limit: nat) returns (n: nat)
    requires mtch0 < ip0 <= limit <= |t|
    ensures ip0 + n <= limit && Repeats(t, ip0, ip0 + n, ip0 - mtch0)
    ensures ip0 + n < limit ==> t[ip0 + n] != t[mtch0 + n]
  {
    var ip, mtch := ip0, mtch0;
    while ip + 7 < limit
      invariant ip0 <= ip <= limit && ip - ip0 == mtch - mtch0 && Repeats(t, ip0, ip, ip0 - mtch0)
      decreases limit - ip
    {
      var common := CommonBytes(t, mtch, ip);
      if common < 8 {
        return ip + common - ip0;
      }
      ip, mtch := ip + 8, mtch + 8;
    }
    n := CountTail(t, ip, mtch, limit);
    n := ip + n - ip0;
  }

  method CountTail(t: seq<byte>, ip0: nat, mtch0: nat, limit: nat) returns (n: nat)
    requires mtch0 < ip0 <= limit <= |t| && limit <= ip0 + 7
    ensures ip0 + n <= limit && Repeats(t, ip0, ip0 + n, ip0 - mtch0)
    ensures ip0 + n < limit ==> t[ip0 + n] != t[mtch0 + n]
  {
    var ip, mtch := ip0, mtch0;
    if ip + 3 < limit && Same4(t, mtch, ip) {
      ip, mtch := ip + 4, mtch + 4;
    }
    if ip + 1 < limit && t[mtch] == t[ip] && t[mtch + 1] == t[ip + 1] {
      ip, mtch := ip + 2, mtch + 2;
    }
    if ip < limit && t[mtch] == t[ip] {
      ip, mtch := ip + 1, mtch + 1;
    }
    return ip - ip0;
  }

  /** A match that starts in the external dictionary is counted up to the end of the dictionary and
      then on from the start of the source. */
  method DictMatchCode(p: Params, ip: nat, mtch: nat) returns (matchCode: nat)
    requires p.Valid() && mtch + MINMATCH <= p.h <= ip && ip + MFLIMIT <= |p.text|
    ensures ip + MINMATCH + matchCode + LASTLITERALS <= |p.text|
    ensures Repeats(p.text, ip + MINMATCH, ip + MINMATCH + matchCode, ip - mtch)
    ensures var end := ip + MINMATCH + matchCode;
            end + LASTLITERALS == |p.text| || p.text[end] != p.text[end - (ip - mtch)]
  {
    var matchlimit := |p.text| - LASTLITERALS;
    var limit := ip + (p.h - mtch);
    if limit > matchlimit {
      limit := matchlimit;
    }
    matchCode := Count(p.text, ip + MINMATCH, mtch + MINMATCH, limit);
    if ip + MINMATCH + matchCode == limit {
      var more := Count(p.text, limit, p.h, matchlimit);
      matchCode := matchCode + more;
    }
  }

  /** The length of a match behind its first four bytes. */
  method MatchCode(p: Params, ip: nat, mtch: nat) returns (matchCode: nat)
    requires p.Valid() && p.h <= ip && ip + MFLIMIT <= |p.text| && GoodMatch(p, ip, mtch)
    ensures ip + MINMATCH + matchCode + LASTLITERALS <= |p.text|
    ensures Repeats(p.text, ip, ip + MINMATCH + matchCode, ip - mtch)
    ensures var end := ip + MINMATCH + matchCode;
            end + LASTLITERALS == |p.text| || p.text[end] != p.text[end - (ip - mtch)]
  {
    if p.dict == UsingExtDict && mtch < p.h {
      matchCode := DictMatchCode(p, ip, mtch);
    } else {
      matchCode := Count(p.text, ip + MINMATCH, mtch + MINMATCH, |p.text| - LASTLITERALS);
    }
  }

  // ----- what has been written -----

  /** dst[..op] holds the sequences qs, which reproduce the text up to `anchor`; the last match
      starts at `lastStart`, and the end rules can still be met. */
  ghost predicate Tiled(p: Params, qs: seq<Sequence>, anchor: nat, lastStart: nat) {
    && p.Valid() && p.h <= anchor <= |p.text|
    && ValidSequences(p.Hist(), qs) && Expand(p.Hist(), qs) == p.text[..anchor]
    && (qs != [] ==>
          && lastStart + MINMATCH <= anchor
          && lastStart == |Expand(p.Hist(), qs[..|qs| - 1])| + |qs[|qs| - 1].literals|
          && lastStart + MFLIMIT <= |p.text| && anchor + LASTLITERALS <= |p.text|)
  }

  /** What limits the output: never more than a/255 bytes beyond the a bytes consumed, and, when a
      capacity is given, room for a token and five literals behind the last match. */
  ghost predicate Roomy(p: Params, some: bool, anchor: nat, lastStart: nat, op: nat) {
    && p.h <= anchor && op <= anchor - p.h + (anchor - p.h) / 255
    && (p.output != NotLimited && some ==> op + LASTLITERALS <= p.olimit)
    && (p.output == FillOutput && some ==> op + 1 + LASTLITERALS <= p.olimit)
    && (p.output != NotLimited && !some ==> op <= p.olimit)
    && (p.output == FillOutput ==> op + 1 <= p.olimit)
    && (p.output == FillOutput && some ==> anchor - lastStart + (p.olimit - op - 1) >= MFLIMIT)
  }

  /** Bytes of the output buffer the call may touch. */
  function Bound(p: Params): nat
    requires p.h <= |p.text|
  {
    if p.output == NotLimited then p.Size() + p.Size() / 255 + 16 else p.olimit
  }

  lemma {:induction false} TiledMore(p: Params, qs: seq<Sequence>, anchor: nat, lastStart: nat, ip: nat, offset: nat,
                                     n: nat)
    requires Tiled(p, qs, anchor, lastStart) && anchor <= ip && ip + MFLIMIT <= |p.text|
    requires MINMATCH <= n && ip + n + LASTLITERALS <= |p.text| && 1 <= offset <= DISTANCE_MAX
    requires Repeats(p.text, ip, ip + n, offset)
    ensures Tiled(p, qs + [Seq(p.text[anchor..ip], offset, n)], ip + n, ip)
  {
    var q := Seq(p.text[anchor..ip], offset, n);
    var qs2 := qs + [q];
    assert qs2[..|qs|] == qs;
    var o1 := p.text[..anchor] + p.text[anchor..ip];
    assert o1 == p.text[..ip];
    CopyMatchUnique(o1, offset, n, p.text[..ip + n]);
  }

  // ----- arithmetic of sizes -----

  /** A literal run and a match never cost more than a byte per 255 beyond what they stand for. */
  lemma SequenceSize(a: nat, ll: nat, ml: nat, token: nat)
    requires token <= a + a / 255 && MINMATCH <= ml
    ensures token + 1 + (ll + 240) / 255 + ll + 2 + (ml - MINMATCH + 240) / 255 <= a + ll + ml + (a + ll + ml) / 255
  {
    assert a / 255 + ll / 255 <= (a + ll) / 255 <= (a + ll + ml) / 255;
    assert (ll + 240) / 255 <= ll / 255 + 1;
    assert ml < 19 ==> (ml - MINMATCH + 240) / 255 == 0;
    assert ml >= 19 ==> (ml - MINMATCH + 240) / 255 <= ml - MINMATCH;
  }

  lemma RunSize(a: nat, ll: nat, token: nat)
    requires token <= a + a / 255
    ensures token + 1 + (ll + 240) / 255 + ll <= a + ll + (a + ll) / 255 + 2
  {
    assert a / 255 + ll / 255 <= (a + ll) / 255;
    assert (ll + 240) / 255 <= ll / 255 + 1;
  }

  // ----- encoding one sequence -----

  datatype Step = Encoded | Rewind | NoRoom

  /** Token, literal length and literals, when they fit. */
  method EncodeLiterals(p: Params, dst: array<byte>, token: nat, anchor: nat, ip: nat,
                        ghost qs: seq<Sequence>, ghost lastStart: nat) returns (step: Step, op: nat)
    requires p.Valid() && p.h <= anchor <= ip && ip + MFLIMIT <= |p.text| && Bound(p) <= dst.Length
    requires Roomy(p, qs != [], anchor, lastStart, token) && dst[..token] == EncodeAll(qs)
    modifies dst
    ensures dst[..token] == EncodeAll(qs)
    ensures forall k :: Bound(p) <= k < dst.Length ==> dst[k] == old(dst[k])
    ensures step == Encoded ==>
              && op == token + |LiteralPart(p.text[anchor..ip], 0)| && op + 2 <= Bound(p)
              && dst[token..op] == LiteralPart(p.text[anchor..ip], 0)
    ensures step == Encoded && p.output == LimitedOutput ==> op + 2 <= p.olimit
    ensures step == Rewind ==> p.output == FillOutput
    ensures step == NoRoom ==> p.output == LimitedOutput && p.olimit < p.Size() + p.Size() / 255 + 16
  {
    hide EncodeAll, LiteralPart;
    var litLength := ip - anchor;
    op := token + 1;
    ExtraSize(litLength);
    RunSize(anchor - p.h, litLength, token);
    LiteralPartSize(p.text[anchor..ip], 0);
    if p.output == LimitedOutput && op + litLength + (2 + 1 + LASTLITERALS) + litLength / 255 > p.olimit {
      return NoRoom, token;
    }
    if p.output == FillOutput &&
       op + (litLength + 240) / 255 + litLength + 2 + 1 + MFLIMIT - MINMATCH > p.olimit {
      return Rewind, token;
    }
    ghost var head := dst[..token];
    op := EmitLiterals(dst, token, p.text, anchor, ip);
    assert dst[..token] == head;
    return Encoded, op;
  }

  lemma LiteralPartSize(lits: seq<byte>, low: nat)
    requires low <= 15
    ensures |LiteralPart(lits, low)| == 1 + (|lits| + 240) / 255 + |lits|
  {
    ExtraSize(|lits|);
  }

  lemma ShortenedCode(room: nat, matchCode: nat)
    requires 9 <= room && 6 + (matchCode + 240) / 255 > room
    ensures var newCode := 15 - 1 + (room - 1 - LASTLITERALS) * 255;
            newCode < matchCode && (newCode + 240) / 255 == room - 6 && 15 <= newCode
  {
  }

  /** Filling the output: after a match was shortened, drop the positions already entered that now
      lie ahead of the input cursor. */
  method ClearAhead(p: Params, table: array<nat>, ip: nat, filledIp: nat)
    requires p.Valid() && p.start == 0 && p.h < ip && filledIp + MFLIMIT <= |p.text|
    requires TableInv(p, table[..], filledIp + 1)
    modifies table
    ensures TableInv(p, table[..], if ip <= filledIp then ip else filledIp + 1)
  {
    hide HashPosition;
    var ptr := ip;
    while ptr <= filledIp
      invariant ip <= ptr && (ip <= filledIp ==> ptr <= filledIp + 1)
      invariant TableInv(p, table[..], filledIp + 1)
      invariant forall slot :: 0 <= slot < TABLE_SIZE ==>
                  var pos := table[slot] - p.start + p.h; !(ip <= pos < ptr)
    {
      table[HashPosition(p.text, ptr, p.tableType)] := 0;
      ptr := ptr + 1;
    }
  }

  /** The match code that is encoded: all of it, or, filling the output, as much as its length bytes fit. */
  method FitMatch(p: Params, table: array<nat>, op: nat, ip0: nat, matchCode0: nat, filledIp: nat)
    returns (step: Step, matchCode: nat)
    requires p.Valid() && p.h <= ip0 && filledIp + MFLIMIT <= |p.text|
    requires ip0 + MINMATCH + matchCode0 + LASTLITERALS <= |p.text|
    requires p.output == FillOutput ==> op + 9 <= p.olimit
    requires TableInv(p, table[..], (if filledIp < ip0 then ip0 else filledIp) + 1)
    requires filledIp < ip0 + MINMATCH + matchCode0
    modifies table
    ensures matchCode <= matchCode0 && step != Rewind
    ensures step == Encoded && p.output != NotLimited ==> op + (1 + LASTLITERALS) + (matchCode + 240) / 255 <= p.olimit
    ensures step == Encoded ==> TableInv(p, table[..], ip0 + MINMATCH + matchCode)
    ensures step == NoRoom ==> p.output == LimitedOutput && TableInv(p, table[..], |p.text|)
    ensures step == NoRoom ==> matchCode == matchCode0 && op + (1 + LASTLITERALS) + (matchCode + 240) / 255 > p.olimit
    ensures p.output != FillOutput ==> matchCode == matchCode0
    ensures matchCode < matchCode0 ==> 15 <= matchCode && op + (1 + LASTLITERALS) + (matchCode + 240) / 255 == p.olimit
  {
    hide TableInv;
    matchCode := matchCode0;
    if p.output != NotLimited && op + (1 + LASTLITERALS) + (matchCode + 240) / 255 > p.olimit {
      if p.output == LimitedOutput {
        TableLater(p, table[..], (if filledIp < ip0 then ip0 else filledIp) + 1, |p.text|);
        return NoRoom, matchCode;
      }
      ShortenedCode(p.olimit - op, matchCode);
      matchCode := 15 - 1 + (p.olimit - op - 1 - LASTLITERALS) * 255;
    }
    var ip := ip0 + MINMATCH + matchCode;
    if matchCode < matchCode0 && ip <= filledIp {
      ClearAhead(p, table, ip, filledIp);
    } else {
      TableLater(p, table[..], (if filledIp < ip0 then ip0 else filledIp) + 1, ip);
    }
    return Encoded, matchCode;
  }

  /** The last position entered before a match is covered by it, unless the output is about to end. */
  ghost predicate FilledOk(p: Params, ip0: nat, mtch: nat, op0: nat, filledIp: nat) {
    || (p.output == FillOutput && op0 + 2 + 1 + MFLIMIT - MINMATCH > p.olimit)
    || filledIp < ip0
    || (mtch < ip0 && Repeats(p.text, ip0, filledIp + MINMATCH, ip0 - mtch))
  }

  /** Offset and match length behind the literals: one more sequence is written. */
  method WriteMatch(p: Params, dst: array<byte>, token: nat, op0: nat, anchor: nat, ip0: nat, offset: nat,
                    matchCode: nat, ghost qs: seq<Sequence>, ghost lastStart: nat)
    returns (op: nat, ghost qs2: seq<Sequence>)
    requires Tiled(p, qs, anchor, lastStart) && token < op0
    requires anchor <= ip0 && ip0 + MFLIMIT <= |p.text| && ip0 + MINMATCH + matchCode + LASTLITERALS <= |p.text|
    requires 1 <= offset <= DISTANCE_MAX && Repeats(p.text, ip0, ip0 + MINMATCH + matchCode, offset)
    requires op0 + |MatchPart(offset, matchCode + MINMATCH)| + 3 <= dst.Length
    requires dst[..token] == EncodeAll(qs) && dst[token..op0] == LiteralPart(p.text[anchor..ip0], 0)
    modifies dst
    ensures op == op0 + |MatchPart(offset, matchCode + MINMATCH)| && dst[..op] == EncodeAll(qs2) && qs2 != []
    ensures Tiled(p, qs2, ip0 + MINMATCH + matchCode, ip0)
    ensures forall k :: op + 3 <= k < dst.Length ==> dst[k] == old(dst[k])
  {
    hide EncodeAll, LiteralPart, MatchPart, Tiled, Nibble, Extra;
    TokenOf(dst[..], token, op0, p.text[anchor..ip0]);
    ghost var d := dst[..];
    op := EmitMatch(dst, token, op0, offset, matchCode);
    ghost var q := Seq(p.text[anchor..ip0], offset, matchCode + MINMATCH);
    qs2 := qs + [q];
    TiledMore(p, qs, anchor, lastStart, ip0, offset, matchCode + MINMATCH);
    assert dst[..token] == d[..token];
    NibbleAdded(d, dst[..], token, op0, q.literals, Nibble(matchCode));
    Appended(dst[..], token, op0, op, qs, q, q.literals);
  }

  /** From the label _next_match up to the decision on the match length. */
  method ChooseMatch(p: Params, table: array<nat>, op: nat, ip: nat, mtch: nat, filledIp: nat)
    returns (step: Step, matchCode: nat)
    requires p.Valid() && p.h <= ip && ip + MFLIMIT <= |p.text| && GoodMatch(p, ip, mtch)
    requires filledIp + MFLIMIT <= |p.text| && FilledOk(p, ip, mtch, op, filledIp)
    requires TableInv(p, table[..], (if filledIp < ip then ip else filledIp) + 1)
    modifies table
    ensures step != Encoded ==> TableInv(p, table[..], |p.text|)
    ensures step == Rewind ==> p.output == FillOutput
    ensures step != Rewind ==> ip + MINMATCH + matchCode + LASTLITERALS <= |p.text|
    ensures step == NoRoom ==>
            p.output == LimitedOutput && op + 2 + (1 + LASTLITERALS) + (matchCode + 240) / 255 > p.olimit
    ensures step == Encoded ==>
              && 1 <= ip - mtch <= DISTANCE_MAX && Repeats(p.text, ip, ip + MINMATCH + matchCode, ip - mtch)
              && TableInv(p, table[..], ip + MINMATCH + matchCode)
              && (p.output != NotLimited ==> op + 2 + (1 + LASTLITERALS) + (matchCode + 240) / 255 <= p.olimit)
              && (p.output == FillOutput ==> op + 2 + 1 + MFLIMIT - MINMATCH <= p.olimit)
              && (filledIp < ip + MINMATCH + matchCode ||
                    (p.output == FillOutput && op + 2 + (1 + LASTLITERALS) + (matchCode + 240) / 255 == p.olimit))
  {
    hide TableInv, GoodMatch, FilledOk, Repeats;
    if p.output == FillOutput && op + 2 + 1 + MFLIMIT - MINMATCH > p.olimit {
      TableLater(p, table[..], (if filledIp < ip then ip else filledIp) + 1, |p.text|);
      return Rewind, 0;
    }
    var full := MatchCode(p, ip, mtch);
    Covered(p, ip, mtch, op, filledIp, full);
    step, matchCode := FitMatch(p, table, op + 2, ip, full, filledIp);
    RepeatsLess(p.text, ip, ip + MINMATCH + full, ip + MINMATCH + matchCode, ip - mtch);
  }

  /** From the label _next_match to the end of the sequence. */
  method EncodeMatch(p: Params, dst: array<byte>, table: array<nat>, token: nat, op0: nat, anchor: nat, ip0: nat,
                     mtch: nat, filledIp: nat, ghost qs: seq<Sequence>, ghost lastStart: nat)
    returns (step: Step, op: nat, ip: nat, ghost qs2: seq<Sequence>)
    requires p.Valid() && p.h <= anchor <= ip0 && ip0 + MFLIMIT <= |p.text| && Bound(p) <= dst.Length
    requires Tiled(p, qs, anchor, lastStart) && Roomy(p, qs != [], anchor, lastStart, token) && GoodMatch(p, ip0, mtch)
    requires op0 == token + |LiteralPart(p.text[anchor..ip0], 0)| && op0 + 2 <= Bound(p)
    requires dst[..token] == EncodeAll(qs) && dst[token..op0] == LiteralPart(p.text[anchor..ip0], 0)
    requires filledIp + MFLIMIT <= |p.text| && FilledOk(p, ip0, mtch, op0, filledIp)
    requires TableInv(p, table[..], (if filledIp < ip0 then ip0 else filledIp) + 1)
    modifies dst, table
    ensures forall k :: Bound(p) <= k < dst.Length ==> dst[k] == old(dst[k])
    ensures step == Encoded ==> qs2 != [] && op <= dst.Length && dst[..op] == EncodeAll(qs2)
    ensures step == Encoded ==> Tiled(p, qs2, ip, ip0) && Roomy(p, true, ip, ip0, op)
    ensures step == Encoded ==> ip0 + MINMATCH <= ip && ip + LASTLITERALS <= |p.text| && TableInv(p, table[..], ip)
    ensures step == Encoded ==> filledIp < ip || (p.output == FillOutput && op + 6 == p.olimit)
    ensures step == Rewind ==> p.output == FillOutput && dst[..token] == EncodeAll(qs)
    ensures step != Encoded ==> TableInv(p, table[..], |p.text|)
    ensures step == NoRoom ==> p.output == LimitedOutput && p.olimit < p.Size() + p.Size() / 255 + 16
  {
    hide TableInv, EncodeAll, LiteralPart, MatchPart, Tiled, Roomy, Nibble, Extra, GoodMatch, FilledOk, Repeats;
    LiteralPartSize(p.text[anchor..ip0], 0);
    op, ip, qs2 := op0, ip0, qs;
    var matchCode;
    step, matchCode := ChooseMatch(p, table, op, ip, mtch, filledIp);
    if step == NoRoom {
      Insufficient(p, qs != [], anchor, lastStart, token, ip0, matchCode);
    }
    if step == Encoded {
      MatchPartSize(ip - mtch, matchCode + MINMATCH);
      RoomyAfter(p, qs != [], anchor, lastStart, token, ip0, matchCode);
      op, qs2 := WriteMatch(p, dst, token, op, anchor, ip0, ip0 - mtch, matchCode, qs, lastStart);
      ip := ip0 + MINMATCH + matchCode;
    }
  }

  /** The whole match covers the position it was found for. */
  lemma Covered(p: Params, ip0: nat, mtch: nat, op0: nat, filledIp: nat, full: nat)
    requires GoodMatch(p, ip0, mtch) && FilledOk(p, ip0, mtch, op0, filledIp) && filledIp + MFLIMIT <= |p.text|
    requires !(p.output == FillOutput && op0 + 2 + 1 + MFLIMIT - MINMATCH > p.olimit)
    requires ip0 + MINMATCH + full + LASTLITERALS <= |p.text|
    requires var end := ip0 + MINMATCH + full;
             end + LASTLITERALS == |p.text| || p.text[end] != p.text[end - (ip0 - mtch)]
    ensures 1 <= ip0 - mtch <= DISTANCE_MAX && filledIp < ip0 + MINMATCH + full
  {
  }

  lemma RepeatsLess(t: seq<byte>, from: nat, hi: nat, hi2: nat, off: nat)
    requires Repeats(t, from, hi, off) && hi2 <= hi
    ensures Repeats(t, from, hi2, off)
  {
  }

  /** Where the output stands once a sequence is written. */
  function After(token: nat, ll: nat, matchCode: nat): nat {
    token + 1 + (ll + 240) / 255 + ll + 2 + (matchCode + 240) / 255
  }

  lemma RoomyAfter(p: Params, some: bool, anchor: nat, lastStart: nat, token: nat, ip0: nat, matchCode: nat)
    requires p.Valid() && Roomy(p, some, anchor, lastStart, token) && anchor <= ip0
    requires ip0 + MINMATCH + matchCode + LASTLITERALS <= |p.text|
    requires var op := After(token, ip0 - anchor, matchCode);
             && (p.output == LimitedOutput ==> op + LASTLITERALS <= p.olimit)
             && (p.output == FillOutput ==>
                   op + 1 + LASTLITERALS <= p.olimit && matchCode + MINMATCH + (p.olimit - op - 1) >= MFLIMIT)
    ensures var op := After(token, ip0 - anchor, matchCode);
            && op + 3 <= Bound(p)
            && Roomy(p, true, ip0 + MINMATCH + matchCode, ip0, op)
  {
    SequenceSize(anchor - p.h, ip0 - anchor, matchCode + MINMATCH, token);
  }

  /** A capacity that stops a sequence is below the worst-case bound. */
  lemma Insufficient(p: Params, some: bool, anchor: nat, lastStart: nat, token: nat, ip0: nat, matchCode: nat)
    requires p.Valid() && Roomy(p, some, anchor, lastStart, token) && anchor <= ip0
    requires ip0 + MINMATCH + matchCode + LASTLITERALS <= |p.text|
    requires After(token, ip0 - anchor, matchCode) + 1 + LASTLITERALS > p.olimit
    ensures p.olimit < p.Size() + p.Size() / 255 + 16
  {
    SequenceSize(anchor - p.h, ip0 - anchor, matchCode + MINMATCH, token);
  }

  lemma TokenOf(d: seq<byte>, token: nat, op: nat, lits: seq<byte>)
    requires token <= op <= |d| && d[token..op] == LiteralPart(lits, 0)
    ensures token < op && d[token] % 16 == 0
  {
    assert d[token] == d[token..op][0];
  }

  lemma MatchPartSize(offset: nat, matchLength: nat)
    requires offset <= DISTANCE_MAX && matchLength >= MINMATCH
    ensures |MatchPart(offset, matchLength)| == 2 + (matchLength - MINMATCH + 240) / 255
  {
    ExtraSize(matchLength - MINMATCH);
  }

  // ----- the whole call -----

  /** Behind a match: enter ip - 2, and look whether a match starts right at ip. */
  method TestNextPosition(p: Params, table: array<nat>, ip: nat) returns (found: bool, mtch: nat)
    requires p.Valid() && p.h + 2 < ip && ip + 11 < |p.text| && TableInv(p, table[..], ip)
    modifies table
    ensures TableInv(p, table[..], ip + 1)
    ensures found ==> GoodMatch(p, ip, mtch)
  {
    hide HashPosition;
    PutPosition(p, table, ip - 2, HashPosition(p.text, ip - 2, p.tableType), ip);
    var h := HashPosition(p.text, ip, p.tableType);
    var matchIndex := table[h];
    TableLater(p, table[..], ip, ip + 1);
    PutPosition(p, table, ip, h, ip + 1);
    found, mtch := TryEntry(p, matchIndex, ip, h);
  }

  /** How long the last run may be when it has to end at the capacity. */
  lemma FittedRun(room: nat, lastRun: nat)
    requires 1 <= room && lastRun + 1 + (lastRun + 240) / 255 > room
    ensures var run := room - 1 - (room - 1 + 241) / 256;
            && 0 <= run <= lastRun && 1 + (run + 240) / 255 + run <= room
            && (room - 1 >= 5 ==> run >= 5) && (room - 1 >= 8 ==> run >= 8)
            && (room - 1 < 15 ==> run == room - 1)
  {
  }

  /** The length of the final run, cut to the capacity when filling the output. */
  method LastRun(p: Params, op: nat, anchor: nat, ghost some: bool, ghost lastStart: nat)
    returns (fits: bool, lastRun: nat)
    requires p.Valid() && p.h <= anchor <= |p.text| && Roomy(p, some, anchor, lastStart, op)
    requires some ==>
             lastStart + MINMATCH <= anchor && lastStart + MFLIMIT <= |p.text| && anchor + LASTLITERALS <= |p.text|
    ensures !fits ==> p.output == LimitedOutput && p.olimit < p.Size() + p.Size() / 255 + 16
    ensures fits ==> anchor + lastRun <= |p.text| && op + 1 + (lastRun + 240) / 255 + lastRun <= Bound(p)
    ensures fits && some ==> LASTLITERALS <= lastRun && lastStart + MFLIMIT <= anchor + lastRun
    ensures fits && p.output != FillOutput ==> anchor + lastRun == |p.text|
  {
    lastRun := |p.text| - anchor;
    RunSize(anchor - p.h, lastRun, op);
    if p.output != NotLimited && op + lastRun + 1 + (lastRun + 255 - RUN_MASK) / 255 > p.olimit {
      if p.output == LimitedOutput {
        return false, 0;
      }
      FittedRun(p.olimit - op, lastRun);
      lastRun := p.olimit - op - 1;
      lastRun := lastRun - (lastRun + 256 - RUN_MASK) / 256;
    }
    fits := true;
  }

  /** From the label _last_literals. Returns 0 when the final run does not fit the capacity given. */
  method EncodeLast(p: Params, dst: array<byte>, op0: nat, anchor: nat, ghost qs: seq<Sequence>, ghost lastStart: nat)
    returns (r: nat, consumed: nat)
    requires p.Valid() && p.h <= anchor <= |p.text| && Bound(p) <= dst.Length
    requires Tiled(p, qs, anchor, lastStart) && Roomy(p, qs != [], anchor, lastStart, op0)
             && dst[..op0] == EncodeAll(qs)
    modifies dst
    ensures forall k :: Bound(p) <= k < dst.Length ==> dst[k] == old(dst[k])
    ensures r <= Bound(p) && consumed <= p.Size()
    ensures r == 0 ==> p.output == LimitedOutput && p.olimit < p.Size() + p.Size() / 255 + 16
    ensures r > 0 ==> Written(p, dst[..r], consumed)
    ensures p.output != FillOutput && r > 0 ==> consumed == p.Size()
  {
    hide EncodeAll, LiteralPart, Tiled, Roomy, Written;
    if qs != [] { TiledEnd(p, qs, anchor, lastStart); }
    var fits, lastRun := LastRun(p, op0, anchor, qs != [], lastStart);
    if !fits {
      return 0, 0;
    }
    LiteralPartSize(p.text[anchor..anchor + lastRun], 0);
    ghost var head := dst[..op0];
    r := EmitLast(dst, op0, p.text, anchor, lastRun);
    consumed := anchor + lastRun - p.h;
    assert dst[..op0] == head;
    assert dst[..r] == dst[..op0] + dst[op0..r];
    Finish(p, dst[..r], qs, anchor, lastStart, lastRun);
  }

  lemma TiledEnd(p: Params, qs: seq<Sequence>, anchor: nat, lastStart: nat)
    requires Tiled(p, qs, anchor, lastStart) && qs != []
    ensures lastStart + MINMATCH <= anchor && lastStart + MFLIMIT <= |p.text| && anchor + LASTLITERALS <= |p.text|
  {
  }

  /** The result of a successful call: the block conforms, and decodes to the first `consumed` bytes. */
  ghost predicate Written(p: Params, block: seq<byte>, consumed: nat)
    requires p.h <= |p.text|
  {
    && consumed <= p.Size()
    && Decode(block, 0, p.Hist()) == Done(p.text[..p.h + consumed])
    && Conforming(block, 0, p.Hist(), p.h + consumed)
  }

  lemma {:induction false} Finish(p: Params, block: seq<byte>, qs: seq<Sequence>, anchor: nat, lastStart: nat, run: nat)
    requires Tiled(p, qs, anchor, lastStart) && anchor + run <= |p.text|
    requires block == EncodeAll(qs) + LiteralPart(p.text[anchor..anchor + run], 0)
    requires qs != [] ==> 5 <= run && lastStart + MFLIMIT <= anchor + run
    ensures Written(p, block, anchor + run - p.h)
  {
    hide EncodeAll, LiteralPart, Decode, Conforming, ValidSequences, Expand;
    EncodeDecodes(block, qs, p.text[anchor..anchor + run], p.Hist());
    assert p.text[..anchor] + p.text[anchor..anchor + run] == p.text[..anchor + run];
    assert EndRules(p.Hist(), qs, anchor + run);
  }

  /** The token of a match that directly follows another one. */
  method EmptyToken(p: Params, dst: array<byte>, token: nat, ip: nat, ghost qs: seq<Sequence>, ghost lastStart: nat)
    returns (op: nat)
    requires p.Valid() && p.h <= ip && ip + MFLIMIT <= |p.text| && Bound(p) <= dst.Length
    requires qs != [] && Roomy(p, true, ip, lastStart, token) && dst[..token] == EncodeAll(qs)
    modifies dst
    ensures op == token + |LiteralPart(p.text[ip..ip], 0)| && op + 2 <= Bound(p)
    ensures dst[..token] == EncodeAll(qs) && dst[token..op] == LiteralPart(p.text[ip..ip], 0)
    ensures forall k :: Bound(p) <= k < dst.Length ==> dst[k] == old(dst[k])
  {
    hide EncodeAll;
    ghost var head := dst[..token];
    dst[token] := 0;
    op := token + 1;
    assert p.text[ip..ip] == [] && LiteralPart([], 0) == [0];
    assert dst[..token] == head && dst[token..op] == [0];
  }

  /** Behind a match: whether the next one follows it at once, under an empty run of literals. */
  method NextMatch(p: Params, dst: array<byte>, table: array<nat>, op0: nat, ip: nat, filledIp: nat,
                   ghost qs: seq<Sequence>, ghost lastStart: nat) returns (step: Step, found: bool, op: nat, mtch: nat)
    requires p.Valid() && p.h + 2 < ip <= |p.text| && Bound(p) <= dst.Length && filledIp + MFLIMIT <= |p.text|
    requires qs != [] && op0 <= dst.Length && Roomy(p, true, ip, lastStart, op0) && dst[..op0] == EncodeAll(qs)
    requires TableInv(p, table[..], ip) && (filledIp < ip || (p.output == FillOutput && op0 + 6 == p.olimit))
    modifies dst, table
    ensures forall k :: Bound(p) <= k < dst.Length ==> dst[k] == old(dst[k])
    ensures op0 <= op <= dst.Length && dst[..op0] == EncodeAll(qs) && step != NoRoom
    ensures step == Rewind ==> !found && TableInv(p, table[..], |p.text|)
    ensures step == Encoded ==> ip + MFLIMIT <= |p.text|
    ensures step == Encoded && !found ==> TableInv(p, table[..], ip + 1)
    ensures found ==> op == op0 + |LiteralPart(p.text[ip..ip], 0)| && op + 2 <= Bound(p)
    ensures found ==> dst[op0..op] == LiteralPart(p.text[ip..ip], 0) && GoodMatch(p, ip, mtch)
    ensures found ==> FilledOk(p, ip, mtch, op, filledIp)
    ensures found ==> TableInv(p, table[..], (if filledIp < ip then ip else filledIp) + 1)
  {
    hide TableInv, EncodeAll, LiteralPart, Roomy, GoodMatch;
    op, mtch, found := op0, 0, false;
    if ip + 11 >= |p.text| {
      TableLater(p, table[..], ip, |p.text|);
      return Rewind, found, op, mtch;
    }
    step := Encoded;
    found, mtch := TestNextPosition(p, table, ip);
    if found {
      op := EmptyToken(p, dst, op0, ip, qs, lastStart);
      if filledIp >= ip {
        TableLater(p, table[..], ip + 1, filledIp + 1);
      }
    }
  }

  /** A match and the matches that follow it without literals in between. */
  method EncodeMatches(p: Params, dst: array<byte>, table: array<nat>, token0: nat, op0: nat, anchor0: nat, ip0: nat,
                       mtch0: nat, filledIp: nat, ghost qs0: seq<Sequence>, ghost lastStart0: nat)
    returns (step: Step, op: nat, anchor: nat, ghost qs: seq<Sequence>, ghost lastStart: nat)
    requires p.Valid() && p.h <= anchor0 <= ip0 && ip0 + MFLIMIT <= |p.text| && Bound(p) <= dst.Length
    requires Tiled(p, qs0, anchor0, lastStart0) && Roomy(p, qs0 != [], anchor0, lastStart0, token0)
             && GoodMatch(p, ip0, mtch0)
    requires op0 == token0 + |LiteralPart(p.text[anchor0..ip0], 0)| && op0 + 2 <= Bound(p)
    requires dst[..token0] == EncodeAll(qs0) && dst[token0..op0] == LiteralPart(p.text[anchor0..ip0], 0)
    requires filledIp + MFLIMIT <= |p.text| && FilledOk(p, ip0, mtch0, op0, filledIp)
    requires TableInv(p, table[..], (if filledIp < ip0 then ip0 else filledIp) + 1)
    modifies dst, table
    ensures forall k :: Bound(p) <= k < dst.Length ==> dst[k] == old(dst[k])
    ensures step != NoRoom ==> p.h <= anchor <= |p.text| && Tiled(p, qs, anchor, lastStart)
    ensures step != NoRoom ==>
            op <= dst.Length && Roomy(p, qs != [], anchor, lastStart, op) && dst[..op] == EncodeAll(qs)
    ensures step == Rewind ==> TableInv(p, table[..], |p.text|)
    ensures step == Encoded ==> anchor0 < anchor && anchor + 11 < |p.text| && TableInv(p, table[..], anchor + 1)
    ensures step == NoRoom ==> p.output == LimitedOutput && p.olimit < p.Size() + p.Size() / 255 + 16
    ensures step == NoRoom ==> TableInv(p, table[..], |p.text|)
  {
    hide TableInv, EncodeAll, LiteralPart, Tiled, Roomy, GoodMatch, FilledOk;
    var token: nat, ip: nat, mtch: nat := token0, ip0, mtch0;
    op, anchor, qs, lastStart := op0, anchor0, qs0, lastStart0;
    while true
      invariant p.h <= anchor <= ip && anchor0 <= anchor && ip + MFLIMIT <= |p.text|
      invariant Tiled(p, qs, anchor, lastStart) && Roomy(p, qs != [], anchor, lastStart, token)
                && GoodMatch(p, ip, mtch)
      invariant op == token + |LiteralPart(p.text[anchor..ip], 0)| && op + 2 <= Bound(p)
      invariant dst[..token] == EncodeAll(qs) && dst[token..op] == LiteralPart(p.text[anchor..ip], 0)
      invariant FilledOk(p, ip, mtch, op, filledIp)
      invariant TableInv(p, table[..], (if filledIp < ip then ip else filledIp) + 1)
      invariant forall k :: Bound(p) <= k < dst.Length ==> dst[k] == old(dst[k])
      decreases |p.text| - ip
    {
      ghost var start, qs2 := ip, qs;
      step, op, ip, qs2 := EncodeMatch(p, dst, table, token, op, anchor, ip, mtch, filledIp, qs, lastStart);
      if step != Encoded {
        op := token;
        return;
      }
      anchor, qs, lastStart := ip, qs2, start;
      var found;
      token := op;
      step, found, op, mtch := NextMatch(p, dst, table, token, ip, filledIp, qs, lastStart);
      if !found {
        return step, token, anchor, qs, lastStart;
      }
    }
  }

  /** LZ4_compress_generic_validated. Whatever the entries an admissible table holds, a positive
      result is the size of a conforming block that decodes to the consumed part of the source:
      all of it, except when filling the output. The block, and every byte scribbled beside it,
      stays below Bound; a call fails only when the capacity is below the worst-case bound. */
  method CompressValidated(p: Params, dst: array<byte>, table: array<nat>) returns (r: nat, consumed: nat)
    requires p.Valid() && 1 <= p.Size() && Bound(p) <= dst.Length && TableInv(p, table[..], p.h + 1)
    modifies dst, table
    ensures forall k :: Bound(p) <= k < dst.Length ==> dst[k] == old(dst[k])
    ensures r <= Bound(p) && consumed <= p.Size()
    ensures r > 0 ==> Written(p, dst[..r], consumed)
    ensures p.output != FillOutput && r > 0 ==> consumed == p.Size()
    ensures r == 0 ==> p.output != NotLimited && p.olimit < p.Size() + p.Size() / 255 + 16
    ensures r == 0 && p.output == FillOutput ==> p.olimit == 0
    ensures TableInv(p, table[..], |p.text|)
  {
    hide TableInv, EncodeAll, LiteralPart, Tiled, Roomy, GoodMatch, Written, HashPosition;
    if p.output == FillOutput && p.olimit < 1 {
      TableLater(p, table[..], p.h + 1, |p.text|);
      return 0, 0;
    }
    ghost var qs, lastStart: nat := [], p.h;
    var ip: nat, anchor: nat, op: nat := p.h, p.h, 0;
    NothingWritten(p);
    assert dst[..0] == EncodeAll(qs) by { NothingEncoded(dst[..0]); }
    if p.Size() < MIN_LENGTH {
      TableLater(p, table[..], p.h + 1, |p.text|);
      r, consumed := EncodeLast(p, dst, op, anchor, qs, lastStart);
      return;
    }
    PutPosition(p, table, ip, HashPosition(p.text, ip, p.tableType), ip + 1);
    ip := ip + 1;
    var step;
    while true
      invariant p.h <= anchor < ip && ip + 11 <= |p.text| && TableInv(p, table[..], ip)
      invariant Tiled(p, qs, anchor, lastStart) && Roomy(p, qs != [], anchor, lastStart, op)
      invariant op <= dst.Length && dst[..op] == EncodeAll(qs)
      invariant forall k :: Bound(p) <= k < dst.Length ==> dst[k] == old(dst[k])
      decreases |p.text| - anchor
    {
      var found, mtch;
      found, ip, mtch := Search(p, table, ip, HashPosition(p.text, ip, p.tableType));
      if !found {
        break;
      }
      var filledIp, token := ip, op;
      ip, mtch := CatchUp(p, ip, mtch, anchor);
      step, op := EncodeLiterals(p, dst, token, anchor, ip, qs, lastStart);
      if step == NoRoom {
        TableLater(p, table[..], filledIp + 1, |p.text|);
        return 0, 0;
      }
      if step == Rewind {
        op := token;
        TableLater(p, table[..], filledIp + 1, |p.text|);
        break;
      }
      step, op, anchor, qs, lastStart :=
          EncodeMatches(p, dst, table, token, op, anchor, ip, mtch, filledIp, qs, lastStart);
      if step == NoRoom {
        return 0, 0;
      }
      if step == Rewind {
        break;
      }
      ip := anchor + 1;
    }
    r, consumed := EncodeLast(p, dst, op, anchor, qs, lastStart);
  }

  lemma NothingWritten(p: Params)
    requires p.Valid() && (p.output == FillOutput ==> 1 <= p.olimit)
    ensures Tiled(p, [], p.h, p.h) && Roomy(p, false, p.h, p.h, 0)
  {
  }

  lemma NothingEncoded(d: seq<byte>)
    requires |d| == 0
    ensures d == EncodeAll([])
  {
  }
}
