/** The lazy HC parser (LZ4HC_compress_hashChain): up to three overlapping matches are squeezed, trimmed
    and dropped before anything is written. The labels of the original are control states. */
module Lz4hcLazy {
  import opened Lz4Format
  import opened Lz4Copy
  import opened Lz4Compressor
  import opened Lz4hcEncode
  import opened Lz4hcSearch

  const OPTIMAL_ML := 18

  /** Where the parser is. MainLoop looks for a first match, Search2 for a second one, Search3 for a
      third; DestOverflow holds the match that did not fit. */
  datatype Control =
    | MainLoop(ip: nat)
    | Search2(ip: nat, m1: Found, start0: nat, m0: Found)
    | Search3(ip: nat, m1: Found, start2: nat, m2: Found)
    | DestOverflow(ip: nat, m1: Found)

  /** A match that can be written as it is. */
  ghost predicate IsMatch(p: Params, start: int, m: Found) {
    MINMATCH <= m.len && TrueMatch(p, start, m.len, m.off)
  }

  /** What holds at each label. All matches are true ones behind what has been written; they start early
      enough for the end rules; the next search lies beyond the last one, at `searched`. */
  ghost predicate Holds(p: Params, c: Control, anchor: nat, searched: int) {
    match c
    case MainLoop(ip) => anchor <= ip && searched < ip
    case Search2(ip, m1, start0, m0) =>
      && anchor <= start0 <= ip <= start0 + 2 && ip + MFLIMIT <= |p.text| && IsMatch(p, ip, m1)
         && IsMatch(p, start0, m0)
      && ((start0 == ip && m0 == m1) || start0 + m0.len + MFLIMIT <= |p.text|) && searched + MINMATCH <= ip + m1.len
    case Search3(ip, m1, start2, m2) =>
      && anchor <= ip && IsMatch(p, ip, m1) && IsMatch(p, start2, m2) && ip + m1.len + MFLIMIT <= |p.text|
      && ip + 2 <= start2 <= ip + m1.len + 1 && start2 + MFLIMIT <= |p.text|
      && (ip + 4 <= start2 || 8 <= start2 - ip + m2.len) && searched + MINMATCH <= start2 + m2.len
    case DestOverflow(ip, m1) => anchor <= ip && ip + MFLIMIT <= |p.text| && IsMatch(p, ip, m1)
  }

  /** A search at `at`, widened back to `iLow`: nothing, or a longer match that starts at `start`. */
  method Find(p: Params, hc: HashChain, at: nat, iLow: nat, longest: nat, maxNbAttempts: nat)
    returns (m: Found, start: nat)
    requires hc.Valid(p.text) && hc.nextToUpdate <= hc.base + at && p.h <= iLow && Searchable(p.text, at, iLow, longest)
    requires iLow + longest + LASTLITERALS <= |p.text|
    modifies hc`nextToUpdate, hc.hashTable, hc.chainTable
    ensures hc.Valid(p.text) && hc.nextToUpdate == hc.base + at && longest <= m.len
    ensures m.len > longest ==> iLow <= start <= at && at + MINMATCH <= start + m.len && IsMatch(p, start, m)
  {
    ghost var visited;
    m, visited :=
        hc.InsertAndGetWiderMatch(p.text, at, iLow, longest, maxNbAttempts, maxNbAttempts > 128, false, false);
    start := at + m.back;
  }

  /** LZ4HC_encodeSequence on the parser's variables. */
  method Encode(p: Params, dst: array<byte>, op0: nat, anchor0: nat, ip: nat, m: Found, ghost qs0: seq<Sequence>,
                ghost lastStart0: nat)
    returns (full: bool, op: nat, anchor: nat, ghost qs: seq<Sequence>, ghost lastStart: nat)
    requires p.Valid() && Progress(p, dst[..], op0, anchor0, qs0, lastStart0)
    requires anchor0 <= ip && ip + MFLIMIT <= |p.text| && IsMatch(p, ip, m)
    modifies dst
    ensures forall k :: Bound(p) <= k < dst.Length ==> dst[k] == old(dst[k])
    ensures full ==> p.output != NotLimited && op == op0 && anchor == anchor0
    ensures full && p.output == LimitedOutput ==> p.olimit < p.Size() + p.Size() / 255 + 16
    ensures !full ==> anchor == ip + m.len
    ensures anchor0 <= anchor
    ensures Progress(p, dst[..], op, anchor, qs, lastStart)
  {
    hide Progress, TrueMatch;
    op, anchor, qs, lastStart := op0, anchor0, qs0, lastStart0;
    ghost var qs2;
    var op2;
    MatchInText(p, ip, m);
    full, op2, qs2 := EncodeSequenceHc(p, dst, p.output != NotLimited, op, anchor, ip, m.len, m.off, qs, lastStart);
    if !full {
      op, anchor, qs, lastStart := op2, ip + m.len, qs2, ip;
    }
  }

  /** The head of the main loop. */
  method FirstMatch(p: Params, hc: HashChain, maxNbAttempts: nat, ip: nat, ghost anchor: nat, ghost searched: int)
    returns (c: Control, ghost searched2: int)
    requires p.Valid() && p.h <= anchor && ip + MFLIMIT <= |p.text| && Holds(p, MainLoop(ip), anchor, searched)
    requires hc.Valid(p.text) && hc.nextToUpdate <= hc.base + searched + 1
    modifies hc`nextToUpdate, hc.hashTable, hc.chainTable
    ensures hc.Valid(p.text) && hc.nextToUpdate <= hc.base + searched2 + 1
    ensures searched < searched2 < |p.text| && Holds(p, c, anchor, searched2) && !c.DestOverflow?
  {
    hide TrueMatch;
    var m1, start := Find(p, hc, ip, ip, MINMATCH - 1, maxNbAttempts);
    searched2 := ip;
    if m1.len < MINMATCH {
      return MainLoop(ip + 1), searched2;
    }
    return Search2(ip, m1, ip, m1), searched2;
  }

  /** The second search, unless the first match ends too late for one. */
  method SecondMatch(p: Params, hc: HashChain, maxNbAttempts: nat, ip: nat, m1: Found, ghost searched: int)
    returns (m2: Found, start2: nat, ghost searched2: int)
    requires p.Valid() && p.h <= ip && IsMatch(p, ip, m1) && ip + MFLIMIT <= |p.text|
             && searched + MINMATCH <= ip + m1.len
    requires hc.Valid(p.text) && hc.nextToUpdate <= hc.base + searched + 1
    modifies hc`nextToUpdate, hc.hashTable, hc.chainTable
    ensures hc.Valid(p.text) && hc.nextToUpdate <= hc.base + searched2 + 1
    ensures m2.len <= m1.len ==> searched <= searched2 < ip + m1.len
    ensures m2.len > m1.len ==>
              && ip + m1.len + MFLIMIT <= |p.text| && searched < searched2 < |p.text|
              && ip <= start2 <= ip + m1.len - 2 && IsMatch(p, start2, m2) && searched2 + MINMATCH <= start2 + m2.len
  {
    hide TrueMatch;
    m2, start2, searched2 := Found(0, 0, 0), 0, searched;
    if ip + m1.len + MFLIMIT <= |p.text| {
      MatchInText(p, ip, m1);
      m2, start2 := Find(p, hc, ip + m1.len - 2, ip, m1.len, maxNbAttempts);
      searched2 := ip + m1.len - 2;
    }
  }

  lemma MatchInText(p: Params, start: int, m: Found)
    requires IsMatch(p, start, m)
    ensures MINMATCH <= m.len && start + m.len + LASTLITERALS <= |p.text| && 1 <= m.off
  {
  }

  /** From the label _Search2, when a better second match was found: the first one may come back, or go. */
  method KeepOrDropFirst(p: Params, ip0: nat, m10: Found, start0: nat, m0: Found, start2: nat, m2: Found,
                         ghost anchor: nat, ghost searched: int, ghost searched2: int) returns (c: Control)
    requires p.Valid() && Holds(p, Search2(ip0, m10, start0, m0), anchor, searched) && m2.len > m10.len
    requires ip0 + m10.len + MFLIMIT <= |p.text|
    requires ip0 <= start2 <= ip0 + m10.len - 2 && IsMatch(p, start2, m2) && searched2 + MINMATCH <= start2 + m2.len
    ensures Holds(p, c, anchor, searched2) && !c.DestOverflow?
  {
    hide TrueMatch;
    var ip, m1 := ip0, m10;
    if start0 < ip {
      if start2 < ip + m0.len {
        ip, m1 := start0, m0;
      }
    }
    if start2 - ip < 3 {
      return Search2(start2, m2, start0, m0);
    }
    return Search3(ip, m1, start2, m2);
  }

  /** The length left to the first match when the second one starts inside it, and how far the
      second one is pushed back; what was ceded counts from the end of the second match. */
  function Ceded(ip: int, len: int, start2: int, len2: int): int {
    var most := if len > OPTIMAL_ML then OPTIMAL_ML else len;
    if ip + most > start2 + len2 - MINMATCH then start2 - ip + len2 - MINMATCH else most
  }

  /** The second match without its first `n` bytes. */
  function Pushed(m: Found, n: int): Found {
    m.(len := m.len - n)
  }

  /** The head of label _Search3: room for the first match. */
  method MakeRoom(p: Params, ip: nat, m1: Found, start20: nat, m20: Found, ghost anchor: nat, ghost searched: int)
    returns (start2: nat, m2: Found)
    requires p.Valid() && Holds(p, Search3(ip, m1, start20, m20), anchor, searched)
    ensures Holds(p, Search3(ip, m1, start2, m2), anchor, searched) && ip + 4 <= start2 && start20 <= start2
    ensures start2 + m2.len == start20 + m20.len
  {
    hide TrueMatch;
    start2, m2 := start20, m20;
    if start2 - ip < OPTIMAL_ML {
      var correction := Ceded(ip, m1.len, start2, m2.len) - (start2 - ip);
      if correction > 0 {
        Later(p, start2, m2, correction);
        start2, m2 := start2 + correction, Pushed(m2, correction);
      }
    }
  }

  lemma Later(p: Params, start: nat, m: Found, n: nat)
    requires IsMatch(p, start, m) && n + MINMATCH <= m.len
    ensures IsMatch(p, start + n, Pushed(m, n))
  {
    PartOfMatch(p, start, m.len, m.off, start + n, m.len - n);
  }

  lemma Shorter(p: Params, start: nat, m: Found, len: int)
    requires IsMatch(p, start, m) && MINMATCH <= len <= m.len
    ensures IsMatch(p, start, m.(len := len))
  {
    PartOfMatch(p, start, m.len, m.off, start, len);
  }

  /** The third search, unless the second match ends too late for one. */
  method ThirdMatch(p: Params, hc: HashChain, maxNbAttempts: nat, start2: nat, m2: Found, ghost searched: int)
    returns (m3: Found, start3: nat, ghost searched2: int)
    requires p.Valid() && p.h <= start2 && IsMatch(p, start2, m2) && start2 + MFLIMIT <= |p.text|
    requires searched + MINMATCH <= start2 + m2.len
    requires hc.Valid(p.text) && hc.nextToUpdate <= hc.base + searched + 1
    modifies hc`nextToUpdate, hc.hashTable, hc.chainTable
    ensures hc.Valid(p.text) && hc.nextToUpdate <= hc.base + searched2 + 1
    ensures m3.len <= m2.len ==> searched <= searched2 < start2 + m2.len && searched2 < |p.text|
    ensures m3.len > m2.len ==>
              && start2 + m2.len + MFLIMIT <= |p.text| && searched < searched2 < |p.text|
              && start2 <= start3 <= start2 + m2.len - 3 && IsMatch(p, start3, m3)
                 && searched2 + MINMATCH <= start3 + m3.len
  {
    hide TrueMatch;
    m3, start3, searched2 := Found(0, 0, 0), 0, searched;
    MatchInText(p, start2, m2);
    if start2 + m2.len + MFLIMIT <= |p.text| {
      m3, start3 := Find(p, hc, start2 + m2.len - 3, start2, m2.len, maxNbAttempts);
      searched2 := start2 + m2.len - 3;
    }
  }

  /** No third match: the first two are written. */
  method EncodeTwo(p: Params, dst: array<byte>, op0: nat, anchor0: nat, ip: nat, m10: Found, start2: nat, m2: Found,
                   ghost searched: int, ghost qs0: seq<Sequence>, ghost lastStart0: nat)
    returns (c: Control, op: nat, anchor: nat, ghost qs: seq<Sequence>, ghost lastStart: nat)
    requires p.Valid() && Progress(p, dst[..], op0, anchor0, qs0, lastStart0)
    requires anchor0 <= ip && IsMatch(p, ip, m10) && IsMatch(p, start2, m2) && ip + m10.len + MFLIMIT <= |p.text|
    requires ip + 4 <= start2 && start2 + MFLIMIT <= |p.text| && searched < start2 + m2.len
    modifies dst
    ensures forall k :: Bound(p) <= k < dst.Length ==> dst[k] == old(dst[k])
    ensures Progress(p, dst[..], op, anchor, qs, lastStart) && Holds(p, c, anchor, searched) && anchor0 <= anchor
    ensures c.MainLoop? || (c.DestOverflow? && p.output != NotLimited)
    ensures c.DestOverflow? && p.output == LimitedOutput ==> p.olimit < p.Size() + p.Size() / 255 + 16
  {
    hide Progress, TrueMatch;
    var m1 := m10;
    if start2 < ip + m1.len {
      Shorter(p, ip, m1, start2 - ip);
      m1 := m1.(len := start2 - ip);
    }
    var full;
    full, op, anchor, qs, lastStart := Encode(p, dst, op0, anchor0, ip, m1, qs0, lastStart0);
    if full {
      return DestOverflow(ip, m1), op, anchor, qs, lastStart;
    }
    full, op, anchor, qs, lastStart := Encode(p, dst, op, anchor, start2, m2, qs, lastStart);
    if full {
      return DestOverflow(start2, m2), op, anchor, qs, lastStart;
    }
    return MainLoop(start2 + m2.len), op, anchor, qs, lastStart;
  }

  /** The third match starts right behind the first: the second one goes, or becomes match 0. */
  method DropSecond(p: Params, dst: array<byte>, op0: nat, anchor0: nat, ip: nat, m1: Found, start20: nat, m20: Found,
                    start3: nat, m3: Found, ghost searched: int, ghost qs0: seq<Sequence>, ghost lastStart0: nat)
    returns (c: Control, op: nat, anchor: nat, ghost qs: seq<Sequence>, ghost lastStart: nat)
    requires p.Valid() && Progress(p, dst[..], op0, anchor0, qs0, lastStart0)
    requires anchor0 <= ip && IsMatch(p, ip, m1) && IsMatch(p, start20, m20) && IsMatch(p, start3, m3)
    requires ip + m1.len + MFLIMIT <= |p.text| && start20 + m20.len + MFLIMIT <= |p.text|
             && start3 <= start20 + m20.len - 3
    requires ip + m1.len <= start3 < ip + m1.len + 3 && start20 <= start3 && searched + MINMATCH <= start3 + m3.len
    modifies dst
    ensures forall k :: Bound(p) <= k < dst.Length ==> dst[k] == old(dst[k])
    ensures Progress(p, dst[..], op, anchor, qs, lastStart) && Holds(p, c, anchor, searched) && anchor0 <= anchor
    ensures c.Search2? || (c.DestOverflow? && p.output != NotLimited)
    ensures c.DestOverflow? && p.output == LimitedOutput ==> p.olimit < p.Size() + p.Size() / 255 + 16
  {
    hide Progress, TrueMatch;
    var start2, m2 := start20, m20;
    if start2 < ip + m1.len {
      var correction := ip + m1.len - start2;
      if m2.len - correction < MINMATCH {
        start2, m2 := start3, m3;
      } else {
        Later(p, start2, m2, correction);
        start2, m2 := start2 + correction, Pushed(m2, correction);
      }
    }
    var full;
    full, op, anchor, qs, lastStart := Encode(p, dst, op0, anchor0, ip, m1, qs0, lastStart0);
    if full {
      return DestOverflow(ip, m1), op, anchor, qs, lastStart;
    }
    return Search2(start3, m3, start2, m2), op, anchor, qs, lastStart;
  }

  /** Three ascending matches: the first one is written, the others move up. */
  method EncodeFirst(p: Params, dst: array<byte>, op0: nat, anchor0: nat, ip: nat, m10: Found, start20: nat, m20: Found,
                     start3: nat, m3: Found, ghost searched: int, ghost qs0: seq<Sequence>, ghost lastStart0: nat)
    returns (c: Control, op: nat, anchor: nat, ghost qs: seq<Sequence>, ghost lastStart: nat)
    requires p.Valid() && Progress(p, dst[..], op0, anchor0, qs0, lastStart0)
    requires anchor0 <= ip && IsMatch(p, ip, m10) && IsMatch(p, start20, m20) && IsMatch(p, start3, m3)
             && m20.len < m3.len
    requires ip + m10.len + MFLIMIT <= |p.text| && start20 + m20.len + MFLIMIT <= |p.text|
             && start3 + MFLIMIT <= |p.text|
    requires ip + 4 <= start20 <= ip + m10.len + 1 && ip + m10.len + 3 <= start3 <= start20 + m20.len - 3
    requires searched + MINMATCH <= start3 + m3.len
    modifies dst
    ensures forall k :: Bound(p) <= k < dst.Length ==> dst[k] == old(dst[k])
    ensures Progress(p, dst[..], op, anchor, qs, lastStart) && Holds(p, c, anchor, searched) && anchor0 <= anchor
    ensures c.Search3? || (c.DestOverflow? && p.output != NotLimited)
    ensures c.DestOverflow? && p.output == LimitedOutput ==> p.olimit < p.Size() + p.Size() / 255 + 16
  {
    hide Progress, TrueMatch;
    var m1, start2, m2 := m10, start20, m20;
    if start2 < ip + m1.len {
      if start2 - ip < OPTIMAL_ML {
        var len := Ceded(ip, m1.len, start2, m2.len);
        Shorter(p, ip, m1, len);
        m1 := m1.(len := len);
        var correction := m1.len - (start2 - ip);
        if correction > 0 {
          Later(p, start2, m2, correction);
          start2, m2 := start2 + correction, Pushed(m2, correction);
        }
      } else {
        Shorter(p, ip, m1, start2 - ip);
        m1 := m1.(len := start2 - ip);
      }
    }
    var full;
    full, op, anchor, qs, lastStart := Encode(p, dst, op0, anchor0, ip, m1, qs0, lastStart0);
    if full {
      return DestOverflow(ip, m1), op, anchor, qs, lastStart;
    }
    return Search3(start2, m2, start3, m3), op, anchor, qs, lastStart;
  }

  /** The block from label _Search2 on. */
  method StepSearch2(p: Params, hc: HashChain, dst: array<byte>, maxNbAttempts: nat, c0: Control, op0: nat,
                     anchor0: nat,
                     ghost searched: int, ghost qs0: seq<Sequence>, ghost lastStart0: nat)
    returns (c: Control, op: nat, anchor: nat, ghost searched2: int, ghost qs: seq<Sequence>, ghost lastStart: nat)
    requires p.Valid() && c0.Search2? && p.h <= anchor0 && Holds(p, c0, anchor0, searched)
    requires Progress(p, dst[..], op0, anchor0, qs0, lastStart0)
    requires hc.Valid(p.text) && hc.nextToUpdate <= hc.base + searched + 1
    modifies hc`nextToUpdate, hc.hashTable, hc.chainTable, dst
    ensures forall k :: Bound(p) <= k < dst.Length ==> dst[k] == old(dst[k])
    ensures hc.Valid(p.text) && hc.nextToUpdate <= hc.base + searched2 + 1
    ensures Progress(p, dst[..], op, anchor, qs, lastStart) && Holds(p, c, anchor, searched2) && anchor0 <= anchor
    ensures searched < searched2 < |p.text| || (searched == searched2 && (c.MainLoop? || c.DestOverflow?))
    ensures c.DestOverflow? ==> p.output != NotLimited
    ensures c.DestOverflow? && p.output == LimitedOutput ==> p.olimit < p.Size() + p.Size() / 255 + 16
  {
    hide Progress, IsMatch;
    var Search2(ip, m1, start0, m0) := c0;
    MatchInText(p, ip, m1);
    var m2, start2;
    m2, start2, searched2 := SecondMatch(p, hc, maxNbAttempts, ip, m1, searched);
    op, anchor, qs, lastStart := op0, anchor0, qs0, lastStart0;
    if m2.len <= m1.len {
      var full;
      full, op, anchor, qs, lastStart := Encode(p, dst, op, anchor, ip, m1, qs, lastStart);
      c := if full then DestOverflow(ip, m1) else MainLoop(ip + m1.len);
      return;
    }
    c := KeepOrDropFirst(p, ip, m1, start0, m0, start2, m2, anchor, searched, searched2);
  }

  /** The block from label _Search3 on. */
  method StepSearch3(p: Params, hc: HashChain, dst: array<byte>, maxNbAttempts: nat, c0: Control, op0: nat,
                     anchor0: nat,
                     ghost searched: int, ghost qs0: seq<Sequence>, ghost lastStart0: nat)
    returns (c: Control, op: nat, anchor: nat, ghost searched2: int, ghost qs: seq<Sequence>, ghost lastStart: nat)
    requires p.Valid() && c0.Search3? && p.h <= anchor0 && Holds(p, c0, anchor0, searched)
    requires Progress(p, dst[..], op0, anchor0, qs0, lastStart0)
    requires hc.Valid(p.text) && hc.nextToUpdate <= hc.base + searched + 1
    modifies hc`nextToUpdate, hc.hashTable, hc.chainTable, dst
    ensures forall k :: Bound(p) <= k < dst.Length ==> dst[k] == old(dst[k])
    ensures hc.Valid(p.text) && hc.nextToUpdate <= hc.base + searched2 + 1
    ensures Progress(p, dst[..], op, anchor, qs, lastStart) && Holds(p, c, anchor, searched2) && anchor0 <= anchor
    ensures searched < searched2 < |p.text| || (searched == searched2 && (c.MainLoop? || c.DestOverflow?))
    ensures c.DestOverflow? ==> p.output != NotLimited
    ensures c.DestOverflow? && p.output == LimitedOutput ==> p.olimit < p.Size() + p.Size() / 255 + 16
  {
    hide Progress, IsMatch;
    var Search3(ip, m1, start20, m20) := c0;
    MatchInText(p, ip, m1);
    var start2, m2 := MakeRoom(p, ip, m1, start20, m20, anchor0, searched);
    var m3, start3;
    m3, start3, searched2 := ThirdMatch(p, hc, maxNbAttempts, start2, m2, searched);
    op, anchor, qs, lastStart := op0, anchor0, qs0, lastStart0;
    if m3.len <= m2.len {
      c, op, anchor, qs, lastStart := EncodeTwo(p, dst, op, anchor, ip, m1, start2, m2, searched2, qs, lastStart);
      return;
    }
    if start3 < ip + m1.len + 3 {
      if start3 >= ip + m1.len {
        c, op, anchor, qs, lastStart :=
          DropSecond(p, dst, op, anchor, ip, m1, start2, m2, start3, m3, searched2, qs, lastStart);
        return;
      }
      c := Search3(ip, m1, start3, m3);
      return;
    }
    c, op, anchor, qs, lastStart :=
      EncodeFirst(p, dst, op, anchor, ip, m1, start2, m2, start3, m3, searched2, qs, lastStart);
  }

  function Rank(c: Control): nat {
    if c.Search2? || c.Search3? then 1 else 0
  }

  /** LZ4HC_compress_hashChain, with any valid index of the text before the source: a positive result is the size of a
      conforming block that decodes to the consumed part of the source, all of it except when filling
      the output; nothing beyond Bound is touched; it fails only below the worst-case bound. */
  method CompressHashChain(p: Params, hc: HashChain, dst: array<byte>, maxNbAttempts: nat)
    returns (r: nat, consumed: nat)
    requires p.Valid() && Bound(p) <= dst.Length && (p.output == FillOutput ==> 1 <= p.olimit)
    requires hc.Valid(p.text) && hc.nextToUpdate <= hc.base + p.h
    modifies hc`nextToUpdate, hc.hashTable, hc.chainTable, dst
    ensures forall k :: Bound(p) <= k < dst.Length ==> dst[k] == old(dst[k])
    ensures r <= Bound(p) && consumed <= p.Size()
    ensures r > 0 ==> Written(p, dst[..r], consumed)
    ensures p.output != FillOutput && r > 0 ==> consumed == p.Size()
    ensures r == 0 ==> p.output == LimitedOutput && p.olimit < p.Size() + p.Size() / 255 + 16
    ensures hc.Valid(p.text)
  {
    hide Progress, IsMatch, Written, HashChain.Valid;
    var op: nat, anchor: nat := 0, p.h;
    ghost var qs, lastStart: nat, searched: int := [], p.h, p.h - 1;
    StartsEmpty(p, dst[..]);
    if p.Size() < MIN_LENGTH {
      r, consumed := LastLiterals(p, dst, op, anchor, qs, lastStart);
      return;
    }
    var c := MainLoop(p.h);
    while !c.DestOverflow? && (c.MainLoop? ==> c.ip + MFLIMIT <= |p.text|)
      invariant p.h <= anchor && searched < |p.text| && Holds(p, c, anchor, searched)
      invariant Progress(p, dst[..], op, anchor, qs, lastStart)
      invariant hc.Valid(p.text) && hc.nextToUpdate <= hc.base + searched + 1
      invariant c.DestOverflow? ==> p.output != NotLimited
      invariant c.DestOverflow? && p.output == LimitedOutput ==> p.olimit < p.Size() + p.Size() / 255 + 16
      invariant forall k :: Bound(p) <= k < dst.Length ==> dst[k] == old(dst[k])
      decreases |p.text| - searched, Rank(c)
    {
      match c
      case MainLoop(ip) =>
        c, searched := FirstMatch(p, hc, maxNbAttempts, ip, anchor, searched);
      case Search2(_, _, _, _) =>
        c, op, anchor, searched, qs, lastStart :=
          StepSearch2(p, hc, dst, maxNbAttempts, c, op, anchor, searched, qs, lastStart);
      case Search3(_, _, _, _) =>
        c, op, anchor, searched, qs, lastStart :=
          StepSearch3(p, hc, dst, maxNbAttempts, c, op, anchor, searched, qs, lastStart);
    }
    if c.DestOverflow? {
      if p.output != FillOutput {
        return 0, 0;
      }
      OverflowMatch(p, c, anchor, searched);
      op, anchor, qs, lastStart := Overflow(p, dst, op, anchor, c.ip, c.m1.len, c.m1.off, qs, lastStart);
    }
    r, consumed := LastLiterals(p, dst, op, anchor, qs, lastStart);
  }

  lemma OverflowMatch(p: Params, c: Control, anchor: nat, searched: int)
    requires c.DestOverflow? && Holds(p, c, anchor, searched)
    ensures anchor <= c.ip && c.ip + MFLIMIT <= |p.text| && MINMATCH <= c.m1.len && 0 <= c.m1.off
    ensures TrueMatch(p, c.ip, c.m1.len, c.m1.off)
  {
  }
}
