/** The optimal HC parser (LZ4HC_compress_optimal): a table of prices for the next positions, the
    cheapest path reversed in place, then written. Prices decide which path is taken, never whether
    it is a path: that is what is proved here. */
module Lz4hcOptimal {
  import opened Lz4Format
  import opened Lz4Copy
  import opened Lz4Compressor
  import opened Lz4hcEncode
  import opened Lz4hcSearch
  import opened Lz4hcLazy

  const OPT_NUM := 4096
  const TRAILING_LITERALS := 3

  /** LZ4HC_optimal_t: how the position is reached, by one literal (mlen 1) or by a match. */
  datatype Cell = Cell(price: int, off: int, mlen: int, litlen: int)

  /** LZ4HC_literalsPrice */
  function LiteralsPrice(litlen: nat): (r: nat)
    ensures litlen <= r
  {
    if litlen >= RUN_MASK then litlen + 1 + (litlen - RUN_MASK) / 255 else litlen
  }

  /** LZ4HC_sequencePrice: what the encoder spends on the sequence. */
  function SequencePrice(litlen: nat, mlen: nat): (r: nat)
    requires MINMATCH <= mlen
    ensures 3 + litlen <= r
  {
    3 + LiteralsPrice(litlen) + if mlen >= ML_MASK + MINMATCH then 1 + (mlen - (ML_MASK + MINMATCH)) / 255 else 0
  }

  /** The prices are the sizes of what is written. */
  lemma PriceIsSize(lits: seq<byte>, offset: nat, mlen: nat)
    requires 1 <= offset <= DISTANCE_MAX && MINMATCH <= mlen
    ensures SequencePrice(|lits|, mlen) == |EncodeSequence(Seq(lits, offset, mlen))|
  {
    LiteralPartSize(lits, Nibble(mlen - MINMATCH));
    MatchPartSize(offset, mlen);
  }

  /** A match that starts early enough to be written. */
  ghost predicate Startable(p: Params, start: int, mlen: int, off: int) {
    MINMATCH <= mlen && start + MFLIMIT <= |p.text| && TrueMatch(p, start, mlen, off)
  }

  /** One step of a path, from the position `start`. */
  ghost predicate StepOk(p: Params, start: int, mlen: int, off: int) {
    mlen == 1 || Startable(p, start, mlen, off)
  }

  ghost predicate CellOk(p: Params, ip: nat, c: Cell, k: nat) {
    && 0 <= c.litlen && 1 <= c.mlen && (k > 0 ==> c.mlen <= k) && (k == 0 ==> c.mlen == 1)
    && StepOk(p, ip + k - c.mlen, c.mlen, c.off)
  }

  /** The table is set up to position n, and every cell says how to get there. */
  ghost predicate TableOk(p: Params, ip: nat, s: seq<Cell>, n: int) {
    n < |s| && forall k :: 0 <= k <= n ==> CellOk(p, ip, s[k], k)
  }

  lemma CellSet(p: Params, ip: nat, s: seq<Cell>, n: int, k: nat, c: Cell)
    requires TableOk(p, ip, s, n) && k <= n + 1 && k < |s| && CellOk(p, ip, c, k)
    ensures TableOk(p, ip, s[k := c], if k == n + 1 then k else n)
  {
  }

  lemma LiteralCell(p: Params, ip: nat, k: nat, price: int, litlen: nat)
    ensures CellOk(p, ip, Cell(price, 0, 1, litlen), k)
  {
  }

  lemma MatchCell(p: Params, ip: nat, cur: nat, m: Found, ml: nat, price: int, litlen: nat)
    requires IsMatch(p, ip + cur, m) && MINMATCH <= ml <= m.len && ip + cur + MFLIMIT <= |p.text|
    ensures CellOk(p, ip, Cell(price, m.off, ml, litlen), cur + ml)
  {
    PartOfMatch(p, ip + cur, m.len, m.off, ip + cur, ml);
  }

  /** opt[last + 1 ..] become literals. */
  method CompleteWithLiterals(p: Params, ghost ip: nat, opt: array<Cell>, last: nat)
    requires opt.Length == OPT_NUM + TRAILING_LITERALS && last < OPT_NUM && TableOk(p, ip, opt[..], last)
    modifies opt
    ensures TableOk(p, ip, opt[..], last + TRAILING_LITERALS)
    ensures forall k :: 0 <= k <= last ==> opt[k] == old(opt[k])
  {
    hide TableOk, CellOk;
    TableShrink(p, ip, opt[..], last, last);
    for addLit := 1 to TRAILING_LITERALS + 1
      invariant TableOk(p, ip, opt[..], last + addLit - 1)
      invariant forall k :: 0 <= k <= last ==> opt[k] == old(opt[k])
    {
      LiteralCell(p, ip, last + addLit, opt[last].price + LiteralsPrice(addLit), addLit);
      CellSet(p, ip, opt[..], last + addLit - 1, last + addLit,
              Cell(opt[last].price + LiteralsPrice(addLit), 0, 1, addLit));
      opt[last + addLit] := Cell(opt[last].price + LiteralsPrice(addLit), 0, 1, addLit);
    }
  }

  lemma TableShrink(p: Params, ip: nat, s: seq<Cell>, n: int, n2: int)
    requires TableOk(p, ip, s, n) && n2 <= n
    ensures TableOk(p, ip, s, n2)
  {
  }

  /** Prices from the first match alone. */
  method InitialPrices(p: Params, ip: nat, opt: array<Cell>, llen: nat, m: Found)
    requires opt.Length == OPT_NUM + TRAILING_LITERALS && m.len < OPT_NUM && IsMatch(p, ip, m)
             && ip + MFLIMIT <= |p.text|
    modifies opt
    ensures TableOk(p, ip, opt[..], m.len + TRAILING_LITERALS)
  {
    hide TableOk, CellOk, IsMatch;
    MatchInText(p, ip, m);
    EmptyTable(p, ip, opt[..]);
    for rPos := 0 to MINMATCH
      invariant TableOk(p, ip, opt[..], rPos - 1)
    {
      var c := Cell(LiteralsPrice(llen + rPos), 0, 1, llen + rPos);
      LiteralCell(p, ip, rPos, c.price, c.litlen);
      CellSet(p, ip, opt[..], rPos - 1, rPos, c);
      opt[rPos] := c;
    }
    for mlen := MINMATCH to m.len + 1
      invariant TableOk(p, ip, opt[..], mlen - 1)
    {
      var c := Cell(SequencePrice(llen, mlen), m.off, mlen, llen);
      MatchCell(p, ip, 0, m, mlen, c.price, llen);
      CellSet(p, ip, opt[..], mlen - 1, mlen, c);
      opt[mlen] := c;
    }
    CompleteWithLiterals(p, ip, opt, m.len);
  }

  lemma EmptyTable(p: Params, ip: nat, s: seq<Cell>)
    requires |s| > 0
    ensures TableOk(p, ip, s, -1)
  {
  }

  lemma CellFacts(p: Params, ip: nat, s: seq<Cell>, n: int, k: nat)
    requires TableOk(p, ip, s, n) && k <= n
    ensures k < |s| && 0 <= s[k].litlen && 1 <= s[k].mlen && (k > 0 ==> s[k].mlen <= k) && (k == 0 ==> s[k].mlen == 1)
    ensures StepOk(p, ip + k - s[k].mlen, s[k].mlen, s[k].off)
  {
    assert CellOk(p, ip, s[k], k);
  }

  /** Before a new match: literals, where that is cheaper. */
  method PriceLiterals(p: Params, ghost ip: nat, opt: array<Cell>, cur: nat, last: nat)
    requires opt.Length == OPT_NUM + TRAILING_LITERALS && 1 <= cur < last < OPT_NUM
    requires TableOk(p, ip, opt[..], last + TRAILING_LITERALS)
    modifies opt
    ensures TableOk(p, ip, opt[..], last + TRAILING_LITERALS)
    ensures forall k :: 0 <= k <= cur ==> opt[k] == old(opt[k])
  {
    hide TableOk, CellOk;
    CellFacts(p, ip, opt[..], last + TRAILING_LITERALS, cur);
    var baseLitlen := opt[cur].litlen;
    for litlen := 1 to MINMATCH
      invariant TableOk(p, ip, opt[..], last + TRAILING_LITERALS)
      invariant forall k :: 0 <= k <= cur ==> opt[k] == old(opt[k])
    {
      var price := opt[cur].price - LiteralsPrice(baseLitlen) + LiteralsPrice(baseLitlen + litlen);
      var pos := cur + litlen;
      if price < opt[pos].price {
        LiteralCell(p, ip, pos, price, baseLitlen + litlen);
        CellSet(p, ip, opt[..], last + TRAILING_LITERALS, pos, Cell(price, 0, 1, baseLitlen + litlen));
        opt[pos] := Cell(price, 0, 1, baseLitlen + litlen);
      }
    }
  }

  /** Every length of a new match, where it is cheaper or reaches beyond what is set. */
  method PriceMatch(p: Params, ip: nat, opt: array<Cell>, cur: nat, last0: nat, m: Found, favorDecSpeed: bool)
    returns (last: nat)
    requires opt.Length == OPT_NUM + TRAILING_LITERALS && 1 <= cur < last0 < OPT_NUM && cur + m.len < OPT_NUM
    requires TableOk(p, ip, opt[..], last0 + TRAILING_LITERALS)
    requires IsMatch(p, ip + cur, m) && ip + cur + MFLIMIT <= |p.text|
    requires ip + last0 + LASTLITERALS <= |p.text|
    modifies opt
    ensures last0 <= last < OPT_NUM && TableOk(p, ip, opt[..], last) && ip + last + LASTLITERALS <= |p.text|
  {
    hide TableOk, CellOk, IsMatch;
    MatchInText(p, ip + cur, m);
    last := last0;
    ghost var ready := last0 + TRAILING_LITERALS;
    for ml := MINMATCH to m.len + 1
      invariant last0 <= last < OPT_NUM && last <= ready && ready < opt.Length
      invariant ready == if cur + ml - 1 > last0 + TRAILING_LITERALS then cur + ml - 1 else last0 + TRAILING_LITERALS
      invariant ml <= m.len ==> last == last0
      invariant ip + last + LASTLITERALS <= |p.text| && TableOk(p, ip, opt[..], ready)
    {
      var pos := cur + ml;
      CellFacts(p, ip, opt[..], ready, cur);
      var ll, price := 0, opt[cur].price + SequencePrice(0, ml);
      if opt[cur].mlen == 1 {
        ll := opt[cur].litlen;
        price := (if cur > ll then opt[cur - ll].price else 0) + SequencePrice(ll, ml);
      }
      if pos > last + TRAILING_LITERALS || price <= opt[pos].price - (if favorDecSpeed then 1 else 0) {
        if ml == m.len && last < pos {
          last := pos;
        }
        MatchCell(p, ip, cur, m, ml, price, ll);
        CellSet(p, ip, opt[..], ready, pos, Cell(price, m.off, ml, ll));
        opt[pos] := Cell(price, m.off, ml, ll);
        if pos > ready { ready := pos; }
      }
    }
    TableShrink(p, ip, opt[..], ready, last);
  }

  /** LZ4HC_FindLongerMatch */
  method FindLongerMatch(p: Params, hc: HashChain, ip: nat, minLen: nat, nbSearches: nat, favorDecSpeed: bool)
    returns (m: Found)
    requires hc.Valid(p.text) && hc.nextToUpdate <= hc.base + ip && p.h <= ip && Searchable(p.text, ip, ip, minLen)
    requires ip + minLen + LASTLITERALS <= |p.text|
    modifies hc`nextToUpdate, hc.hashTable, hc.chainTable
    ensures hc.Valid(p.text) && hc.nextToUpdate == hc.base + ip
    ensures m.len == 0 || IsMatch(p, ip, m)
  {
    ghost var visited;
    m, visited := hc.InsertAndGetWiderMatch(p.text, ip, ip, minLen, nbSearches, true, true, favorDecSpeed);
    if m.len <= minLen {
      return Found(0, 0, 0);
    }
    if favorDecSpeed {
      if 18 < m.len <= 36 {
        Shorter(p, ip, m, 18);
        m := m.(len := 18);
      }
    }
  }

  /** The settings of one call. */
  datatype Settings = Settings(nbSearches: nat, sufficientLen: nat, fullUpdate: bool, favorDecSpeed: bool)

  /** One position of the table: search there unless the next position is as cheap, and price what is
      found. `stop` says that a match is to be encoded at once, as the last step of the path. */
  method CheckPosition(p: Params, hc: HashChain, ip: nat, opt: array<Cell>, cur: nat, last0: nat, t: Settings)
    returns (last: nat, stop: bool, m: Found)
    requires p.Valid() && p.h <= ip && opt.Length == OPT_NUM + TRAILING_LITERALS && 1 <= cur < last0 < OPT_NUM
    requires TableOk(p, ip, opt[..], last0 + TRAILING_LITERALS) && ip + last0 + LASTLITERALS <= |p.text|
    requires ip + cur + MFLIMIT <= |p.text| && hc.Valid(p.text) && hc.nextToUpdate <= hc.base + ip + cur
    modifies hc`nextToUpdate, hc.hashTable, hc.chainTable, opt
    ensures hc.Valid(p.text) && hc.nextToUpdate <= hc.base + ip + cur
    ensures last0 <= last < OPT_NUM && ip + last + LASTLITERALS <= |p.text|
    ensures TableOk(p, ip, opt[..], last + TRAILING_LITERALS)
    ensures stop ==> Startable(p, ip + cur, m.len, m.off)
  {
    hide TableOk, CellOk, IsMatch, HashChain.Valid;
    last, stop, m := last0, false, Found(0, 0, 0);
    if t.fullUpdate {
      if opt[cur + 1].price <= opt[cur].price && opt[cur + MINMATCH].price < opt[cur].price + 3 {
        return;
      }
    } else {
      if opt[cur + 1].price <= opt[cur].price {
        return;
      }
    }
    m := FindLongerMatch(p, hc, ip + cur, if t.fullUpdate then MINMATCH - 1 else last - cur, t.nbSearches,
                         t.favorDecSpeed);
    if m.len == 0 {
      return;
    }
    MatchIsStartable(p, ip + cur, m);
    if m.len > t.sufficientLen || m.len + cur >= OPT_NUM {
      stop := true;
      return;
    }
    PriceLiterals(p, ip, opt, cur, last);
    last := PriceMatch(p, ip, opt, cur, last, m, t.favorDecSpeed);
    CompleteWithLiterals(p, ip, opt, last);
  }

  lemma MatchIsStartable(p: Params, start: int, m: Found)
    requires IsMatch(p, start, m) && start + MFLIMIT <= |p.text|
    ensures Startable(p, start, m.len, m.off) && MINMATCH <= m.len
  {
  }

  /** From the first match to the label encode: the position `cur` where the last step of the path
      starts, and that step. */
  method ChoosePath(p: Params, hc: HashChain, ip: nat, opt: array<Cell>, llen: nat, first: Found, t: Settings)
    returns (cur: nat, last: nat, mlen: nat, off: int, ghost searched: nat)
    requires p.Valid() && p.h <= ip && opt.Length == OPT_NUM + TRAILING_LITERALS && first.len < OPT_NUM
    requires IsMatch(p, ip, first) && ip + MFLIMIT <= |p.text|
    requires hc.Valid(p.text) && hc.nextToUpdate <= hc.base + ip
    modifies hc`nextToUpdate, hc.hashTable, hc.chainTable, opt
    ensures hc.Valid(p.text) && hc.nextToUpdate <= hc.base + searched && ip <= searched < ip + last
    ensures cur < last <= cur + mlen && TableOk(p, ip, opt[..], cur) && StepOk(p, ip + cur, mlen, off)
    ensures ip + cur + mlen + LASTLITERALS <= |p.text|
  {
    hide TableOk, CellOk, IsMatch, HashChain.Valid;
    MatchInText(p, ip, first);
    InitialPrices(p, ip, opt, llen, first);
    last, searched := first.len, ip;
    cur := 1;
    while cur < last && ip + cur + MFLIMIT <= |p.text|
      invariant 1 <= cur && 1 <= last < OPT_NUM && ip + last + LASTLITERALS <= |p.text| && cur <= last
      invariant hc.Valid(p.text) && hc.nextToUpdate <= hc.base + searched && ip <= searched < ip + cur
      invariant TableOk(p, ip, opt[..], last + TRAILING_LITERALS)
      decreases OPT_NUM - cur
    {
      var stop, m;
      last, stop, m := CheckPosition(p, hc, ip, opt, cur, last, t);
      searched := ip + cur;
      if stop {
        TableShrink(p, ip, opt[..], last + TRAILING_LITERALS, cur);
        StartableInText(p, ip + cur, m.len, m.off);
        return cur, cur + 1, m.len, m.off, searched;
      }
      cur := cur + 1;
    }
    CellFacts(p, ip, opt[..], last + TRAILING_LITERALS, last);
    mlen, off := opt[last].mlen, opt[last].off;
    cur := last - mlen;
    TableShrink(p, ip, opt[..], last + TRAILING_LITERALS, cur);
  }

  lemma StartableInText(p: Params, start: int, mlen: int, off: int)
    requires Startable(p, start, mlen, off)
    ensures MINMATCH <= mlen && start + mlen + LASTLITERALS <= |p.text|
  {
  }

  // ----- the path -----

  /** Forward steps lead from `pos` exactly to `end`. */
  ghost predicate Path(p: Params, ip: nat, s: seq<Cell>, pos: nat, end: nat)
    decreases end - pos
  {
    pos == end ||
    (pos < end && pos < |s| && 1 <= s[pos].mlen <= end - pos && StepOk(p, ip + pos, s[pos].mlen, s[pos].off)
     && Path(p, ip, s, pos + s[pos].mlen, end))
  }

  /** A path uses only the cells from its start on. */
  lemma {:induction false} PathFrame(p: Params, ip: nat, s: seq<Cell>, s2: seq<Cell>, pos: nat, end: nat)
    requires Path(p, ip, s, pos, end) && |s2| == |s| && forall k :: pos <= k < |s| ==> s2[k] == s[k]
    ensures Path(p, ip, s2, pos, end)
    decreases end - pos
  {
    if pos < end { PathFrame(p, ip, s, s2, pos + s[pos].mlen, end); }
  }

  /** The reverse traversal ends exactly at cell 0, and leaves a forward path to cur + mlen. */
  method Reverse(p: Params, ip: nat, opt: array<Cell>, cur: nat, mlen: nat, off: int)
    requires cur < opt.Length && 1 <= mlen && TableOk(p, ip, opt[..], cur) && StepOk(p, ip + cur, mlen, off)
    modifies opt
    ensures Path(p, ip, opt[..], 0, cur + mlen)
  {
    hide TableOk, CellOk, StepOk;
    ghost var end := cur + mlen;
    var candidate: nat, selectedLength: nat, selectedOffset: int := cur, mlen, off;
    while true
      invariant candidate <= cur && TableOk(p, ip, opt[..], candidate)
      invariant 1 <= selectedLength && candidate + selectedLength <= end
      invariant StepOk(p, ip + candidate, selectedLength, selectedOffset)
      invariant Path(p, ip, opt[..], candidate + selectedLength, end)
      decreases candidate
    {
      CellFacts(p, ip, opt[..], candidate, candidate);
      var nextLength, nextOffset := opt[candidate].mlen, opt[candidate].off;
      ghost var before := opt[..];
      opt[candidate] := opt[candidate].(mlen := selectedLength, off := selectedOffset);
      PathFrame(p, ip, before, opt[..], candidate + selectedLength, end);
      assert Path(p, ip, opt[..], candidate, end);
      selectedLength, selectedOffset := nextLength, nextOffset;
      if nextLength > candidate {
        assert candidate == 0;
        break;
      }
      TableCut(p, ip, before, opt[..], candidate, candidate - nextLength);
      candidate := candidate - nextLength;
    }
  }

  lemma TableCut(p: Params, ip: nat, s: seq<Cell>, s2: seq<Cell>, n: nat, n2: int)
    requires TableOk(p, ip, s, n) && n2 < n && |s2| == |s| && forall k :: 0 <= k < n ==> s2[k] == s[k]
    ensures TableOk(p, ip, s2, n2)
  {
  }

  lemma PathStep(p: Params, ip: nat, s: seq<Cell>, pos: nat, end: nat)
    requires Path(p, ip, s, pos, end) && pos < end
    ensures pos < |s| && 1 <= s[pos].mlen <= end - pos && StepOk(p, ip + pos, s[pos].mlen, s[pos].off)
    ensures Path(p, ip, s, pos + s[pos].mlen, end)
  {
  }

  /** The forward pass: everything on the path is written, in order. */
  method EncodePath(p: Params, dst: array<byte>, opt: array<Cell>, op0: nat, anchor0: nat, ip0: nat, last: nat,
                    ghost end: nat,
                    ghost qs0: seq<Sequence>, ghost lastStart0: nat)
    returns (full: bool, op: nat, anchor: nat, ip: nat, ovml: int, ovoff: int, ghost qs: seq<Sequence>,
             ghost lastStart: nat)
    requires p.Valid() && Progress(p, dst[..], op0, anchor0, qs0, lastStart0) && anchor0 <= ip0
    requires Path(p, ip0, opt[..], 0, end) && last <= end
    modifies dst
    ensures forall k :: Bound(p) <= k < dst.Length ==> dst[k] == old(dst[k])
    ensures Progress(p, dst[..], op, anchor, qs, lastStart) && anchor0 <= anchor <= ip
    ensures !full ==> ip0 + last <= ip <= ip0 + end
    ensures full ==> p.output != NotLimited && Startable(p, ip, ovml, ovoff)
    ensures full && p.output == LimitedOutput ==> p.olimit < p.Size() + p.Size() / 255 + 16
  {
    hide Progress, Path, TrueMatch;
    var rPos := 0;
    full, op, anchor, ip, ovml, ovoff, qs, lastStart := false, op0, anchor0, ip0, 0, 0, qs0, lastStart0;
    while rPos < last
      invariant rPos <= end && ip == ip0 + rPos && anchor0 <= anchor <= ip && !full
      invariant Path(p, ip0, opt[..], rPos, end) && Progress(p, dst[..], op, anchor, qs, lastStart)
      invariant forall k :: Bound(p) <= k < dst.Length ==> dst[k] == old(dst[k])
      decreases end - rPos
    {
      PathStep(p, ip0, opt[..], rPos, end);
      var ml, offset := opt[rPos].mlen, opt[rPos].off;
      if ml == 1 {
        ip, rPos := ip + 1, rPos + 1;
      } else {
        rPos := rPos + ml;
        full, op, anchor, qs, lastStart := Encode(p, dst, op, anchor, ip, Found(offset, ml, 0), qs, lastStart);
        if full {
          return full, op, anchor, ip, ml, offset, qs, lastStart;
        }
        ip := anchor;
      }
    }
  }

  /** One round of the main loop, from a position where a match was found: encode it at once, or
      price, choose, reverse and write a path. */
  method ParseFrom(p: Params, hc: HashChain, dst: array<byte>, opt: array<Cell>, t: Settings, op0: nat, anchor0: nat,
                   ip0: nat,
                   first: Found, ghost qs0: seq<Sequence>, ghost lastStart0: nat)
    returns (full: bool, op: nat, anchor: nat, ip: nat, ovml: int, ovoff: int, ghost qs: seq<Sequence>,
             ghost lastStart: nat)
    requires p.Valid() && Progress(p, dst[..], op0, anchor0, qs0, lastStart0) && p.h <= anchor0 <= ip0
    requires opt.Length == OPT_NUM + TRAILING_LITERALS && t.sufficientLen < OPT_NUM
    requires IsMatch(p, ip0, first) && ip0 + MFLIMIT <= |p.text|
    requires hc.Valid(p.text) && hc.nextToUpdate <= hc.base + ip0
    modifies hc`nextToUpdate, hc.hashTable, hc.chainTable, opt, dst
    ensures forall k :: Bound(p) <= k < dst.Length ==> dst[k] == old(dst[k])
    ensures hc.Valid(p.text) && (!full ==> hc.nextToUpdate <= hc.base + ip && ip0 < ip)
    ensures Progress(p, dst[..], op, anchor, qs, lastStart) && anchor0 <= anchor <= ip
    ensures full ==> p.output != NotLimited && Startable(p, ip, ovml, ovoff)
    ensures full && p.output == LimitedOutput ==> p.olimit < p.Size() + p.Size() / 255 + 16
  {
    hide Progress, Path, TrueMatch, TableOk, HashChain.Valid;
    if first.len > t.sufficientLen {
      ip, ovml, ovoff := ip0, first.len, first.off;
      MatchIsStartable(p, ip0, first);
      full, op, anchor, qs, lastStart := Encode(p, dst, op0, anchor0, ip0, first, qs0, lastStart0);
      if !full {
        ip := anchor;
      }
      return;
    }
    var cur, last, mlen, off;
    ghost var searched;
    cur, last, mlen, off, searched := ChoosePath(p, hc, ip0, opt, ip0 - anchor0, first, t);
    TableLength(p, ip0, opt[..], cur);
    Reverse(p, ip0, opt, cur, mlen, off);
    full, op, anchor, ip, ovml, ovoff, qs, lastStart :=
      EncodePath(p, dst, opt, op0, anchor0, ip0, last, cur + mlen, qs0, lastStart0);
  }

  lemma TableLength(p: Params, ip: nat, s: seq<Cell>, n: int)
    requires TableOk(p, ip, s, n)
    ensures n < |s|
  {
  }

  /** LZ4HC_compress_optimal: the same promises as for the lazy parser. */
  method CompressOptimal(p: Params, hc: HashChain, dst: array<byte>, t0: Settings) returns (r: nat, consumed: nat)
    requires p.Valid() && Bound(p) <= dst.Length && (p.output == FillOutput ==> 1 <= p.olimit)
    requires hc.Valid(p.text) && hc.nextToUpdate <= hc.base + p.h
    modifies hc`nextToUpdate, hc.hashTable, hc.chainTable, dst
    ensures forall k :: Bound(p) <= k < dst.Length ==> dst[k] == old(dst[k])
    ensures r <= Bound(p) && consumed <= p.Size()
    ensures r > 0 ==> Written(p, dst[..r], consumed)
    ensures p.output != FillOutput && r > 0 ==> consumed == p.Size()
    ensures r == 0 ==> p.output == LimitedOutput && p.olimit < p.Size() + p.Size() / 255 + 16
    ensures hc.Valid(p.text)
  {
    hide Progress, IsMatch, Written, HashChain.Valid, Startable;
    var opt := new Cell[OPT_NUM + TRAILING_LITERALS](_ => Cell(0, 0, 1, 0));
    var t := if t0.sufficientLen >= OPT_NUM then t0.(sufficientLen := OPT_NUM - 1) else t0;
    var op: nat, anchor: nat, ip: nat := 0, p.h, p.h;
    ghost var qs, lastStart: nat := [], p.h;
    StartsEmpty(p, dst[..]);
    while ip + MFLIMIT <= |p.text|
      invariant p.h <= anchor <= ip && Progress(p, dst[..], op, anchor, qs, lastStart)
      invariant hc.Valid(p.text) && hc.nextToUpdate <= hc.base + ip
      invariant forall k :: Bound(p) <= k < dst.Length ==> dst[k] == old(dst[k])
      decreases |p.text| - ip
    {
      var first := FindLongerMatch(p, hc, ip, MINMATCH - 1, t.nbSearches, t.favorDecSpeed);
      if first.len == 0 {
        ip := ip + 1;
      } else {
        var full, ovml, ovoff;
        full, op, anchor, ip, ovml, ovoff, qs, lastStart :=
          ParseFrom(p, hc, dst, opt, t, op, anchor, ip, first, qs, lastStart);
        if full {
          r, consumed := FinishOverflow(p, dst, op, anchor, ip, ovml, ovoff, qs, lastStart);
          return;
        }
      }
    }
    r, consumed := LastLiterals(p, dst, op, anchor, qs, lastStart);
  }

  /** From the label _dest_overflow. */
  method FinishOverflow(p: Params, dst: array<byte>, op0: nat, anchor0: nat, ip: nat, ovml: int, ovoff: int,
                        ghost qs0: seq<Sequence>, ghost lastStart0: nat) returns (r: nat, consumed: nat)
    requires p.Valid() && Progress(p, dst[..], op0, anchor0, qs0, lastStart0) && anchor0 <= ip
    requires p.output != NotLimited && Startable(p, ip, ovml, ovoff)
    requires p.output == LimitedOutput ==> p.olimit < p.Size() + p.Size() / 255 + 16
    modifies dst
    ensures forall k :: Bound(p) <= k < dst.Length ==> dst[k] == old(dst[k])
    ensures r <= Bound(p) && consumed <= p.Size()
    ensures r > 0 ==> Written(p, dst[..r], consumed)
    ensures r == 0 ==> p.output == LimitedOutput && p.olimit < p.Size() + p.Size() / 255 + 16
    ensures p.output != FillOutput && r > 0 ==> consumed == p.Size()
  {
    hide Progress, Written;
    if p.output != FillOutput {
      return 0, 0;
    }
    var op, anchor;
    ghost var qs, lastStart;
    op, anchor, qs, lastStart := Overflow(p, dst, op0, anchor0, ip, ovml, ovoff, qs0, lastStart0);
    r, consumed := LastLiterals(p, dst, op, anchor, qs, lastStart);
  }
}
