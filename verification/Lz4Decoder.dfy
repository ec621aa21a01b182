/** The optimised decoder: fast loop, two-stage shortcut, overshooting copies, external dictionary
    and partial mode, proved against the byte-at-a-time meaning of a block (Lz4Format.Decode). */
module Lz4Decoder {
  import opened Lz4Format
  import opened Lz4Copy
  import opened Lz4Accept

  const FASTLOOP_SAFE_DISTANCE := 64
  const MATCH_SAFEGUARD_DISTANCE := 12
  const WILDCOPYLENGTH := 8

  /** The arguments of one call. The block is written to mem[dst..oend]; history precedes it in
      mem[lowPrefix..dst] and, further back, in extDict. */
  datatype Job = Job(src: seq<byte>, mem: array<byte>, dst: nat, oend: nat, partial: bool,
                     dict: DictDirective, lowPrefix: int, extDict: seq<byte>)
  {
    function Low(): nat { if lowPrefix < 0 then 0 else lowPrefix }

    predicate Valid() {
      && Low() <= dst <= oend <= mem.Length
      && (dict == WithPrefix64k ==> lowPrefix == dst - 65536 && 65535 <= dst)
      && (dict != WithPrefix64k ==> 0 <= lowPrefix)
      && (dict != UsingExtDict ==> extDict == [])
    }

    /** Everything decoded when the output cursor is at `op`, history included. */
    function Out(m: seq<byte>, op: nat): seq<byte>
      requires Low() <= op <= |m|
    {
      extDict + m[Low()..op]
    }

    function Room(): nat
      requires Valid()
    {
      |extDict| + oend - Low()
    }

    /** What the tests of the decoder depend on. */
    function Around(): (e: Setting)
      requires Valid()
    {
      Setting(oend - dst, dst - lowPrefix, dst - lowPrefix + |extDict|)
    }
  }

  /** What the call is measured against: the meaning of the block, whether the block conforms with a total
      output of `size` bytes that the call has to deliver, and the verdict of a full decoding. */
  datatype Goal = Goal(result: Outcome, size: nat, conforms: bool, walk: Walk)

  /** Decoding in full, what is still ahead leads to the verdict. */
  ghost predicate Walks(job: Job, g: Goal, w: Walk) {
    !job.partial ==> g.walk == w
  }

  /** The verdicts on what follows, at positions in memory. */
  ghost function TokenAhead(job: Job, p: nat, op: nat): Walk
    requires job.Valid() && p < |job.src| && job.dst <= op
  {
    WalkToken(job.src, job.Around(), p, op - job.dst)
  }

  ghost function LiteralsAhead(job: Job, q: nat, length: nat, nibble: nat, op: nat): Walk
    requires job.Valid() && q <= |job.src| && job.dst <= op
  {
    WalkLiterals(job.src, job.Around(), q, length, nibble, op - job.dst)
  }

  ghost function MatchAhead(job: Job, q: nat, nibble: nat, op: nat): Walk
    requires job.Valid() && q + 2 < |job.src| && job.dst <= op
  {
    WalkMatch(job.src, job.Around(), q, nibble, op - job.dst)
  }

  ghost function CopyAhead(job: Job, offset: nat, length: nat, next: nat, op: nat): Walk
    requires job.Valid() && next < |job.src| && job.dst <= op
  {
    WalkCopy(job.src, job.Around(), offset, length, next, op - job.dst)
  }

  ghost predicate Fits(job: Job, g: Goal)
  {
    job.Valid() && (g.conforms ==> job.partial || g.size <= job.Room())
  }

  /** The output so far, followed by what `item` starts, is still the meaning of the block. */
  ghost predicate At(job: Job, g: Goal, item: Item, m: seq<byte>, op: nat)
  {
    && job.Valid() && |m| == job.mem.Length && job.dst <= op <= job.oend
    && (item.Match? ==> item.next <= |job.src| && 1 <= item.offset)
    && (g.result.ZeroOffset? || g.result == DecodeItem(job.src, item, job.Out(m, op)))
    && (g.conforms ==> ConformingItem(job.src, item, job.Out(m, op), g.size))
  }

  ghost predicate AtToken(job: Job, g: Goal, m: seq<byte>, ip: nat, op: nat)
  {
    ip < |job.src| && At(job, g, Parse(job.src, ip), m, op)
  }

  /** The match about to be copied; offset 0 is the invalid one. */
  function MatchItem(offset: nat, length: nat, next: nat): Item {
    if offset == 0 then Zero([]) else Match([], offset, length, next)
  }

  ghost predicate Frame(m0: seq<byte>, m: seq<byte>, lo: nat, hi: nat)
  {
    |m| == |m0| && forall k :: 0 <= k < |m| && (k < lo || hi <= k) ==> m[k] == m0[k]
  }

  // ----- steps of the meaning -----

  /** Copying the literals of an item turns it into the item without them. */
  lemma {:induction false} LiteralsStep(job: Job, g: Goal, q: nat, length: nat, nibble: nat,
                                        m: seq<byte>, m2: seq<byte>, op: nat)
    requires q + length < |job.src| && op + length <= job.oend
    requires At(job, g, ParseLiterals(job.src, q, length, nibble), m, op)
    requires Frame(m, m2, op, job.oend)
    requires forall k :: op <= k < op + length ==> m2[k] == job.src[k - op + q]
    ensures At(job, g, ParseMatch(job.src, q + length, [], nibble), m2, op + length)
  {
    hide ReadField, Decode, Conforming;
    var lits := job.src[q..q + length];
    OutLiterals(job, m, m2, op, lits);
    assert job.Out(m2, op + length) + [] == job.Out(m, op) + lits;
  }

  lemma {:induction false} OutLiterals(job: Job, m: seq<byte>, m2: seq<byte>, op: nat, lits: seq<byte>)
    requires job.Low() <= op && op + |lits| <= |m| && |m| == |m2|
    requires forall k :: 0 <= k < op ==> m2[k] == m[k]
    requires forall k :: op <= k < op + |lits| ==> m2[k] == lits[k - op]
    ensures job.Out(m2, op + |lits|) == job.Out(m, op) + lits
  {
    assert m2[job.Low()..op + |lits|] == m[job.Low()..op] + lits;
  }

  /** Offset and match length read: the item is the match itself. */
  lemma {:induction false} OffsetStep(job: Job, g: Goal, q: nat, nibble: nat, m: seq<byte>, op: nat)
    requires q + 2 <= |job.src| && At(job, g, ParseMatch(job.src, q, [], nibble), m, op)
    ensures ReadField(job.src, q + 2, nibble).NoLength? ==> g.result.ZeroOffset? || !g.conforms
    ensures match ReadField(job.src, q + 2, nibble)
            case NoLength => !g.conforms
            case Length(v, n) => At(job, g, MatchItem(Offset(job.src, q), v + MINMATCH, n), m, op)
  {
    hide CopyMatch;
    hide ReadField, Decode, Conforming;
  }

  /** In a conforming block a match is followed by at least a token and five literals. */
  lemma {:induction false} MatchTail(job: Job, g: Goal, item: Item, m: seq<byte>, op: nat)
    requires At(job, g, item, m, op) && g.conforms && item.Match?
    ensures item.next + 6 <= |job.src|
    ensures |job.Out(m, op)| + |item.lits| + MFLIMIT <= g.size
    ensures |job.Out(m, op)| + |item.lits| + item.length + LASTLITERALS <= g.size
    ensures item.offset <= |job.Out(m, op)| + |item.lits|
  {
    hide ReadField, Decode, Conforming, Parse;
    var o1 := job.Out(m, op) + item.lits;
    ConformingTail(job.src, item.next, CopyMatch(o1, item.offset, item.length), g.size);
  }

  /** A finished match copy brings the decoder to the next token. */
  lemma {:induction false} MatchStep(job: Job, g: Goal, offset: nat, length: nat, next: nat,
                                     m: seq<byte>, m2: seq<byte>, op: nat, op2: nat)
    requires At(job, g, MatchItem(offset, length, next), m, op)
    requires next < |job.src| && |m2| == |m| && op2 == op + length <= job.oend
    requires offset >= 1 ==> offset <= |job.Out(m, op)|
    requires offset >= 1 ==> job.Out(m2, op2) == CopyMatch(job.Out(m, op), offset, length)
    ensures AtToken(job, g, m2, next, op2)
  {
    hide Parse, ReadField;
    if offset >= 1 {
      var item, o1, o2 := MatchItem(offset, length, next), job.Out(m, op), job.Out(m2, op2);
      assert o1 + [] == o1;
      assert DecodeItem(job.src, item, o1) == Decode(job.src, next, o2);
      assert ConformingItem(job.src, item, o1, g.size) ==> Conforming(job.src, next, o2, g.size);
    }
  }

  lemma SameSlice(m: seq<byte>, m2: seq<byte>, lo: nat, hi: nat)
    requires lo <= hi <= |m| == |m2| && forall k :: 0 <= k < hi ==> m2[k] == m[k]
    ensures m2[lo..hi] == m[lo..hi]
  {
  }

  lemma {:induction false} OutMatch(job: Job, m: seq<byte>, m2: seq<byte>, op: nat, length: nat, offset: nat)
    requires job.Low() <= op && op + length <= |m| && |m| == |m2| && 1 <= offset <= op - job.Low()
    requires forall k :: 0 <= k < op ==> m2[k] == m[k]
    requires Repeats(m2, op, op + length, offset)
    ensures job.Out(m2, op + length) == CopyMatch(job.Out(m, op), offset, length)
  {
    hide Job.Out;
    var r, o1, x := job.Out(m2, op + length), job.Out(m, op), |job.extDict|;
    OutAt(job, m2, op + length);
    OutAt(job, m, op);
    assert r[..|o1|] == o1;
    forall i | |o1| <= i < |r| ensures r[i] == r[i - offset] {
      var k := i - x + job.Low();
      assert m2[k] == m2[k - offset];
    }
    CopyMatchUnique(o1, offset, length, r);
  }

  // ----- the copying parts -----

  /** read_variable_length: the extra bytes of a length, given up when it reads beyond `ilimit`. */
  method ReadVariableLength(src: seq<byte>, ip: nat, ilimit: int, initialCheck: bool)
    returns (error: bool, length: nat, next: nat)
    requires ilimit < |src| && (initialCheck || ip < |src|)
    ensures error ==> ip <= |src| ==> ReadLength(src, ip).NoLength? || ReadLength(src, ip).next > ilimit
    ensures !error ==> ip < next <= ilimit && ReadLength(src, ip) == Length(length, next)
    ensures ip <= next
  {
    length, next := 0, ip;
    if initialCheck && ip >= ilimit {
      return true, 0, ip;
    }
    var s := src[next];
    next := next + 1;
    length := length + s;
    if next > ilimit {
      return true, length, next;
    }
    while s == 255
      invariant ip < next <= ilimit
      invariant s == 255 ==>
                  match ReadLength(src, next)
                  case NoLength => ReadLength(src, ip).NoLength?
                  case Length(v, n) => ReadLength(src, ip) == Length(length + v, n)
      invariant s != 255 ==> ReadLength(src, ip) == Length(length, next)
      decreases |src| - next, if s == 255 then 1 else 0
    {
      s := src[next];
      next := next + 1;
      length := length + s;
      if next > ilimit {
        return true, length, next;
      }
    }
    error := false;
  }

  /** A match that starts in the external dictionary and may run on into the prefix. */
  method CopyFromDict(job: Job, op: nat, offset: nat, length: nat) returns (op2: nat)
    requires job.Valid() && job.Low() <= op && op + length <= job.oend && 1 <= offset
    requires op - job.Low() < offset <= op - job.Low() + |job.extDict|
    modifies job.mem
    ensures op2 == op + length
    ensures Frame(old(job.mem[..]), job.mem[..], op, job.oend)
    ensures job.Out(job.mem[..], op2) == CopyMatch(job.Out(old(job.mem[..]), op), offset, length)
  {
    hide Job.Out, CopyMatch;
    var mem, low := job.mem, job.Low();
    ghost var m := mem[..];
    var inDict := low - (op - offset);
    op2 := op;
    if length <= inDict {
      MemCpyFrom(mem, op2, job.extDict, |job.extDict| - inDict, length);
      op2 := op2 + length;
    } else {
      var copySize, restSize := inDict, length - inDict;
      MemCpyFrom(mem, op2, job.extDict, |job.extDict| - copySize, copySize);
      op2 := op2 + copySize;
      if restSize > op2 - low {
        CopyBytes(mem, op2, low, restSize);
      } else {
        MemCpy(mem, op2, low, restSize);
      }
      op2 := op2 + restSize;
    }
    OutDictMatch(job, m, mem[..], op, length, offset);
  }

  lemma OutAt(job: Job, m: seq<byte>, op: nat)
    requires job.Low() <= op <= |m|
    ensures |job.Out(m, op)| == |job.extDict| + op - job.Low()
    ensures forall i :: 0 <= i < |job.Out(m, op)| ==>
              job.Out(m, op)[i] == if i < |job.extDict| then job.extDict[i] else m[i - |job.extDict| + job.Low()]
  {
  }

  lemma {:induction false} OutDictMatch(job: Job, m: seq<byte>, m2: seq<byte>, op: nat, length: nat, offset: nat)
    requires job.Low() <= op && op + length <= |m| && |m| == |m2|
    requires op - job.Low() < offset <= op - job.Low() + |job.extDict|
    requires forall k :: 0 <= k < op ==> m2[k] == m[k]
    requires var d := job.Low() - (op - offset);
             && (forall k :: op <= k < op + length && k < op + d ==> m2[k] == job.extDict[k - op + |job.extDict| - d])
             && (forall k :: op + d <= k < op + length ==> m2[k] == m2[k - (op + d - job.Low())])
    ensures job.Out(m2, op + length) == CopyMatch(job.Out(m, op), offset, length)
  {
    hide Job.Out;
    var r, o1 := job.Out(m2, op + length), job.Out(m, op);
    OutAt(job, m2, op + length);
    OutAt(job, m, op);
    assert r[..|o1|] == o1;
    var d, x := job.Low() - (op - offset), |job.extDict|;
    forall i | |o1| <= i < |r| ensures r[i] == r[i - offset] {
      var k := i - x + job.Low();
      assert r[i] == m2[k];
      if k >= op + d {
        assert r[i - offset] == m2[k - (op + d - job.Low())];
      }
    }
    CopyMatchUnique(o1, offset, length, r);
  }

  /** A match inside the prefix and the output, ending at `cpy`, away from the end of the buffer. */
  method CopyMatchInside(mem: array<byte>, op: nat, match0: nat, offset: nat, length: nat, oend: nat)
    requires match0 + offset == op && MINMATCH <= length && op + length + MATCH_SAFEGUARD_DISTANCE <= oend <= mem.Length
    modifies mem
    ensures offset >= 1 ==> Repeats(mem[..], op, op + length, offset)
    ensures forall k :: 0 <= k < op || oend <= k < mem.Length ==> mem[k] == old(mem[k])
  {
    var cpy := op + length;
    var s := StartMatch(mem, op, match0, offset);
    MemCpy(mem, op + 8, s, 8);
    if length > 16 {
      WildCopy8(mem, op + 16, s + 8, cpy);
    }
    if offset >= 1 && op + 8 <= cpy {
      Extend(mem[..], op, op + 8, cpy, offset, Times(offset));
    }
  }

  /** The same within MATCH_SAFEGUARD_DISTANCE of the end: strides as far as they fit, then bytes. */
  method CopyMatchNearEnd(mem: array<byte>, op: nat, match0: nat, offset: nat, length: nat, oend: nat)
    requires match0 + offset == op && MINMATCH <= length && op + MATCH_SAFEGUARD_DISTANCE <= oend <= mem.Length
    requires op + length + LASTLITERALS <= oend < op + length + MATCH_SAFEGUARD_DISTANCE
    modifies mem
    ensures offset >= 1 ==> Repeats(mem[..], op, op + length, offset)
    ensures forall k :: 0 <= k < op || oend <= k < mem.Length ==> mem[k] == old(mem[k])
  {
    var cpy := op + length;
    var s := StartMatch(mem, op, match0, offset);
    var o, oCopyLimit := op + 8, oend - (WILDCOPYLENGTH - 1);
    ghost var distance := o - s;
    if o < oCopyLimit {
      WildCopy8(mem, o, s, oCopyLimit);
      s := s + (oCopyLimit - o);
      o := oCopyLimit;
    }
    if o < cpy {
      CopyBytes(mem, o, s, cpy - o);
    }
    if offset >= 1 && op + 8 <= cpy {
      assert forall k :: op + 8 <= k < cpy ==> mem[k] == mem[k - distance];
      Extend(mem[..], op, op + 8, cpy, offset, Times(offset));
    }
  }

  datatype Status = Continue | Finished | OutputError

  /** How a call may end: with the whole output, or, decoding partially, with as much as fits. */
  ghost predicate Final(job: Job, g: Goal, m: seq<byte>, op: nat)
  {
    job.Valid() && |m| == job.mem.Length && job.dst <= op <= job.oend &&
    if job.partial then
      && (g.result.ZeroOffset? || job.Out(m, op) <= g.result.out)
      && (g.conforms ==> |job.Out(m, op)| == if g.size <= job.Room() then g.size else job.Room())
    else
      && (g.result.ZeroOffset? || g.result == Done(job.Out(m, op)))
      && (g.conforms ==> |job.Out(m, op)| == g.size)
  }

  /** Decoding partially, a match has filled the output: only the token behind it is still read. */
  ghost predicate Full(job: Job, g: Goal, m: seq<byte>, ip: nat)
  {
    && job.Valid() && job.partial && |m| == job.mem.Length
    && (g.result.ZeroOffset? || job.Out(m, job.oend) <= g.result.out)
    && (g.conforms ==> job.Room() <= g.size && ip <= |job.src| && exists o :: Conforming(job.src, ip, o, g.size))
  }

  lemma {:induction false} TruncatedMatch(job: Job, g: Goal, offset: nat, length: nat, len: nat, next: nat,
                                          m: seq<byte>, m2: seq<byte>, op: nat)
    requires At(job, g, MatchItem(offset, length, next), m, op) && job.partial
    requires len <= length && |m2| == |m| && op + len == job.oend
    requires offset >= 1 ==> offset <= |job.Out(m, op)|
    requires offset >= 1 ==> job.Out(m2, job.oend) == CopyMatch(job.Out(m, op), offset, len)
    ensures Full(job, g, m2, next)
  {
    hide Parse, ReadField;
    if offset >= 1 {
      var item, o1 := MatchItem(offset, length, next), job.Out(m, op);
      assert o1 + [] == o1;
      var o2 := CopyMatch(o1, offset, length);
      CopyMatchPrefix(o1, offset, len, length);
      if g.conforms {
        assert Conforming(job.src, next, o2, g.size);
        ConformingDecodes(job.src, next, o2, g.size);
      }
    }
  }

  // ----- the labelled blocks of the safe loop -----

  /** A match starting within the external dictionary; both loops have this block. */
  method DictMatchCopy(job: Job, op0: nat, offset: nat, length0: nat, ghost next: nat, ghost g: Goal)
    returns (status: Status, op: nat)
    requires Fits(job, g) && job.dst <= op0 <= job.oend && MINMATCH <= length0 && next < |job.src|
    requires At(job, g, MatchItem(offset, length0, next), job.mem[..], op0)
    requires op0 - job.Low() < offset <= op0 - job.Low() + |job.extDict|
    requires g.conforms ==> |job.Out(job.mem[..], op0)| + length0 + LASTLITERALS <= g.size
    modifies job.mem
    ensures Frame(old(job.mem[..]), job.mem[..], op0, job.oend)
    ensures status == Continue ==> AtToken(job, g, job.mem[..], next, op) ||
                                   (op == job.oend && Full(job, g, job.mem[..], next))
    ensures status == Continue && op0 + length0 + LASTLITERALS <= job.oend ==>
              op == op0 + length0 && AtToken(job, g, job.mem[..], next, op)
    ensures status == OutputError ==> !g.conforms && op0 + length0 + LASTLITERALS > job.oend
    ensures !job.partial && op0 + length0 + LASTLITERALS > job.oend ==> status == OutputError
    ensures status != Finished && op0 <= op
  {
    hide At, AtToken, Full, MatchItem;
    var length := length0;
    ghost var m := job.mem[..];
    op := op0;
    if op + length > job.oend - LASTLITERALS {
      if job.partial {
        length := if length < job.oend - op then length else job.oend - op;
      } else {
        return OutputError, op;
      }
    }
    op := CopyFromDict(job, op, offset, length);
    if length == length0 {
      MatchStep(job, g, offset, length0, next, m, job.mem[..], op0, op);
    } else {
      TruncatedMatch(job, g, offset, length0, length, next, m, job.mem[..], op0);
    }
    return Continue, op;
  }

  lemma FullIsFinal(job: Job, g: Goal, m: seq<byte>, ip: nat)
    requires Full(job, g, m, ip)
    ensures Final(job, g, m, job.oend)
  {
  }

  /** Bytewise when the match overlaps what it writes, at once otherwise. */
  method CopyAnyMatch(mem: array<byte>, op: nat, match0: nat, offset: nat, mlen: nat)
    requires match0 + offset == op && op + mlen <= mem.Length
    modifies mem
    ensures offset >= 1 ==> Repeats(mem[..], op, op + mlen, offset)
    ensures forall k :: 0 <= k < op || op + mlen <= k < mem.Length ==> mem[k] == old(mem[k])
  {
    if match0 + mlen > op {
      CopyBytes(mem, op, match0, mlen);
    } else {
      MemCpy(mem, op, match0, mlen);
    }
  }

  /** Partial decoding: a match that may end anywhere, even in the middle. */
  method PartialMatchCopy(job: Job, op0: nat, match0: nat, offset: nat, length: nat, ghost next: nat, ghost g: Goal)
    returns (status: Status, op: nat)
    requires Fits(job, g) && job.partial && op0 <= job.oend && next < |job.src| && job.Low() <= match0
             && match0 + offset == op0
    requires At(job, g, MatchItem(offset, length, next), job.mem[..], op0)
    modifies job.mem
    ensures Frame(old(job.mem[..]), job.mem[..], op0, job.oend)
    ensures status == Continue ==> AtToken(job, g, job.mem[..], next, op)
    ensures status == Finished ==> Final(job, g, job.mem[..], op)
    ensures status != OutputError && op0 <= op
  {
    hide At, AtToken, Full, Final, MatchItem, Repeats;
    ghost var m := job.mem[..];
    var mlen := if length < job.oend - op0 then length else job.oend - op0;
    CopyAnyMatch(job.mem, op0, match0, offset, mlen);
    op := op0 + mlen;
    if offset >= 1 {
      OutMatch(job, m, job.mem[..], op0, mlen, offset);
    }
    if op == job.oend {
      TruncatedMatch(job, g, offset, length, mlen, next, m, job.mem[..], op0);
      FullIsFinal(job, g, job.mem[..], next);
      return Finished, op;
    }
    MatchStep(job, g, offset, length, next, m, job.mem[..], op0, op);
    return Continue, op;
  }

  /** From the label safe_match_copy to the end of the loop body. */
  method SafeMatchCopy(job: Job, op0: nat, offset: nat, length: nat, ghost next: nat, ghost g: Goal)
    returns (status: Status, op: nat)
    requires Fits(job, g) && job.dst <= op0 <= job.oend && offset <= DISTANCE_MAX && MINMATCH <= length
             && next < |job.src|
    requires At(job, g, MatchItem(offset, length, next), job.mem[..], op0)
    requires !job.partial ==> op0 + MATCH_SAFEGUARD_DISTANCE <= job.oend
    requires Walks(job, g, CopyAhead(job, offset, length, next, op0))
    modifies job.mem
    ensures Frame(old(job.mem[..]), job.mem[..], job.dst, job.oend)
    ensures status == Continue ==> job.dst <= op && Walks(job, g, TokenAhead(job, next, op))
    ensures status == OutputError ==> Walks(job, g, Refused)
    ensures !job.partial ==> status != Finished
    ensures status == Continue ==> AtToken(job, g, job.mem[..], next, op) ||
                                   (op == job.oend && Full(job, g, job.mem[..], next))
    ensures status == Finished ==> Final(job, g, job.mem[..], op)
    ensures status == OutputError ==> !g.conforms
  {
    hide CopyMatch;
    hide At, AtToken, Full, Final, MatchItem, Repeats, TokenAhead, CopyAhead, WalkToken, WalkCopy;
    CopyTested(job, offset, length, next, op0);
    var mem, oend, match0: int := job.mem, job.oend, op0 - offset;
    ghost var m := mem[..];
    op := op0;
    ConformingMatch(job, g, offset, length, next, m, op0);
    if |job.extDict| < 65536 && match0 + |job.extDict| < job.lowPrefix {
      return OutputError, op;
    }
    if job.dict == UsingExtDict && match0 < job.lowPrefix {
      status, op := DictMatchCopy(job, op, offset, length, next, g);
      return;
    }
    var cpy := op + length;
    if job.partial && cpy > oend - MATCH_SAFEGUARD_DISTANCE {
      status, op := PartialMatchCopy(job, op, match0, offset, length, next, g);
      return;
    }
    if cpy > oend - MATCH_SAFEGUARD_DISTANCE {
      if cpy > oend - LASTLITERALS {
        return OutputError, op + 8;
      }
      CopyMatchNearEnd(mem, op, match0, offset, length, oend);
    } else {
      CopyMatchInside(mem, op, match0, offset, length, oend);
    }
    op := cpy;
    if offset >= 1 {
      OutMatch(job, m, mem[..], op0, length, offset);
    }
    MatchStep(job, g, offset, length, next, m, mem[..], op0, op);
    return Continue, op;
  }

  lemma {:induction false} ConformingMatch(job: Job, g: Goal, offset: nat, length: nat, next: nat, m: seq<byte>,
                                           op: nat)
    requires At(job, g, MatchItem(offset, length, next), m, op)
    ensures g.conforms ==>
              && 1 <= offset <= |job.Out(m, op)| && next + 6 <= |job.src|
              && |job.Out(m, op)| + MFLIMIT <= g.size && |job.Out(m, op)| + length + LASTLITERALS <= g.size
  {
    hide Parse, Decode, Conforming;
    if g.conforms && offset >= 1 {
      MatchTail(job, g, MatchItem(offset, length, next), m, op);
    }
  }
  /** From the label safe_literal_copy up to the reading of the offset. */
  method SafeLiteralCopy(job: Job, ip0: nat, op0: nat, length0: nat, ghost nibble: nat, ghost g: Goal)
    returns (status: Status, ip: nat, op: nat)
    requires Fits(job, g) && ip0 <= |job.src| && job.dst <= op0 <= job.oend
    requires At(job, g, ParseLiterals(job.src, ip0, length0, nibble), job.mem[..], op0) ||
             (op0 == job.oend && exists p :: Full(job, g, job.mem[..], p))
    requires Walks(job, g, LiteralsAhead(job, ip0, length0, nibble, op0))
    modifies job.mem
    ensures Frame(old(job.mem[..]), job.mem[..], job.dst, job.oend) && ip0 <= ip
    ensures status == Continue ==> job.dst <= op && ip + 2 < |job.src| && Walks(job, g, MatchAhead(job, ip, nibble, op))
    ensures status == Finished ==> job.dst <= op && Walks(job, g, Reaches(op - job.dst))
    ensures status == OutputError ==> Walks(job, g, Refused)
    ensures status == Continue ==>
              && ip + 2 < |job.src|
              && At(job, g, ParseMatch(job.src, ip, [], nibble), job.mem[..], op)
                 && (!job.partial ==> op + MATCH_SAFEGUARD_DISTANCE <= job.oend)
    ensures status == Finished ==> Final(job, g, job.mem[..], op)
    ensures status == OutputError ==> !g.conforms
  {
    hide At, Full, Final, ParseLiterals, ParseMatch, WalkMatch;
    var mem, oend, iend, length := job.mem, job.oend, |job.src|, length0;
    ghost var m := mem[..];
    ip, op := ip0, op0;
    var cpy := op + length;
    if cpy > oend - MFLIMIT || ip + length > iend - (2 + 1 + LASTLITERALS) {
      if job.partial {
        if ip + length > iend {
          length := iend - ip;
          cpy := op + length;
        }
        if cpy > oend {
          cpy := oend;
          length := oend - op;
        }
      } else {
        if ip + length != iend || cpy > oend {
          if g.conforms { LastLiteralsFit(job, g, ip0, length0, nibble, m, op0); }
          return OutputError, ip, op;
        }
      }
      MemCpyFrom(mem, op, job.src, ip, length);
      ip, op := ip + length, op + length;
      if !job.partial || cpy == oend || ip >= iend - 2 {
        LiteralsEnd(job, g, ip0, length0, length, nibble, m, mem[..], op0);
        return Finished, ip, op;
      }
    } else {
      WildCopy8From(mem, op, job.src, ip, cpy);
      ip, op := ip + length, cpy;
    }
    LiteralsStep(job, g, ip0, length0, nibble, m, mem[..], op0);
    return Continue, ip, op;
  }

  /** Decoding in full, a conforming block hits the parsing restrictions only with its last run. */
  lemma {:induction false} LastLiteralsFit(job: Job, g: Goal, q: nat, length: nat, nibble: nat, m: seq<byte>, op: nat)
    requires Fits(job, g) && !job.partial && q <= |job.src| && g.conforms
    requires At(job, g, ParseLiterals(job.src, q, length, nibble), m, op)
             || (op == job.oend && exists p :: Full(job, g, m, p))
    requires op + length > job.oend - MFLIMIT || q + length > |job.src| - 8
    ensures q + length == |job.src| && op + length <= job.oend
  {
    hide ReadField, Decode, Conforming;
    var item := ParseLiterals(job.src, q, length, nibble);
    if item.Match? { MatchTail(job, g, item, m, op); }
  }

  /** The literal run that ends a call: all of it, or as much as the input or the output holds. */
  lemma {:induction false} LiteralsEnd(job: Job, g: Goal, q: nat, length0: nat, length: nat, nibble: nat,
                                       m: seq<byte>, m2: seq<byte>, op: nat)
    requires Fits(job, g) && q + length <= |job.src| && length <= length0 && op + length <= job.oend
    requires At(job, g, ParseLiterals(job.src, q, length0, nibble), m, op) ||
             (op == job.oend && exists p :: Full(job, g, m, p))
    requires Frame(m, m2, op, job.oend)
    requires forall k :: op <= k < op + length ==> m2[k] == job.src[k - op + q]
    requires if job.partial
             then op + length == job.oend
                 || (q + length >= |job.src| - 2 && (length == length0 || q + length == |job.src|))
             else length == length0 && q + length == |job.src|
    ensures Final(job, g, m2, op + length)
  {
    hide At, Final, ParseLiterals;
    if At(job, g, ParseLiterals(job.src, q, length0, nibble), m, op) {
      RunEnd(job, g, q, length0, length, nibble, m, m2, op);
    } else {
      var p :| Full(job, g, m, p);
      SameSlice(m, m2, job.Low(), op);
      FullIsFinal(job, g, m2, p);
    }
  }

  lemma {:induction false} RunEnd(job: Job, g: Goal, q: nat, length0: nat, length: nat, nibble: nat,
                                  m: seq<byte>, m2: seq<byte>, op: nat)
    requires Fits(job, g) && q + length <= |job.src| && length <= length0 && op + length <= job.oend
    requires At(job, g, ParseLiterals(job.src, q, length0, nibble), m, op)
    requires Frame(m, m2, op, job.oend)
    requires forall k :: op <= k < op + length ==> m2[k] == job.src[k - op + q]
    requires if job.partial
             then op + length == job.oend
                 || (q + length >= |job.src| - 2 && (length == length0 || q + length == |job.src|))
             else length == length0 && q + length == |job.src|
    ensures Final(job, g, m2, op + length)
  {
    hide Parse, ParseMatch, ReadField, DecodeItem, ConformingItem, ReadLength;
    var lits, item, o1 := job.src[q..q + length], ParseLiterals(job.src, q, length0, nibble), job.Out(m, op);
    OutLiterals(job, m, m2, op, lits);
    assert o1 + lits <= o1 + item.lits by {
      assert lits <= item.lits;
    }
    ItemOutput(job.src, item, o1, g.size);
    if g.conforms && item.Match? {
      MatchTail(job, g, item, m, op);
    }
  }

  /** The literals of an item are part of the output; a conforming block owes no less than them. */
  lemma {:induction false} ItemOutput(s: seq<byte>, item: Item, out: seq<byte>, end: nat)
    requires item.Match? ==> item.next <= |s| && 1 <= item.offset
    ensures out + item.lits <= DecodeItem(s, item, out).out
    ensures item.Last? ==> DecodeItem(s, item, out) == Done(out + item.lits)
    ensures ConformingItem(s, item, out, end) ==>
              |out| + |item.lits| <= end && (item.Last? ==> |out| + |item.lits| == end) && (item.Last? || item.Match?)
  {
    hide Decode, Conforming, Parse;
  }

  // ----- reading tokens and lengths -----

  /** A token and its literal length read: the item is the literal run they announce. */
  lemma {:induction false} TokenStep(job: Job, g: Goal, p: nat, m: seq<byte>, op: nat)
    requires AtToken(job, g, m, p, op)
    ensures match ReadField(job.src, p + 1, job.src[p] / 16)
            case NoLength => !g.conforms
            case Length(v, n) => At(job, g, ParseLiterals(job.src, n, v, job.src[p] % 16), m, op) &&
                                 (g.conforms ==> n + v <= |job.src|)
  {
    hide ReadField, Decode, Conforming, ParseMatch;
  }

  lemma {:induction false} FullTokenStep(job: Job, g: Goal, p: nat, m: seq<byte>)
    requires Full(job, g, m, p) && p < |job.src|
    ensures match ReadField(job.src, p + 1, job.src[p] / 16)
            case NoLength => !g.conforms
            case Length(v, n) => g.conforms ==> n + v <= |job.src|
  {
    hide ReadField, ParseMatch;
    if g.conforms {
      var o :| Conforming(job.src, p, o, g.size);
      assert ConformingItem(job.src, Parse(job.src, p), o, g.size);
    }
  }

  /** A failed read of the extra match length: the block does not conform. */
  lemma {:induction false} MatchLengthError(job: Job, g: Goal, q: nat, m: seq<byte>, op: nat)
    requires q + 2 <= |job.src| && At(job, g, ParseMatch(job.src, q, [], 15), m, op)
    requires ReadLength(job.src, q + 2).NoLength? || ReadLength(job.src, q + 2).next > |job.src| - LASTLITERALS + 1
    ensures !g.conforms
  {
    hide Parse, Decode, Conforming, ReadLength;
    OffsetStep(job, g, q, 15, m, op);
    var f := ReadField(job.src, q + 2, 15);
    if f.Length? {
      ConformingMatch(job, g, Offset(job.src, q), f.value + MINMATCH, f.next, m, op);
    }
  }

  /** The literal length behind the token at p. */
  method ReadLiteralLength(job: Job, token: byte, p: nat, op: nat, ghost g: Goal)
    returns (error: bool, ip: nat, length: nat)
    requires p < |job.src| && token == job.src[p]
    requires AtToken(job, g, job.mem[..], p, op) || (op == job.oend && Full(job, g, job.mem[..], p))
    ensures p < ip && (token / 16 != RUN_MASK ==> !error && length == token / 16 && ip == p + 1)
    ensures error ==> !g.conforms
    ensures var f := ReadField(job.src, p + 1, token / 16);
            if error then f.NoLength? || f.next > |job.src| - RUN_MASK else f == Length(length, ip)
    ensures !error ==> ip <= |job.src| && (AtToken(job, g, job.mem[..], p, op) ==>
              At(job, g, ParseLiterals(job.src, ip, length, token % 16), job.mem[..], op))
  {
    hide Parse, ParseMatch, ParseLiterals, ReadLength, DecodeItem, Decode, ConformingItem, Conforming;
    ip, length, error := p + 1, token / 16, false;
    if length == RUN_MASK {
      var addl;
      error, addl, ip := ReadVariableLength(job.src, ip, |job.src| - RUN_MASK, true);
      length := length + addl;
    }
    if AtToken(job, g, job.mem[..], p, op) {
      TokenStep(job, g, p, job.mem[..], op);
    } else {
      FullTokenStep(job, g, p, job.mem[..]);
    }
  }

  /** Offset and match length, from behind the literals up to the label safe_match_copy. */
  method ReadMatchLength(job: Job, q: nat, nibble: nat, op: nat, ghost g: Goal)
    returns (error: bool, ip: nat, length: nat)
    requires q + 2 < |job.src| && At(job, g, ParseMatch(job.src, q, [], nibble), job.mem[..], op)
    ensures q + 2 <= ip
    ensures error ==> !g.conforms
    ensures var f := ReadField(job.src, q + 2, nibble);
            if error then nibble == ML_MASK && (f.NoLength? || f.next > |job.src| - LASTLITERALS + 1)
            else MINMATCH <= length && f == Length(length - MINMATCH, ip) &&
                 (nibble == ML_MASK ==> ip <= |job.src| - LASTLITERALS + 1)
    ensures !error ==> ip < |job.src| && MINMATCH <= length
    ensures !error ==> At(job, g, MatchItem(Offset(job.src, q), length, ip), job.mem[..], op)
    ensures !error && nibble != ML_MASK ==> length == nibble + MINMATCH && ip == q + 2
  {
    hide Parse, ParseMatch, ParseLiterals, ReadLength, DecodeItem, Decode, ConformingItem, Conforming;
    ip, length, error := q + 2, nibble, false;
    OffsetStep(job, g, q, nibble, job.mem[..], op);
    if length == ML_MASK {
      var addl;
      error, addl, ip := ReadVariableLength(job.src, ip, |job.src| - LASTLITERALS + 1, false);
      if error {
        MatchLengthError(job, g, q, job.mem[..], op);
        return;
      }
      length := length + addl;
    }
    length := length + MINMATCH;
  }

  // ----- the fast loop -----

  /** How an iteration of the fast loop, or half of it, goes on. */
  datatype FastExit = Again | ToLiteralCopy | ToMatchCopy | FastError

  /** Token and literals, copied 16 or 32 bytes at a time. */
  method FastLiterals(job: Job, ip0: nat, op0: nat, ghost g: Goal)
    returns (exit: FastExit, ip: nat, op: nat, length: nat)
    requires Fits(job, g) && AtToken(job, g, job.mem[..], ip0, op0) && op0 + FASTLOOP_SAFE_DISTANCE <= job.oend
    requires Walks(job, g, TokenAhead(job, ip0, op0))
    modifies job.mem
    ensures Frame(old(job.mem[..]), job.mem[..], job.dst, job.oend) && ip0 < ip && op0 <= op
    ensures exit == Again ==> ip + 2 < |job.src| && op + 32 <= job.oend
    ensures exit == Again ==> Walks(job, g, MatchAhead(job, ip, job.src[ip0] % 16, op))
    ensures exit == ToLiteralCopy ==>
            ip <= |job.src| && Walks(job, g, LiteralsAhead(job, ip, length, job.src[ip0] % 16, op))
    ensures exit == FastError ==> Walks(job, g, Refused)
    ensures exit == Again ==> At(job, g, ParseMatch(job.src, ip, [], job.src[ip0] % 16), job.mem[..], op)
    ensures exit == ToLiteralCopy ==> ip <= |job.src|
    ensures exit == ToLiteralCopy ==> At(job, g, ParseLiterals(job.src, ip, length, job.src[ip0] % 16), job.mem[..], op)
    ensures exit == FastError ==> !g.conforms
    ensures exit != ToMatchCopy
  {
    hide Parse, ParseMatch, ParseLiterals, ReadField, ReadLength, DecodeItem, Decode, ConformingItem, Conforming;
    ghost var m := job.mem[..];
    var iend, token, error := |job.src|, job.src[ip0], false;
    op := op0;
    error, ip, length := ReadLiteralLength(job, token, ip0, op, g);
    if error {
      LongRunRefused(job, ip0, op);
      return FastError, ip, op, length;
    }
    FastToken(job, ip0, ip, length, op);
    var start := ip;
    if token / 16 == RUN_MASK {
      if op + length > job.oend - 32 || ip + length > iend - 32 {
        return ToLiteralCopy, ip, op, length;
      }
      WildCopy32From(job.mem, op, job.src, ip, op + length);
    } else if ip <= iend - (16 + 1) {
      MemCpyFrom(job.mem, op, job.src, ip, 16);
    } else {
      return ToLiteralCopy, ip, op, length;
    }
    ip, op := ip + length, op + length;
    LiteralsStep(job, g, start, length, token % 16, m, job.mem[..], op0);
    return Again, ip, op, length;
  }

  /** A length that cannot be read within its limit belongs to a run that could not be the last one. */
  lemma LongRunRefused(job: Job, p: nat, op: nat)
    requires job.Valid() && p < |job.src| && job.dst <= op
    requires var f := ReadField(job.src, p + 1, job.src[p] / 16); f.NoLength? || f.next > |job.src| - RUN_MASK
    requires job.src[p] / 16 == RUN_MASK
    ensures TokenAhead(job, p, op) == Refused
  {
    hide ReadLength, WalkMatch;
    var f := ReadField(job.src, p + 1, RUN_MASK);
    if f.Length? {
      assert RUN_MASK <= f.value;
      assert TokenAhead(job, p, op) == LiteralsAhead(job, f.next, f.value, job.src[p] % 16, op);
    }
  }

  /** What the tests of a match say about what is ahead. */
  lemma MatchTested(job: Job, q: nat, nibble: nat, length: nat, next: nat, op: nat)
    requires job.Valid() && q + 2 < |job.src| && next < |job.src| && job.dst <= op && MINMATCH <= length
    requires ReadField(job.src, q + 2, nibble) == Length(length - MINMATCH, next)
    requires nibble == ML_MASK ==> next <= |job.src| - LASTLITERALS + 1
    ensures MatchAhead(job, q, nibble, op) == CopyAhead(job, Offset(job.src, q), length, next, op)
  {
    hide WalkCopy, ReadField;
  }

  lemma CopyTested(job: Job, offset: nat, length: nat, next: nat, op: nat)
    requires job.Valid() && next < |job.src| && job.dst <= op
    ensures CopyAhead(job, offset, length, next, op) ==
            if op - offset + |job.extDict| < job.lowPrefix || op + length + LASTLITERALS > job.oend
            then Refused
            else TokenAhead(job, next, op + length)
  {
    hide WalkToken;
  }

  /** In the fast loop the output is so far from its end that it makes no difference whether a short match is
      tested. */
  lemma FastToken(job: Job, p: nat, q: nat, length: nat, op: nat)
    requires job.Valid() && p < |job.src| && job.dst <= op && op + FASTLOOP_SAFE_DISTANCE <= job.oend
    requires ReadField(job.src, p + 1, job.src[p] / 16) == Length(length, q)
    ensures var nibble := job.src[p] % 16;
            TokenAhead(job, p, op) == if job.src[p] / 16 != RUN_MASK && q <= |job.src| - (16 + 1)
                                      then MatchAhead(job, q + length, nibble, op + length)
                                      else LiteralsAhead(job, q, length, nibble, op)
  {
    hide ReadLength;
    var e, nibble, o := job.Around(), job.src[p] % 16, op - job.dst;
    if Roomy(job.src, e, p, o) && Unchecked(job.src, e, q + length, nibble, o + length) {
      var offset := Offset(job.src, q + length);
      assert WalkCopy(job.src, e, offset, nibble + MINMATCH, q + length + 2, o + length) ==
             WalkToken(job.src, e, q + length + 2, o + length + nibble + MINMATCH);
    }
  }

  /** Three copies on behalf of a match of at most 18 bytes at a distance of at least 8. */
  method Copy18(mem: array<byte>, op: nat, match0: nat, ghost length: nat)
    requires match0 + 8 <= op && op + 18 <= mem.Length && length <= 18
    modifies mem
    ensures Repeats(mem[..], op, op + length, op - match0)
    ensures forall k :: 0 <= k < op || op + 18 <= k < mem.Length ==> mem[k] == old(mem[k])
  {
    MemCpy(mem, op, match0, 8);
    MemCpy(mem, op + 8, match0 + 8, 8);
    MemCpy(mem, op + 16, match0 + 16, 2);
  }

  method FastCopy(mem: array<byte>, op: nat, match0: nat, cpy: nat, offset: nat)
    requires match0 + offset == op && op + MINMATCH <= cpy && cpy + 32 <= mem.Length
    modifies mem
    ensures offset >= 1 ==> Repeats(mem[..], op, cpy, offset)
    ensures forall k :: 0 <= k < op || cpy + 32 <= k < mem.Length ==> mem[k] == old(mem[k])
  {
    if offset < 16 {
      CopyUsingOffset(mem, op, match0, cpy, offset);
    } else {
      WildCopy32(mem, op, match0, cpy);
    }
  }

  /** A match that stays FASTLOOP_SAFE_DISTANCE away from the end of the output. */
  method FastFarMatch(job: Job, op0: nat, offset: nat, length: nat, ghost ip: nat, ghost g: Goal)
    returns (exit: FastExit, op: nat)
    requires Fits(job, g) && ip < |job.src| && MINMATCH <= length && offset <= DISTANCE_MAX
    requires job.dst <= op0 && op0 + length < job.oend - FASTLOOP_SAFE_DISTANCE
    requires At(job, g, MatchItem(offset, length, ip), job.mem[..], op0)
    requires Walks(job, g, CopyAhead(job, offset, length, ip, op0))
    modifies job.mem
    ensures Frame(old(job.mem[..]), job.mem[..], op0, job.oend)
    ensures exit == Again ==> op == op0 + length && Walks(job, g, TokenAhead(job, ip, op))
    ensures exit == FastError ==> Walks(job, g, Refused)
    ensures exit == Again ==> op == op0 + length && AtToken(job, g, job.mem[..], ip, op)
    ensures op0 <= op && (exit == FastError ==> !g.conforms)
    ensures exit == Again || exit == FastError
  {
    hide At, AtToken, Full, MatchItem, Repeats, WalkToken, WalkCopy, TokenAhead, CopyAhead;
    ghost var m := job.mem[..];
    CopyTested(job, offset, length, ip, op0);
    op := op0;
    var match0: int := op - offset;
    ConformingMatch(job, g, offset, length, ip, m, op0);
    if |job.extDict| < 65536 && match0 + |job.extDict| < job.lowPrefix {
      return FastError, op;
    }
    if job.dict == UsingExtDict && match0 < job.lowPrefix {
      var status;
      status, op := DictMatchCopy(job, op, offset, length, ip, g);
      return Again, op;
    }
    var cpy := op + length;
    FastCopy(job.mem, op, match0, cpy, offset);
    op := cpy;
    if offset >= 1 {
      OutMatch(job, m, job.mem[..], op0, length, offset);
    }
    MatchStep(job, g, offset, length, ip, m, job.mem[..], op0, op);
    return Again, op;
  }

  /** A match of at most 18 bytes inside prefix and output, at a distance of at least 8. */
  method ShortMatchCopy(job: Job, op0: nat, offset: nat, length: nat, ghost next: nat, ghost g: Goal) returns (op: nat)
    requires job.Valid() && next < |job.src| && job.dst <= op0 && op0 + 18 <= job.oend && length <= 18
    requires 8 <= offset <= DISTANCE_MAX && (job.dict == WithPrefix64k || job.lowPrefix + offset <= op0)
    requires At(job, g, MatchItem(offset, length, next), job.mem[..], op0)
    modifies job.mem
    ensures Frame(old(job.mem[..]), job.mem[..], op0, job.oend)
    ensures op == op0 + length && AtToken(job, g, job.mem[..], next, op)
  {
    hide CopyMatch;
    hide At, AtToken, MatchItem, Repeats;
    ghost var m := job.mem[..];
    Copy18(job.mem, op0, op0 - offset, length);
    op := op0 + length;
    OutMatch(job, m, job.mem[..], op0, length, offset);
    MatchStep(job, g, offset, length, next, m, job.mem[..], op0, op);
  }

  /** Offset, match length and match of a fast iteration. */
  method FastMatch(job: Job, q: nat, op0: nat, nibble: nat, ghost g: Goal)
    returns (exit: FastExit, ip: nat, op: nat, length: nat, offset: nat)
    requires Fits(job, g) && q + 2 < |job.src| && job.dst <= op0 && op0 + 32 <= job.oend && nibble <= 15
    requires At(job, g, ParseMatch(job.src, q, [], nibble), job.mem[..], op0)
             && Walks(job, g, MatchAhead(job, q, nibble, op0))
    modifies job.mem
    ensures Frame(old(job.mem[..]), job.mem[..], op0, job.oend) && q < ip && op0 <= op
    ensures exit == Again ==> ip < |job.src| && Walks(job, g, TokenAhead(job, ip, op))
    ensures exit == ToMatchCopy ==> ip < |job.src| && Walks(job, g, CopyAhead(job, offset, length, ip, op))
    ensures exit == FastError ==> Walks(job, g, Refused)
    ensures exit == Again ==> op + FASTLOOP_SAFE_DISTANCE <= job.oend && AtToken(job, g, job.mem[..], ip, op)
    ensures exit == ToMatchCopy ==>
            ip < |job.src| && MINMATCH <= length && offset <= DISTANCE_MAX && op + 32 <= job.oend
    ensures exit == ToMatchCopy ==> At(job, g, MatchItem(offset, length, ip), job.mem[..], op)
    ensures exit == FastError ==> !g.conforms
    ensures exit != ToLiteralCopy
  {
    hide At, AtToken, Full, MatchItem, Repeats, Offset, WalkToken, WalkCopy, ReadField, TokenAhead, CopyAhead;
    var error;
    op, offset := op0, Offset(job.src, q);
    var match0: int := op - offset;
    error, ip, length := ReadMatchLength(job, q, nibble, op, g);
    if error {
      return FastError, ip, op, length, offset;
    }
    MatchTested(job, q, nibble, length, ip, op);
    if op + length >= job.oend - FASTLOOP_SAFE_DISTANCE {
      return ToMatchCopy, ip, op, length, offset;
    }
    if nibble != ML_MASK && (job.dict == WithPrefix64k || match0 >= job.lowPrefix) && offset >= 8 {
      op := ShortMatchCopy(job, op, offset, length, ip, g);
      CopyTested(job, offset, length, ip, op0);
      return Again, ip, op, length, offset;
    }
    exit, op := FastFarMatch(job, op, offset, length, ip, g);
  }

  /** Decode sequences as long as the output stays FASTLOOP_SAFE_DISTANCE away from its end. */
  method FastLoop(job: Job, ghost g: Goal)
    returns (exit: FastExit, ip: nat, op: nat, length: nat, offset: nat, nibble: nat)
    requires Fits(job, g) && AtToken(job, g, job.mem[..], 0, job.dst) && job.dst + FASTLOOP_SAFE_DISTANCE <= job.oend
    requires Walks(job, g, TokenAhead(job, 0, job.dst))
    modifies job.mem
    ensures Frame(old(job.mem[..]), job.mem[..], job.dst, job.oend)
    ensures exit == ToLiteralCopy ==> ip <= |job.src|
    ensures exit == ToLiteralCopy ==> At(job, g, ParseLiterals(job.src, ip, length, nibble), job.mem[..], op)
    ensures exit == ToMatchCopy ==>
            ip < |job.src| && MINMATCH <= length && offset <= DISTANCE_MAX && op + 32 <= job.oend
    ensures exit == ToMatchCopy ==> At(job, g, MatchItem(offset, length, ip), job.mem[..], op)
    ensures exit == ToMatchCopy || exit == ToLiteralCopy ==> job.dst <= op <= job.oend
    ensures exit == ToLiteralCopy ==> Walks(job, g, LiteralsAhead(job, ip, length, nibble, op))
    ensures exit == ToMatchCopy ==> Walks(job, g, CopyAhead(job, offset, length, ip, op))
    ensures exit == FastError ==> !g.conforms && Walks(job, g, Refused)
    ensures exit != Again && nibble <= 15
  {
    hide Parse, ParseMatch, ParseLiterals, ReadField, DecodeItem, Decode, ConformingItem, Conforming;
    ip, op, length, offset, nibble := 0, job.dst, 0, 0, 0;
    while true
      invariant AtToken(job, g, job.mem[..], ip, op) && op + FASTLOOP_SAFE_DISTANCE <= job.oend
      invariant Walks(job, g, TokenAhead(job, ip, op))
      invariant Frame(old(job.mem[..]), job.mem[..], job.dst, job.oend) && nibble <= 15
      decreases |job.src| - ip
    {
      nibble := job.src[ip] % 16;
      exit, ip, op, length := FastLiterals(job, ip, op, g);
      if exit != Again {
        return;
      }
      exit, ip, op, length, offset := FastMatch(job, ip, op, nibble, g);
      if exit != Again {
        return;
      }
    }
  }

  // ----- the safe loop and the whole call -----

  /** Both stages of the shortcut. `taken` says that the second one worked; otherwise the literals
      are copied and the offset at `ip` is next. */
  method Shortcut(job: Job, p: nat, op0: nat, ghost g: Goal) returns (taken: bool, ip: nat, op: nat)
    requires Fits(job, g) && AtToken(job, g, job.mem[..], p, op0)
    requires job.src[p] / 16 != RUN_MASK && p + 1 < |job.src| - 16 && op0 <= job.oend - 32
    requires Walks(job, g, TokenAhead(job, p, op0))
    modifies job.mem
    ensures Frame(old(job.mem[..]), job.mem[..], job.dst, job.oend) && p < ip
    ensures taken ==> AtToken(job, g, job.mem[..], ip, op)
    ensures taken ==> Walks(job, g, TokenAhead(job, ip, op))
    ensures !taken ==> ip + 2 < |job.src| && job.dst <= op && op + 18 <= job.oend
    ensures !taken ==> Walks(job, g, MatchAhead(job, ip, job.src[p] % 16, op))
    ensures !taken ==> At(job, g, ParseMatch(job.src, ip, [], job.src[p] % 16), job.mem[..], op)
  {
    hide Parse, ParseMatch, ParseLiterals, ReadField, DecodeItem, Decode, ConformingItem, Conforming;
    ghost var m := job.mem[..];
    var token, length, error := job.src[p], 0, false;
    error, ip, length := ReadLiteralLength(job, token, p, op0, g);
    op := op0;
    MemCpyFrom(job.mem, op, job.src, ip, 16);
    ip, op := ip + length, op + length;
    LiteralsStep(job, g, p + 1, length, token % 16, m, job.mem[..], op0);
    taken, ip, op := ShortcutMatch(job, ip, op, token % 16, g);
  }

  lemma ShortMatch(job: Job, g: Goal, q: nat, nibble: nat, m: seq<byte>, op: nat)
    requires q + 2 <= |job.src| && nibble != ML_MASK && At(job, g, ParseMatch(job.src, q, [], nibble), m, op)
    ensures At(job, g, MatchItem(Offset(job.src, q), nibble + MINMATCH, q + 2), m, op)
  {
    OffsetStep(job, g, q, nibble, m, op);
  }

  method ShortcutMatch(job: Job, q: nat, op0: nat, nibble: nat, ghost g: Goal) returns (taken: bool, ip: nat, op: nat)
    requires Fits(job, g) && q + 2 < |job.src| && job.dst <= op0 && op0 + 18 <= job.oend && nibble <= 15
    requires At(job, g, ParseMatch(job.src, q, [], nibble), job.mem[..], op0)
    modifies job.mem
    ensures Frame(old(job.mem[..]), job.mem[..], op0, job.oend)
    ensures taken ==> q < ip && AtToken(job, g, job.mem[..], ip, op)
    ensures taken <==> Unchecked(job.src, job.Around(), q, nibble, op0 - job.dst)
    ensures taken ==> ip == q + 2 && op == op0 + nibble + MINMATCH
    ensures !taken ==> ip == q && op == op0 && At(job, g, ParseMatch(job.src, q, [], nibble), job.mem[..], op)
  {
    hide At, AtToken, MatchItem, Offset;
    ip, op := q, op0;
    var offset, length := Offset(job.src, q), nibble;
    var match0: int := op - offset;
    taken := length != ML_MASK && offset >= 8 && (job.dict == WithPrefix64k || match0 >= job.lowPrefix);
    if taken {
      ShortMatch(job, g, q, nibble, job.mem[..], op);
      length := length + MINMATCH;
      ip := ip + 2;
      op := ShortMatchCopy(job, op, offset, length, ip, g);
    }
  }

  /** The loop is at a token, or the output is full already. */
  ghost predicate AtLoop(job: Job, g: Goal, m: seq<byte>, ip: nat, op: nat)
  {
    ip < |job.src| && job.dst <= op && (AtToken(job, g, m, ip, op) || (op == job.oend && Full(job, g, m, ip)))
  }

  /** From the reading of the offset to the end of the loop body. */
  method AfterLiterals(job: Job, q: nat, op0: nat, nibble: nat, ghost g: Goal)
    returns (status: Status, ip: nat, op: nat)
    requires Fits(job, g) && q + 2 < |job.src| && (!job.partial ==> op0 + MATCH_SAFEGUARD_DISTANCE <= job.oend)
    requires At(job, g, ParseMatch(job.src, q, [], nibble), job.mem[..], op0)
             && Walks(job, g, MatchAhead(job, q, nibble, op0))
    modifies job.mem
    ensures Frame(old(job.mem[..]), job.mem[..], job.dst, job.oend) && q < ip
    ensures status == Continue ==> AtLoop(job, g, job.mem[..], ip, op) && Walks(job, g, TokenAhead(job, ip, op))
    ensures status == Finished ==> Final(job, g, job.mem[..], op) && Walks(job, g, Reaches(op - job.dst))
    ensures status == OutputError ==> !g.conforms && Walks(job, g, Refused)
  {
    hide Parse, ParseMatch, ParseLiterals, ReadField, DecodeItem, Decode, ConformingItem, Conforming;
    var error, length;
    error, ip, length := ReadMatchLength(job, q, nibble, op0, g);
    if error {
      return OutputError, ip, op0;
    }
    status, op := SafeMatchCopy(job, op0, Offset(job.src, q), length, ip, g);
  }

  /** From the label safe_literal_copy to the end of the loop body. */
  method LiteralsAndMatch(job: Job, ip0: nat, op0: nat, length: nat, nibble: nat, ghost g: Goal)
    returns (status: Status, ip: nat, op: nat)
    requires Fits(job, g) && ip0 <= |job.src|
    requires At(job, g, ParseLiterals(job.src, ip0, length, nibble), job.mem[..], op0) ||
             (op0 == job.oend && exists p :: Full(job, g, job.mem[..], p))
    requires job.dst <= op0 && Walks(job, g, LiteralsAhead(job, ip0, length, nibble, op0))
    modifies job.mem
    ensures Frame(old(job.mem[..]), job.mem[..], job.dst, job.oend) && ip0 <= ip
    ensures status == Continue ==> AtLoop(job, g, job.mem[..], ip, op) && Walks(job, g, TokenAhead(job, ip, op))
    ensures status == Finished ==> Final(job, g, job.mem[..], op) && Walks(job, g, Reaches(op - job.dst))
    ensures status == OutputError ==> !g.conforms && Walks(job, g, Refused)
  {
    hide Parse, ParseMatch, ParseLiterals, ReadField, DecodeItem, Decode, ConformingItem, Conforming;
    status, ip, op := SafeLiteralCopy(job, ip0, op0, length, nibble, g);
    if status == Continue {
      status, ip, op := AfterLiterals(job, ip, op, nibble, g);
    }
  }

  /** Decode the remaining sequences. */
  method SafeLoop(job: Job, ip0: nat, op0: nat, ghost g: Goal) returns (status: Status, ip: nat, op: nat)
    requires Fits(job, g) && AtLoop(job, g, job.mem[..], ip0, op0) && Walks(job, g, TokenAhead(job, ip0, op0))
    modifies job.mem
    ensures Frame(old(job.mem[..]), job.mem[..], job.dst, job.oend)
    ensures status == Finished ==> Final(job, g, job.mem[..], op) && Walks(job, g, Reaches(op - job.dst))
    ensures status == OutputError ==> !g.conforms && Walks(job, g, Refused)
    ensures status != Continue
  {
    hide Parse, ParseMatch, ParseLiterals, ReadField, DecodeItem, Decode, ConformingItem, Conforming;
    ip, op := ip0, op0;
    while true
      invariant AtLoop(job, g, job.mem[..], ip, op) && Walks(job, g, TokenAhead(job, ip, op))
      invariant Frame(old(job.mem[..]), job.mem[..], job.dst, job.oend)
      decreases |job.src| - ip
    {
      var token := job.src[ip];
      if token / 16 != RUN_MASK && ip + 1 < |job.src| - 16 && op <= job.oend - 32 {
        var taken;
        taken, ip, op := Shortcut(job, ip, op, g);
        if !taken {
          status, ip, op := AfterLiterals(job, ip, op, token % 16, g);
          if status != Continue {
            return;
          }
        }
      } else {
        var error, length;
        ghost var start := ip;
        error, ip, length := ReadLiteralLength(job, token, ip, op, g);
        if error {
          LongRunRefused(job, start, op);
          return OutputError, ip, op;
        }
        status, ip, op := LiteralsAndMatch(job, ip, op, length, token % 16, g);
        if status != Continue {
          return;
        }
      }
    }
  }

  /** The meaning of a block behind the given history. */
  function Meaning(src: seq<byte>, hist: seq<byte>): Outcome {
    Decode(src, 0, hist)
  }

  /** The block conforms, and this many bytes are its whole output. */
  ghost predicate ConformingBlock(src: seq<byte>, hist: seq<byte>, n: nat) {
    Conforming(src, 0, hist, |hist| + n)
  }

  /** A call with room for output and a block that is not empty. */
  method DecompressBlock(job: Job, ghost g: Goal) returns (status: Status, ip: nat, op: nat)
    requires Fits(job, g) && AtToken(job, g, job.mem[..], 0, job.dst) && Walks(job, g, TokenAhead(job, 0, job.dst))
    modifies job.mem
    ensures Frame(old(job.mem[..]), job.mem[..], job.dst, job.oend)
    ensures status == Finished ==> Final(job, g, job.mem[..], op) && Walks(job, g, Reaches(op - job.dst))
    ensures status == OutputError ==> !g.conforms && Walks(job, g, Refused)
    ensures status != Continue
  {
    hide At, Parse, ParseMatch, ParseLiterals, ReadField, DecodeItem, Decode, ConformingItem, Conforming;
    if job.oend - job.dst < FASTLOOP_SAFE_DISTANCE {
      status, ip, op := SafeLoop(job, 0, job.dst, g);
      return;
    }
    var exit, length, offset, nibble;
    exit, ip, op, length, offset, nibble := FastLoop(job, g);
    if exit == FastError {
      return OutputError, ip, op;
    }
    if exit == ToLiteralCopy {
      status, ip, op := LiteralsAndMatch(job, ip, op, length, nibble, g);
    } else {
      status, op := SafeMatchCopy(job, op, offset, length, ip, g);
    }
    if status == Continue {
      status, ip, op := SafeLoop(job, ip, op, g);
    }
  }

  /** What a call reports as written is the meaning of the whole block behind `hist`, or decoding partially a
      prefix of it, unless the block contains the invalid offset 0. */
  ghost predicate Means(src: seq<byte>, hist: seq<byte>, out: seq<byte>, partial: bool) {
    || Meaning(src, hist).ZeroOffset?
    || (if partial then hist + out <= Meaning(src, hist).out else Meaning(src, hist) == Done(hist + out))
  }

  /** A conforming block is decoded, as far as there is room when decoding partially, and otherwise when it
      fits. Without any room a full decoding refuses everything but the byte 0. */
  ghost predicate Accepts(src: seq<byte>, hist: seq<byte>, room: nat, partial: bool, r: int) {
    forall n: nat :: ConformingBlock(src, hist, n) ==>
      if partial then r == if n <= room then n else room
      else n <= room ==> r == if room > 0 || src == [0] then n else -1
  }

  /** __LZ4_decompress_generic.  Whatever the input, the call ends, reads inside src and the history,
      and writes nothing outside mem[dst..dst + outputSize]. */
  method DecompressGeneric(src: seq<byte>, mem: array<byte>, dst: nat, outputSize: int, partial: bool,
                           dict: DictDirective, lowPrefix: int, extDict: seq<byte>) returns (r: int)
    requires outputSize >= 0 ==>
               Job(src, mem, dst, dst + outputSize, partial, dict, lowPrefix, extDict).Valid()
    requires outputSize < 0 ==> lowPrefix <= dst <= mem.Length
    modifies mem
    ensures forall k :: 0 <= k < mem.Length && (k < dst || dst + outputSize <= k) ==> mem[k] == old(mem[k])
    ensures if outputSize < 0 then r == -1 else r <= outputSize
    ensures var hist := extDict + old(mem[if lowPrefix < 0 then 0 else lowPrefix..dst]);
            && (r >= 0 ==> Means(src, hist, mem[dst..dst + r], partial))
            && (outputSize >= 0 ==> Accepts(src, hist, outputSize, partial, r))
    ensures outputSize >= 0 && !partial ==>
            Exact(src, Setting(outputSize, dst - lowPrefix, dst - lowPrefix + |extDict|), r)
    ensures outputSize == 0 && !partial ==> r == if src == [0] then 0 else -1
  {
    hide Means, Accepts, Exact;
    if outputSize < 0 {
      return -1;
    }
    var job := Job(src, mem, dst, dst + outputSize, partial, dict, lowPrefix, extDict);
    ghost var hist := extDict + mem[job.Low()..dst];
    if outputSize == 0 {
      r := if partial || src == [0] then 0 else -1;
      WithoutRoom(src, hist, partial, job.Around(), r);
      assert mem[dst..dst + 0] == [];
      return;
    }
    if |src| == 0 {
      EmptyInput(hist, outputSize, partial, job.Around());
      return -1;
    }
    r := DecodeInto(job, hist);
  }

  /** The decoding itself, once there is something to read and room to write. */
  method DecodeInto(job: Job, ghost hist: seq<byte>) returns (r: int)
    requires job.Valid() && job.src != [] && job.dst < job.oend && hist == job.extDict + job.mem[job.Low()..job.dst]
    modifies job.mem
    ensures Frame(old(job.mem[..]), job.mem[..], job.dst, job.oend) && r <= job.oend - job.dst
    ensures r >= 0 ==> Means(job.src, hist, job.mem[job.dst..job.dst + r], job.partial)
    ensures Accepts(job.src, hist, job.oend - job.dst, job.partial, r)
    ensures !job.partial ==> Exact(job.src, job.Around(), r)
  {
    hide At, AtToken, Final, Decode, Conforming, Parse, WalkToken, Means, Accepts;
    ghost var result := Meaning(job.src, hist);
    ghost var g := Goal(result, |result.out|,
                        Conforming(job.src, 0, hist, |result.out|) && (job.partial || |result.out| <= job.Room()),
                        WalkToken(job.src, job.Around(), 0, 0));
    StartsAtToken(job, g, job.mem[..]);
    var status, ip: int, op := DecompressBlock(job, g);
    r := if status == OutputError then -ip - 1 else op - job.dst;
    EndOfCall(job, g, job.mem[..], op, hist, status, r);
  }

  lemma StartsAtToken(job: Job, g: Goal, m: seq<byte>)
    requires job.Valid() && |m| == job.mem.Length && job.src != []
    requires g.result == Meaning(job.src, job.Out(m, job.dst))
    requires g.conforms ==> Conforming(job.src, 0, job.Out(m, job.dst), g.size)
    ensures AtToken(job, g, m, 0, job.dst)
  {
    hide Parse, DecodeItem, ConformingItem;
  }

  lemma EmptyOutput(src: seq<byte>, hist: seq<byte>)
    ensures src == [0] ==> Meaning(src, hist) == Done(hist)
    ensures hist <= Meaning(src, hist).out
    ensures forall n: nat :: ConformingBlock(src, hist, n) && src == [0] ==> n == 0
  {
    if src == [0] {
      assert Parse(src, 0) == Last(src[1..]);
      assert hist + src[1..] == hist;
      assert DecodeItem(src, Last(src[1..]), hist) == Done(hist + src[1..]);
      forall n: nat | ConformingBlock(src, hist, n) ensures n == 0 {
        assert ConformingItem(src, Parse(src, 0), hist, |hist| + n);
      }
    }
  }

  /** Without any room for output. */
  lemma WithoutRoom(src: seq<byte>, hist: seq<byte>, partial: bool, s: Setting, r: int)
    requires s.room == 0 && r == if partial || src == [0] then 0 else -1
    ensures r >= 0 ==> Means(src, hist, [], partial)
    ensures Accepts(src, hist, 0, partial, r) && (!partial ==> Exact(src, s, r))
  {
    hide Decode, Conforming, WalkToken;
    EmptyOutput(src, hist);
    assert hist + [] == hist;
  }

  lemma EmptyInput(hist: seq<byte>, room: nat, partial: bool, s: Setting)
    requires s.room == room && 0 < room
    ensures Accepts([], hist, room, partial, -1) && Exact([], s, -1)
  {
  }

  /** What the end of a call says about the output alone, the history taken off. */
  lemma {:induction false} EndOfCall(job: Job, g: Goal, m: seq<byte>, op: nat, hist: seq<byte>, status: Status, r: int)
    requires job.Valid() && |m| == job.mem.Length && hist == job.extDict + m[job.Low()..job.dst]
    requires g.result == Meaning(job.src, hist) && g.size == |g.result.out|
    requires g.conforms == (Conforming(job.src, 0, hist, g.size) && (job.partial || g.size <= job.Room()))
    requires job.dst < job.oend && (status == Finished || status == OutputError)
    requires status == Finished ==> Final(job, g, m, op) && r == op - job.dst
    requires status == OutputError ==> !g.conforms && r < 0
    ensures r <= job.oend - job.dst
            && (r >= 0 ==> status == Finished && Means(job.src, hist, m[job.dst..job.dst + r], job.partial))
    ensures Accepts(job.src, hist, job.oend - job.dst, job.partial, r)
  {
    hide CopyMatch;
    hide Parse, Decode, Conforming;
    if status == Finished {
      assert m[job.Low()..op] == m[job.Low()..job.dst] + m[job.dst..op];
      assert job.Out(m, op) == hist + m[job.dst..op];
    }
    forall n: nat | ConformingBlock(job.src, hist, n) && (job.partial || n <= job.oend - job.dst)
      ensures g.conforms && g.size == |hist| + n
    {
      ConformingDecodes(job.src, 0, hist, |hist| + n);
    }
  }
}
