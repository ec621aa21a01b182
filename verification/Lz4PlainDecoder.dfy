/** The plain decoder (LZ4_decompress_unsafe_generic): it knows the size of the output but not of
    the input, and copies matches byte by byte. It accepts exactly the conforming blocks. */
module Lz4PlainDecoder {
  import opened Lz4Format
  import opened Lz4Copy
  import opened Lz4Decoder

  /** Accept: the block ends at s[consumed].  Starved: the input is not "large enough". */
  datatype Verdict = Accept(consumed: nat, out: seq<byte>) | Reject | Starved | NullOffset

  function Plain(s: seq<byte>, p: nat, out: seq<byte>, end: nat): (v: Verdict)
    requires p <= |s| && |out| <= end
    ensures v.Accept? ==> p < v.consumed <= |s|
    decreases |s| - p
  {
    if p == |s| then Starved
    else match ReadField(s, p + 1, s[p] / 16)
      case NoLength => Starved
      case Length(ll, q) =>
        if end - |out| < ll then Reject
        else if q + ll > |s| then Starved
        else PlainLiterals(s, q + ll, out + s[q..q + ll], s[p] % 16, end)
  }

  function PlainLiterals(s: seq<byte>, q: nat, o1: seq<byte>, nibble: nat, end: nat): (v: Verdict)
    requires q <= |s| && |o1| <= end
    ensures v.Accept? ==> q <= v.consumed <= |s|
    decreases |s| - q
  {
    if end - |o1| < MFLIMIT then
      if |o1| == end then Accept(q, o1) else Reject
    else if q + 2 > |s| then Starved
    else match ReadField(s, q + 2, nibble)
      case NoLength => Starved
      case Length(v, next) =>
        if end - |o1| < v + MINMATCH || Offset(s, q) > |o1| then Reject
        else if Offset(s, q) == 0 then NullOffset
        else
          var o2 := CopyMatch(o1, Offset(s, q), v + MINMATCH);
          if end - |o2| < LASTLITERALS then Reject else Plain(s, next, o2, end)
  }

  /** A block is read the same whatever lies behind it. */
  lemma {:induction false} ReadLengthPrefix(s: seq<byte>, c: nat, p: nat)
    requires p <= c <= |s|
    ensures ReadLength(s[..c], p) == if ReadLength(s, p).Length? && ReadLength(s, p).next <= c then ReadLength(s, p)
            else NoLength
    decreases c - p
  {
    if p < c && s[p] == 255 { ReadLengthPrefix(s, c, p + 1); }
  }

  lemma ReadFieldPrefix(s: seq<byte>, c: nat, p: nat, nibble: nat)
    requires p <= c <= |s|
    ensures ReadField(s[..c], p, nibble) == if ReadField(s, p, nibble).Length?
            && ReadField(s, p, nibble).next <= c then ReadField(s, p, nibble) else NoLength
  {
    hide ReadLength;
    ReadLengthPrefix(s, c, p);
  }

  /** One step of the plain decoder is one item of the block it accepts. */
  lemma {:induction false} AcceptedStep(s: seq<byte>, p: nat, out: seq<byte>, end: nat)
    requires p <= |s| && |out| <= end && Plain(s, p, out, end).Accept?
    ensures var v := Plain(s, p, out, end);
            match Parse(s[..v.consumed], p)
            case Last(lits) => v.out == out + lits && |v.out| == end
            case Match(lits, offset, length, next) =>
              && offset <= |out + lits| && |out + lits| + MFLIMIT <= end
              && |out + lits| + length + LASTLITERALS <= end
              && v == Plain(s, next, CopyMatch(out + lits, offset, length), end)
            case _ => false
  {
    hide ReadField, CopyMatch, PlainLiterals, ParseMatch;
    var v, lit := Plain(s, p, out, end), ReadField(s, p + 1, s[p] / 16);
    var t, q := s[..v.consumed], lit.next + lit.value;
    ReadFieldPrefix(s, v.consumed, p + 1, s[p] / 16);
    assert t[lit.next..q] == s[lit.next..q];
    AcceptedMatch(s, q, out + s[lit.next..q], s[lit.next..q], s[p] % 16, end, v.consumed);
    if q == v.consumed {
      assert t[lit.next..] == t[lit.next..q];
    }
  }

  lemma {:induction false} AcceptedMatch(s: seq<byte>, q: nat, o1: seq<byte>, lits: seq<byte>, nibble: nat, end: nat,
                                         c: nat)
    requires q <= |s| && |o1| <= end && PlainLiterals(s, q, o1, nibble, end).Accept?
    requires c == PlainLiterals(s, q, o1, nibble, end).consumed
    ensures var v := PlainLiterals(s, q, o1, nibble, end);
            if q == c then |o1| == end && v.out == o1
            else match ParseMatch(s[..c], q, lits, nibble)
              case Match(_, offset, length, next) =>
                && offset <= |o1| && |o1| + MFLIMIT <= end && |o1| + length + LASTLITERALS <= end
                && v == Plain(s, next, CopyMatch(o1, offset, length), end)
              case _ => false
  {
    hide ReadField, CopyMatch, Plain;
    if q != c { ReadFieldPrefix(s, c, q + 2, nibble); }
  }

  /** What the plain decoder accepts conforms, and is decoded to what it writes. */
  lemma {:induction false} AcceptedConforms(s: seq<byte>, p: nat, out: seq<byte>, end: nat)
    requires p <= |s| && |out| <= end && Plain(s, p, out, end).Accept?
    ensures var v := Plain(s, p, out, end);
            Conforming(s[..v.consumed], p, out, end) && Decode(s[..v.consumed], p, out) == Done(v.out)
    decreases |s| - p
  {
    hide Plain, Parse, CopyMatch;
    AcceptedStep(s, p, out, end);
    var item := Parse(s[..Plain(s, p, out, end).consumed], p);
    if item.Match? {
      AcceptedConforms(s, item.next, CopyMatch(out + item.lits, item.offset, item.length), end);
    }
  }

  lemma PlainLast(s: seq<byte>, q: nat, o1: seq<byte>, nibble: nat, end: nat)
    requires q <= |s| && |o1| == end
    ensures PlainLiterals(s, q, o1, nibble, end) == Accept(q, o1)
  {
  }

  lemma {:induction false} PlainMatch(s: seq<byte>, c: nat, q: nat, o1: seq<byte>, lits: seq<byte>, nibble: nat,
                                      end: nat)
    requires q < c <= |s| && |o1| <= end
    ensures match ParseMatch(s[..c], q, lits, nibble)
            case Match(_, offset, length, next) =>
              offset <= |o1| && |o1| + MFLIMIT <= end && |o1| + length + LASTLITERALS <= end ==>
                PlainLiterals(s, q, o1, nibble, end) == Plain(s, next, CopyMatch(o1, offset, length), end)
            case _ => true
  {
    hide ReadField, CopyMatch, Plain;
    if q + 2 <= c {
      ReadFieldPrefix(s, c, q + 2, nibble);
    }
  }

  /** The plain decoder on a block followed by anything. */
  lemma {:induction false} PlainStep(s: seq<byte>, c: nat, p: nat, out: seq<byte>, end: nat)
    requires p <= c <= |s| && |out| <= end
    ensures match Parse(s[..c], p)
            case Last(lits) => |out + lits| == end ==> Plain(s, p, out, end) == Accept(c, out + lits)
            case Match(lits, offset, length, next) =>
              offset <= |out + lits| && |out + lits| + MFLIMIT <= end && |out + lits| + length + LASTLITERALS <= end ==>
                Plain(s, p, out, end) == Plain(s, next, CopyMatch(out + lits, offset, length), end)
            case _ => true
  {
    hide ReadField, CopyMatch, PlainLiterals, ParseMatch;
    if p < c {
      ReadFieldPrefix(s, c, p + 1, s[p] / 16);
      var lit, t := ReadField(s, p + 1, s[p] / 16), s[..c];
      if lit.Length? && lit.next + lit.value <= c {
        var q := lit.next + lit.value;
        var lits := s[lit.next..q];
        assert t[lit.next..q] == lits;
        if q == c {
          assert t[lit.next..] == lits;
          if |out + lits| == end { PlainLast(s, q, out + lits, s[p] % 16, end); }
        } else if |out + lits| <= end {
          PlainMatch(s, c, q, out + lits, lits, s[p] % 16, end);
        }
      }
    }
  }

  /** A conforming block, with anything behind it, is accepted at its end. */
  lemma {:induction false} ConformingAccepted(s: seq<byte>, c: nat, p: nat, out: seq<byte>, end: nat)
    requires p <= c <= |s| && |out| <= end && Conforming(s[..c], p, out, end)
    ensures Plain(s, p, out, end) == Accept(c, Decode(s[..c], p, out).out)
    decreases c - p
  {
    hide Plain, Parse, CopyMatch;
    PlainStep(s, c, p, out, end);
    var item := Parse(s[..c], p);
    if item.Match? {
      ConformingAccepted(s, c, item.next, CopyMatch(out + item.lits, item.offset, item.length), end);
    }
  }

  /** The plain decoder accepts exactly the conforming blocks, at their exact end. */
  lemma PlainIffConforming(s: seq<byte>, c: nat, hist: seq<byte>, n: nat)
    requires c <= |s|
    ensures (exists o :: Plain(s, 0, hist, |hist| + n) == Accept(c, o)) <==> ConformingBlock(s[..c], hist, n)
    ensures ConformingBlock(s[..c], hist, n) ==>
              Plain(s, 0, hist, |hist| + n) == Accept(c, Meaning(s[..c], hist).out)
  {
    hide Plain, Decode, Conforming;
    if ConformingBlock(s[..c], hist, n) { ConformingAccepted(s, c, 0, hist, |hist| + n); }
    if Plain(s, 0, hist, |hist| + n).Accept? { AcceptedConforms(s, 0, hist, |hist| + n); }
  }

  /** read_long_length_no_check */
  method ReadLongLength(src: seq<byte>, ip0: nat) returns (l: nat, ip: nat)
    requires ip0 <= |src| && ReadLength(src, ip0).Length?
    ensures ReadLength(src, ip0) == Length(l, ip)
  {
    l, ip := 0, ip0;
    var b := src[ip];
    ip, l := ip + 1, l + b;
    while b == 255
      invariant ip0 < ip <= |src|
      invariant if b == 255 then ReadLength(src, ip).Length? &&
                                 ReadLength(src, ip0) == Length(l + ReadLength(src, ip).value, ReadLength(src, ip).next)
                else ReadLength(src, ip0) == Length(l, ip)
      decreases |src| - ip, b
    {
      b := src[ip];
      ip, l := ip + 1, l + b;
    }
  }

  method ReadLongField(src: seq<byte>, ip0: nat, nibble: nat) returns (l: nat, ip: nat)
    requires ip0 <= |src| && ReadField(src, ip0, nibble).Length?
    ensures ReadField(src, ip0, nibble) == Length(l, ip)
  {
    l, ip := nibble, ip0;
    if l == 15 {
      var more;
      more, ip := ReadLongLength(src, ip);
      l := l + more;
    }
  }

  /** The match copy: what lies in the external dictionary first, the rest byte by byte. */
  method CopyMatchPlain(job: Job, op0: nat, offset: nat, ml0: nat) returns (op: nat)
    requires job.Valid() && job.dst <= op0 && op0 + ml0 <= job.oend && 1 <= offset <= |job.Out(job.mem[..], op0)|
    modifies job.mem
    ensures op == op0 + ml0 && Frame(old(job.mem[..]), job.mem[..], op0, job.oend)
    ensures job.Out(job.mem[..], op) == CopyMatch(job.Out(old(job.mem[..]), op0), offset, ml0)
  {
    hide CopyMatch;
    var mem, low := job.mem, job.Low();
    ghost var m := mem[..];
    op := op0;
    if offset > op - low {
      var ml, extml := ml0, offset - (op - low);
      var extMatch := |job.extDict| - extml;
      if extml > ml {
        MemCpyFrom(mem, op, job.extDict, extMatch, ml);
        op, ml := op + ml, 0;
      } else {
        MemCpyFrom(mem, op, job.extDict, extMatch, extml);
        op, ml := op + extml, ml - extml;
        CopyBytes(mem, op, low, ml);
        op := op + ml;
      }
      OutDictMatch(job, m, mem[..], op0, ml0, offset);
    } else {
      CopyBytes(mem, op, op - offset, ml0);
      op := op + ml0;
      OutMatch(job, m, mem[..], op0, ml0, offset);
    }
  }

  /** Token and literals of one sequence. */
  method LiteralsPlain(job: Job, ip0: nat, op0: nat, ghost v: Verdict) returns (ok: bool, ip: nat, op: nat, nibble: nat)
    requires job.Valid() && ip0 <= |job.src| && job.dst <= op0 <= job.oend && !v.Starved?
    requires v == Plain(job.src, ip0, job.Out(job.mem[..], op0), job.Room())
    modifies job.mem
    ensures Frame(old(job.mem[..]), job.mem[..], op0, job.oend)
    ensures !ok ==> v == Reject
    ensures ok ==> ip0 < ip <= |job.src| && op0 <= op <= job.oend
    ensures ok ==> v == PlainLiterals(job.src, ip, job.Out(job.mem[..], op), nibble, job.Room())
  {
    hide ReadField, PlainLiterals;
    ghost var m := job.mem[..];
    var token, ll := job.src[ip0], 0;
    ll, ip := ReadLongField(job.src, ip0 + 1, token / 16);
    op, nibble := op0, token % 16;
    if job.oend - op < ll {
      return false, ip, op, nibble;
    }
    MemCpyFrom(job.mem, op, job.src, ip, ll);
    OutLiterals(job, m, job.mem[..], op, job.src[ip..ip + ll]);
    op, ip := op + ll, ip + ll;
    ok := true;
  }

  /** Offset, match length and match of one sequence. */
  method MatchPlain(job: Job, ip0: nat, op0: nat, nibble: nat, ghost v: Verdict) returns (ok: bool, ip: nat, op: nat)
    requires job.Valid() && ip0 <= |job.src| && job.dst <= op0 && op0 + MFLIMIT <= job.oend && !v.Starved?
             && !v.NullOffset?
    requires v == PlainLiterals(job.src, ip0, job.Out(job.mem[..], op0), nibble, job.Room())
    modifies job.mem
    ensures Frame(old(job.mem[..]), job.mem[..], op0, job.oend)
    ensures !ok ==> v == Reject
    ensures ok ==> ip0 < ip <= |job.src| && op0 <= op <= job.oend
    ensures ok ==> v == Plain(job.src, ip, job.Out(job.mem[..], op), job.Room())
  {
    hide ReadField, Plain, CopyMatch, Offset;
    var offset, ml := Offset(job.src, ip0), 0;
    ml, ip := ReadLongField(job.src, ip0 + 2, nibble);
    op, ml := op0, ml + MINMATCH;
    if job.oend - op < ml {
      return false, ip, op;
    }
    if offset > op - job.Low() + |job.extDict| {
      return false, ip, op;
    }
    op := CopyMatchPlain(job, op, offset, ml);
    if job.oend - op < LASTLITERALS {
      return false, ip, op;
    }
    ok := true;
  }

  /** LZ4_decompress_unsafe_generic, on an input that is large enough and has no null offset.
      Returns the bytes read when the block, whose output size is given, ends properly, and -1 otherwise. */
  method DecompressUnsafe(job: Job) returns (r: int)
    requires job.Valid() && job.dict == UsingExtDict
    requires var v := Plain(job.src, 0, job.Out(job.mem[..], job.dst), job.Room()); !v.Starved? && !v.NullOffset?
    modifies job.mem
    ensures Frame(old(job.mem[..]), job.mem[..], job.dst, job.oend)
    ensures match Plain(job.src, 0, old(job.Out(job.mem[..], job.dst)), job.Room())
            case Accept(consumed, out) => r == consumed && job.Out(job.mem[..], job.oend) == out
            case _ => r == -1
  {
    hide ReadField, Plain, CopyMatch, Offset;
    ghost var v := Plain(job.src, 0, job.Out(job.mem[..], job.dst), job.Room());
    var ip, op, ok, nibble := 0, job.dst, true, 0;
    while true
      invariant ip <= |job.src| && job.dst <= op <= job.oend
      invariant Frame(old(job.mem[..]), job.mem[..], job.dst, job.oend)
      invariant v == Plain(job.src, ip, job.Out(job.mem[..], op), job.Room())
      decreases |job.src| - ip
    {
      ok, ip, op, nibble := LiteralsPlain(job, ip, op, v);
      if !ok {
        return -1;
      }
      if job.oend - op < MFLIMIT {
        if op == job.oend {
          break;
        }
        return -1;
      }
      ok, ip, op := MatchPlain(job, ip, op, nibble, v);
      if !ok {
        return -1;
      }
    }
    return ip;
  }
}
