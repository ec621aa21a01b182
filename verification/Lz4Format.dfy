/** The LZ4 block format: what a block means, which blocks obey the end-of-block rules,
    and how a list of sequences is written as bytes. Everything else in the project
    (both decoders, the fast compressor and the HC parsers) is stated against this module. */
module Lz4Format {

  type byte = x: int | 0 <= x < 256

  const MINMATCH := 4
  const LASTLITERALS := 5
  const MFLIMIT := 12
  const ML_MASK := 15
  const RUN_MASK := 15
  const DISTANCE_MAX := 65535
  const MAX_INPUT_SIZE := 0x7E000000

  /** Where the content before a block is: nowhere, right in front of it, or elsewhere in memory. */
  datatype DictDirective = NoDict | WithPrefix64k | UsingExtDict

  // ----- reading a block -----

  datatype Length = NoLength | Length(value: nat, next: nat)

  /** The 255-continued length whose first byte is s[p]. */
  function ReadLength(s: seq<byte>, p: nat): (r: Length)
    requires p <= |s|
    ensures r.Length? ==> p < r.next <= |s|
    decreases |s| - p
  {
    if p == |s| then NoLength
    else if s[p] != 255 then Length(s[p], p + 1)
    else match ReadLength(s, p + 1)
      case NoLength => NoLength
      case Length(v, n) => Length(255 + v, n)
  }

  /** A length whose token nibble is given: 15 announces extra bytes at s[p]. */
  function ReadField(s: seq<byte>, p: nat, nibble: nat): (r: Length)
    requires p <= |s|
    ensures r.Length? ==> p <= r.next <= |s|
  {
    if nibble != 15 then Length(nibble, p)
    else match ReadLength(s, p)
      case NoLength => NoLength
      case Length(v, n) => Length(15 + v, n)
  }

  function Offset(s: seq<byte>, p: nat): (r: nat)
    requires p + 2 <= |s|
    ensures r <= DISTANCE_MAX
  {
    s[p] as int + 256 * (s[p + 1] as int)
  }

  /** One sequence of a block: a literal run, and what follows it. */
  datatype Item =
    | Last(lits: seq<byte>)                                        // the block ends behind the literals
    | Match(lits: seq<byte>, offset: nat, length: nat, next: nat)  // a match, the next token at `next`
    | Zero(lits: seq<byte>)                                        // the invalid offset 0
    | Cut(lits: seq<byte>)                                         // the input ends inside the sequence

  function Parse(s: seq<byte>, p: nat): (r: Item)
    requires p <= |s|
    ensures r.Match? ==> p < r.next <= |s| && 1 <= r.offset <= DISTANCE_MAX && MINMATCH <= r.length
  {
    if p == |s| then Cut([])
    else match ReadField(s, p + 1, s[p] / 16)
      case NoLength => Cut([])
      case Length(v, n) => ParseLiterals(s, n, v, s[p] % 16)
  }

  /** What follows a token and a literal length: `length` literals from s[q] on. */
  function ParseLiterals(s: seq<byte>, q: nat, length: nat, nibble: nat): (r: Item)
    requires q <= |s|
    ensures r.Match? ==> q < r.next <= |s| && 1 <= r.offset <= DISTANCE_MAX && MINMATCH <= r.length
  {
    if q + length > |s| then Cut(s[q..])
    else if q + length == |s| then Last(s[q..])
    else ParseMatch(s, q + length, s[q..q + length], nibble)
  }

  function ParseMatch(s: seq<byte>, q: nat, lits: seq<byte>, nibble: nat): (r: Item)
    requires q <= |s|
    ensures r.lits == lits && !r.Last?
    ensures r.Match? ==> q + 2 <= r.next <= |s| && 1 <= r.offset <= DISTANCE_MAX && MINMATCH <= r.length
  {
    if q + 2 > |s| then Cut(lits)
    else if Offset(s, q) == 0 then Zero(lits)
    else match ReadField(s, q + 2, nibble)
      case NoLength => Cut(lits)
      case Length(v, n) => Match(lits, Offset(s, q), v + MINMATCH, n)
  }

  /** Byte-at-a-time match copy: each new byte repeats the one `off` places back. */
  function CopyMatch(out: seq<byte>, off: nat, n: nat): (r: seq<byte>)
    requires 1 <= off <= |out|
    ensures |r| == |out| + n && r[..|out|] == out
    ensures forall i :: |out| <= i < |r| ==> r[i] == r[i - off]
    decreases n
  {
    if n == 0 then out else CopyMatch(out + [out[|out| - off]], off, n - 1)
  }

  /** `out` is what was decodable; for ZeroOffset, what came before the invalid match. */
  datatype Outcome = Done(out: seq<byte>) | Malformed(out: seq<byte>) | ZeroOffset(out: seq<byte>)

  /** The meaning of the block bytes s[p..] when `out` (history included) is already decoded. */
  function Decode(s: seq<byte>, p: nat, out: seq<byte>): (r: Outcome)
    requires p <= |s|
    ensures out <= r.out
    decreases |s| - p, 1
  {
    DecodeItem(s, Parse(s, p), out)
  }

  function DecodeItem(s: seq<byte>, item: Item, out: seq<byte>): (r: Outcome)
    requires item.Match? ==> item.next <= |s| && 1 <= item.offset
    ensures out <= r.out
    decreases if item.Match? then |s| - item.next + 1 else 0, 0
  {
    var o1 := out + item.lits;
    match item
    case Last(_) => Done(o1)
    case Zero(_) => ZeroOffset(o1)
    case Cut(_) => Malformed(o1)
    case Match(_, offset, length, next) =>
      if offset > |o1| then Malformed(o1) else Decode(s, next, CopyMatch(o1, offset, length))
  }

  /** The block s[p..] decodes completely, the output then has length `end`, every match
      starts at least MFLIMIT and stops at least LASTLITERALS bytes before `end`. */
  predicate Conforming(s: seq<byte>, p: nat, out: seq<byte>, end: nat)
    requires p <= |s|
    decreases |s| - p, 1
  {
    ConformingItem(s, Parse(s, p), out, end)
  }

  predicate ConformingItem(s: seq<byte>, item: Item, out: seq<byte>, end: nat)
    requires item.Match? ==> item.next <= |s| && 1 <= item.offset
    decreases if item.Match? then |s| - item.next + 1 else 0, 0
  {
    var o1 := out + item.lits;
    match item
    case Last(_) => |o1| == end
    case Zero(_) => false
    case Cut(_) => false
    case Match(_, offset, length, next) =>
      && offset <= |o1|
      && |o1| + MFLIMIT <= end
      && |o1| + length + LASTLITERALS <= end
      && Conforming(s, next, CopyMatch(o1, offset, length), end)
  }

  lemma {:induction false} ConformingDecodes(s: seq<byte>, p: nat, out: seq<byte>, end: nat)
    requires p <= |s| && Conforming(s, p, out, end)
    ensures Decode(s, p, out).Done? && |Decode(s, p, out).out| == end
    ensures |out| <= end
    decreases |s| - p
  {
    var i := Parse(s, p);
    if i.Match? {
      ConformingDecodes(s, i.next, CopyMatch(out + i.lits, i.offset, i.length), end);
    }
  }

  /** A conforming suffix that still owes five bytes holds at least a token and five literals. */
  lemma {:induction false} ConformingTail(s: seq<byte>, p: nat, out: seq<byte>, end: nat)
    requires p <= |s| && Conforming(s, p, out, end) && |out| + LASTLITERALS <= end
    ensures p + 1 + LASTLITERALS <= |s|
    decreases |s| - p
  {
    var i := Parse(s, p);
    if i.Match? {
      ConformingTail(s, i.next, CopyMatch(out + i.lits, i.offset, i.length), end);
    }
  }

  /** A sequence extending `out` with period `off` is the match copy. */
  lemma {:induction false} CopyMatchUnique(out: seq<byte>, off: nat, n: nat, r: seq<byte>)
    requires 1 <= off <= |out| && |r| == |out| + n && r[..|out|] == out
    requires forall i :: |out| <= i < |r| ==> r[i] == r[i - off]
    ensures r == CopyMatch(out, off, n)
  {
    var c := CopyMatch(out, off, n);
    var k := |out|;
    while k < |r|
      invariant |out| <= k <= |r|
      invariant forall j :: 0 <= j < k ==> r[j] == c[j]
    {
      assert r[k - off] == c[k - off];
      k := k + 1;
    }
    if n == 0 { assert r == out; }
  }

  /** A shorter match copy writes a prefix of a longer one. */
  lemma {:induction false} CopyMatchPrefix(out: seq<byte>, off: nat, n: nat, n2: nat)
    requires 1 <= off <= |out| && n <= n2
    ensures CopyMatch(out, off, n) <= CopyMatch(out, off, n2)
  {
    CopyMatchUnique(out, off, n, CopyMatch(out, off, n2)[..|out| + n]);
  }

  lemma {:induction false} CopyMatchBehind(x: seq<byte>, out: seq<byte>, off: nat, n: nat)
    requires 1 <= off <= |out|
    ensures CopyMatch(x + out, off, n) == x + CopyMatch(out, off, n)
  {
    CopyMatchUnique(x + out, off, n, x + CopyMatch(out, off, n));
  }

  function Behind(x: seq<byte>, r: Outcome): Outcome {
    match r
    case Done(out) => Done(x + out)
    case Malformed(out) => Malformed(x + out)
    case ZeroOffset(out) => ZeroOffset(x + out)
  }

  /** Older history changes nothing once a block decodes, or once 65535 bytes are at hand. */
  lemma {:induction false} MoreHistory(s: seq<byte>, p: nat, x: seq<byte>, out: seq<byte>)
    requires p <= |s| && (Decode(s, p, out).Done? || DISTANCE_MAX <= |out|)
    ensures Decode(s, p, x + out) == Behind(x, Decode(s, p, out))
    decreases |s| - p
  {
    hide Parse;
    var item := Parse(s, p);
    var o1 := out + item.lits;
    assert x + out + item.lits == x + o1;
    if item.Match? && item.offset <= |o1| {
      CopyMatchBehind(x, o1, item.offset, item.length);
      MoreHistory(s, item.next, x, CopyMatch(o1, item.offset, item.length));
    }
  }

  lemma {:induction false} MoreHistoryConforms(s: seq<byte>, p: nat, x: seq<byte>, out: seq<byte>, end: nat)
    requires p <= |s| && (Conforming(s, p, out, end) || DISTANCE_MAX <= |out|)
    ensures Conforming(s, p, out, end) <==> Conforming(s, p, x + out, |x| + end)
    decreases |s| - p
  {
    hide Parse;
    var item := Parse(s, p);
    var o1 := out + item.lits;
    assert x + out + item.lits == x + o1;
    if item.Match? && item.offset <= |o1| {
      CopyMatchBehind(x, o1, item.offset, item.length);
      MoreHistoryConforms(s, item.next, x, CopyMatch(o1, item.offset, item.length), end);
    }
  }

  // ----- writing a block -----

  datatype RawSequence = Seq(literals: seq<byte>, offset: nat, matchLength: nat)

  /** A literal run followed by a match the format can express. */
  type Sequence = q: RawSequence | 1 <= q.offset <= DISTANCE_MAX && q.matchLength >= MINMATCH
    witness Seq([], 1, MINMATCH)

  function LengthBytes(v: nat): (r: seq<byte>)
    ensures |r| >= 1
  {
    if v < 255 then [v] else [255] + LengthBytes(v - 255)
  }

  function Nibble(v: nat): (r: nat)
    ensures r <= 15
  {
    if v < 15 then v else 15
  }

  function Extra(v: nat): (r: seq<byte>) {
    if v < 15 then [] else LengthBytes(v - 15)
  }

  lemma {:induction false} LengthBytesSize(v: nat)
    ensures |LengthBytes(v)| == v / 255 + 1
  {
    if v >= 255 { LengthBytesSize(v - 255); }
  }

  /** The bytes a length takes outside its token. */
  lemma ExtraSize(v: nat)
    ensures |Extra(v)| == (v + 240) / 255
  {
    if v >= 15 { LengthBytesSize(v - 15); }
  }

  function LiteralPart(lits: seq<byte>, low: nat): (r: seq<byte>)
    requires low <= 15
    ensures |r| == 1 + |Extra(|lits|)| + |lits|
  {
    [Nibble(|lits|) * 16 + low] + Extra(|lits|) + lits
  }

  function MatchPart(offset: nat, matchLength: nat): (r: seq<byte>)
    requires offset <= DISTANCE_MAX && matchLength >= MINMATCH
    ensures |r| == 2 + |Extra(matchLength - MINMATCH)|
  {
    [offset % 256, offset / 256] + Extra(matchLength - MINMATCH)
  }

  function EncodeSequence(q: Sequence): (r: seq<byte>) {
    LiteralPart(q.literals, Nibble(q.matchLength - MINMATCH)) + MatchPart(q.offset, q.matchLength)
  }

  function EncodeAll(qs: seq<Sequence>): seq<byte> {
    if qs == [] then []
    else EncodeAll(qs[..|qs| - 1]) + EncodeSequence(qs[|qs| - 1])
  }

  /** Sequences whose matches stay inside what has been produced so far. */
  ghost predicate ValidSequences(hist: seq<byte>, qs: seq<Sequence>)
  {
    qs == [] ||
    (var init, q := qs[..|qs| - 1], qs[|qs| - 1];
     ValidSequences(hist, init) && q.offset <= |Expand(hist, init)| + |q.literals|)
  }

  /** The output described by a list of sequences. */
  function Expand(hist: seq<byte>, qs: seq<Sequence>): (r: seq<byte>)
    ensures hist <= r
  {
    if qs == [] then hist
    else
      var q := qs[|qs| - 1];
      var o1 := Expand(hist, qs[..|qs| - 1]) + q.literals;
      if 1 <= q.offset <= |o1| then CopyMatch(o1, q.offset, q.matchLength) else o1
  }

  /** The end rules for a list of sequences; only the last match can be the tightest. */
  ghost predicate EndRules(hist: seq<byte>, qs: seq<Sequence>, end: nat)
  {
    qs == [] ||
    (var q := qs[|qs| - 1];
     |Expand(hist, qs[..|qs| - 1])| + |q.literals| + MFLIMIT <= end &&
     |Expand(hist, qs)| + LASTLITERALS <= end)
  }

  // ----- reading back what was written -----

  lemma Slice<T>(s: seq<T>, p: nat, e: seq<T>, i: nat, j: nat)
    requires i <= j <= |e| && p + |e| <= |s| && s[p..p + |e|] == e
    ensures s[p + i..p + j] == e[i..j]
  {
    forall k | i <= k < j ensures s[p + k] == e[k] {
      assert s[p + k] == s[p..p + |e|][k];
    }
  }

  lemma SliceParts<T>(s: seq<T>, p: nat, a: seq<T>, b: seq<T>)
    requires p + |a| + |b| <= |s| && s[p..p + |a| + |b|] == a + b
    ensures s[p..p + |a|] == a && s[p + |a|..p + |a| + |b|] == b
  {
    Slice(s, p, a + b, 0, |a|);
    Slice(s, p, a + b, |a|, |a| + |b|);
  }

  lemma {:induction false} ReadLengthBytes(s: seq<byte>, p: nat, v: nat)
    requires p + |LengthBytes(v)| <= |s| && s[p..p + |LengthBytes(v)|] == LengthBytes(v)
    ensures ReadLength(s, p) == Length(v, p + |LengthBytes(v)|)
    decreases v
  {
    var e := LengthBytes(v);
    assert s[p] == s[p..p + |e|][0];
    if v >= 255 {
      var f := LengthBytes(v - 255);
      assert e[1..] == f;
      assert s[p + 1..p + 1 + |f|] == s[p..p + |e|][1..];
      ReadLengthBytes(s, p + 1, v - 255);
    }
  }

  lemma {:induction false} ReadFieldExtra(s: seq<byte>, p: nat, v: nat)
    requires p + |Extra(v)| <= |s| && s[p..p + |Extra(v)|] == Extra(v)
    ensures ReadField(s, p, Nibble(v)) == Length(v, p + |Extra(v)|)
  {
    if v >= 15 { ReadLengthBytes(s, p, v - 15); }
  }

  /** Where the pieces of an encoded literal run lie. */
  lemma {:induction false} ReadLiteralPart(s: seq<byte>, p: nat, lits: seq<byte>, low: nat)
    requires low <= 15
    requires p + |LiteralPart(lits, low)| <= |s| && s[p..p + |LiteralPart(lits, low)|] == LiteralPart(lits, low)
    ensures s[p] == Nibble(|lits|) * 16 + low && s[p] / 16 == Nibble(|lits|) && s[p] % 16 == low
    ensures ReadField(s, p + 1, s[p] / 16) == Length(|lits|, p + 1 + |Extra(|lits|)|)
    ensures s[p + 1 + |Extra(|lits|)|..p + |LiteralPart(lits, low)|] == lits
  {
    hide Extra, ReadField;
    var e, x := LiteralPart(lits, low), Extra(|lits|);
    assert s[p] == s[p..p + |e|][0] == e[0];
    assert e[1..1 + |x|] == x && e[1 + |x|..|e|] == lits;
    Slice(s, p, e, 1, 1 + |x|);
    Slice(s, p, e, 1 + |x|, |e|);
    ReadFieldExtra(s, p + 1, |lits|);
  }

  lemma {:induction false} ReadMatchPart(s: seq<byte>, p: nat, offset: nat, matchLength: nat)
    requires offset <= DISTANCE_MAX && matchLength >= MINMATCH
    requires p + |MatchPart(offset, matchLength)| <= |s|
    requires s[p..p + |MatchPart(offset, matchLength)|] == MatchPart(offset, matchLength)
    ensures Offset(s, p) == offset
    ensures ReadField(s, p + 2, Nibble(matchLength - MINMATCH)) ==
            Length(matchLength - MINMATCH, p + |MatchPart(offset, matchLength)|)
  {
    hide Extra, ReadField, Nibble;
    var x := Extra(matchLength - MINMATCH);
    SliceParts(s, p, [offset % 256, offset / 256], x);
    assert s[p] == s[p..p + 2][0] && s[p + 1] == s[p..p + 2][1];
    ReadFieldExtra(s, p + 2, matchLength - MINMATCH);
  }

  lemma {:induction false} ParseLiteralPart(s: seq<byte>, p: nat, lits: seq<byte>, low: nat)
    requires low <= 15
    requires p + |LiteralPart(lits, low)| <= |s| && s[p..p + |LiteralPart(lits, low)|] == LiteralPart(lits, low)
    ensures var q := p + |LiteralPart(lits, low)|;
            Parse(s, p) == if q == |s| then Last(lits) else ParseMatch(s, q, lits, low)
  {
    hide ReadField, Extra, Nibble, LiteralPart;
    ReadLiteralPart(s, p, lits, low);
    assert s[p + 1 + |Extra(|lits|)|..|s|] == s[p + 1 + |Extra(|lits|)|..];
  }

  /** One written sequence is read back as one item. */
  lemma {:induction false} ParseSequence(s: seq<byte>, p: nat, q: Sequence)
    requires p + |EncodeSequence(q)| < |s| && s[p..p + |EncodeSequence(q)|] == EncodeSequence(q)
    ensures Parse(s, p) == Match(q.literals, q.offset, q.matchLength, p + |EncodeSequence(q)|)
  {
    hide Parse, LiteralPart, MatchPart, Nibble, ReadField, Extra, Offset;
    var low := Nibble(q.matchLength - MINMATCH);
    var l, m := LiteralPart(q.literals, low), MatchPart(q.offset, q.matchLength);
    SliceParts(s, p, l, m);
    ParseLiteralPart(s, p, q.literals, low);
    ReadMatchPart(s, p + |l|, q.offset, q.matchLength);
  }

  /** Where the last sequence of a written list lies. */
  lemma {:induction false} SplitLast(s: seq<byte>, qs: seq<Sequence>)
    requires qs != [] && |EncodeAll(qs)| < |s| && s[..|EncodeAll(qs)|] == EncodeAll(qs)
    ensures var e := |EncodeAll(qs[..|qs| - 1])|;
            var q := qs[|qs| - 1];
            && e < |s| && s[..e] == EncodeAll(qs[..|qs| - 1])
            && Parse(s, e) == Match(q.literals, q.offset, q.matchLength, |EncodeAll(qs)|)
  {
    var e, q := EncodeAll(qs[..|qs| - 1]), qs[|qs| - 1];
    assert s[..|e|] == s[..|EncodeAll(qs)|][..|e|] == e;
    assert s[|e|..|e| + |EncodeSequence(q)|] == s[..|EncodeAll(qs)|][|e|..] == EncodeSequence(q);
    ParseSequence(s, |e|, q);
  }

  lemma {:induction false} DecodeAll(s: seq<byte>, qs: seq<Sequence>, hist: seq<byte>)
    requires ValidSequences(hist, qs)
    requires |EncodeAll(qs)| < |s| && s[..|EncodeAll(qs)|] == EncodeAll(qs)
    ensures Decode(s, 0, hist) == Decode(s, |EncodeAll(qs)|, Expand(hist, qs))
  {
    if qs != [] {
      SplitLast(s, qs);
      DecodeAll(s, qs[..|qs| - 1], hist);
    }
  }

  lemma {:induction false} ConformAll(s: seq<byte>, qs: seq<Sequence>, hist: seq<byte>, end: nat)
    requires ValidSequences(hist, qs) && EndRules(hist, qs, end)
    requires |EncodeAll(qs)| < |s| && s[..|EncodeAll(qs)|] == EncodeAll(qs)
    requires Conforming(s, |EncodeAll(qs)|, Expand(hist, qs), end)
    ensures Conforming(s, 0, hist, end)
  {
    if qs != [] {
      var init := qs[..|qs| - 1];
      SplitLast(s, qs);
      assert Conforming(s, |EncodeAll(init)|, Expand(hist, init), end);
      assert EndRules(hist, init, end);
      ConformAll(s, init, hist, end);
    }
  }

  lemma LastDecodes(s: seq<byte>, p: nat, out: seq<byte>, lits: seq<byte>)
    requires p <= |s| && Parse(s, p) == Last(lits)
    ensures Decode(s, p, out) == Done(out + lits) && Conforming(s, p, out, |out| + |lits|)
  {
  }

  /** Round trip of the format: the bytes written for a list of sequences and a last literal run
      decode to exactly the output they describe, and conform when the end rules hold. */
  lemma {:induction false} EncodeDecodes(s: seq<byte>, qs: seq<Sequence>, last: seq<byte>, hist: seq<byte>)
    requires ValidSequences(hist, qs)
    requires s == EncodeAll(qs) + LiteralPart(last, 0)
    ensures Decode(s, 0, hist) == Done(Expand(hist, qs) + last)
    ensures EndRules(hist, qs, |Expand(hist, qs)| + |last|) ==>
              Conforming(s, 0, hist, |Expand(hist, qs)| + |last|)
  {
    hide Decode, Conforming, Parse, EncodeAll, LiteralPart, Expand, ValidSequences, EndRules;
    var e := |EncodeAll(qs)|;
    assert s[..e] == EncodeAll(qs) && s[e..|s|] == LiteralPart(last, 0);
    ParseLiteralPart(s, e, last, 0);
    LastDecodes(s, e, Expand(hist, qs), last);
    DecodeAll(s, qs, hist);
    if EndRules(hist, qs, |Expand(hist, qs)| + |last|) {
      ConformAll(s, qs, hist, |Expand(hist, qs)| + |last|);
    }
  }
}
