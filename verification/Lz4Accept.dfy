/** Which blocks the optimised decoder accepts, exactly. Decoding in full, its tests look at lengths and
    positions only: how far the input, the reachable history and the capacity are. They do not know how large the
    output will be, so they are not the end-of-block rules. */
module Lz4Accept {
  import opened Lz4Format

  /** The capacity, the history that lies directly in front of the output, and all history that can be reached. */
  datatype Setting = Setting(room: nat, near: nat, far: nat)

  datatype Walk = Refused | Reaches(size: nat)

  /** The test of the shortcut and of the fast loop for a short literal run: there is room for a whole short
      sequence in the output and for more than that in the input. */
  predicate Roomy(s: seq<byte>, e: Setting, p: nat, o: nat)
    requires p < |s|
  {
    s[p] / 16 != RUN_MASK && p + 1 < |s| - 16 && o + 32 <= e.room
  }

  /** A short match behind such a run that is copied without a look at the end of the output. */
  predicate Unchecked(s: seq<byte>, e: Setting, q: nat, nibble: nat, o: nat)
    requires q + 2 <= |s|
  {
    nibble != ML_MASK && 8 <= Offset(s, q) <= o + e.near
  }

  /** The verdict on s[p..] when `o` bytes are written. */
  function WalkToken(s: seq<byte>, e: Setting, p: nat, o: nat): Walk
    requires p < |s|
    decreases |s| - p, 0
  {
    var length, nibble := s[p] / 16, s[p] % 16;
    if Roomy(s, e, p, o) then
      if Unchecked(s, e, p + 1 + length, nibble, o + length)
      then WalkToken(s, e, p + 3 + length, o + length + nibble + MINMATCH)
      else WalkMatch(s, e, p + 1 + length, nibble, o + length)
    else match ReadField(s, p + 1, length)
      case NoLength => Refused
      case Length(v, n) => WalkLiterals(s, e, n, v, nibble, o)
  }

  /** A run that comes close to an end has to be the last one. */
  function WalkLiterals(s: seq<byte>, e: Setting, q: nat, length: nat, nibble: nat, o: nat): Walk
    requires q <= |s|
    decreases |s| - q, 1
  {
    if o + length > e.room - MFLIMIT || q + length > |s| - (2 + 1 + LASTLITERALS) then
      if q + length == |s| && o + length <= e.room then Reaches(o + length) else Refused
    else WalkMatch(s, e, q + length, nibble, o + length)
  }

  function WalkMatch(s: seq<byte>, e: Setting, q: nat, nibble: nat, o: nat): Walk
    requires q + 2 < |s|
    decreases |s| - q, 0
  {
    match ReadField(s, q + 2, nibble)
    case NoLength => Refused
    case Length(v, n) =>
      if nibble == ML_MASK && n > |s| - LASTLITERALS + 1 then Refused
      else WalkCopy(s, e, Offset(s, q), v + MINMATCH, n, o)
  }

  /** A match within the reachable history that stays LASTLITERALS away from the end of the capacity. */
  function WalkCopy(s: seq<byte>, e: Setting, offset: nat, length: nat, next: nat, o: nat): Walk
    requires next < |s|
    decreases |s| - next, 1
  {
    if offset > o + e.far || o + length > e.room - LASTLITERALS then Refused
    else WalkToken(s, e, next, o + length)
  }

  /** The verdict on a block: refused, or accepted with this many bytes of output. */
  function Verdict(s: seq<byte>, e: Setting): Walk {
    if e.room == 0 then (if s == [0] then Reaches(0) else Refused)
    else if s == [] then Refused
    else WalkToken(s, e, 0, 0)
  }

  /** The call accepts and refuses exactly as the tests of the decoder say. */
  ghost predicate Exact(src: seq<byte>, e: Setting, r: int) {
    match Verdict(src, e)
    case Reaches(size) => r == size
    case Refused => r < 0
  }

  /** An offset reaches 65535 bytes back at most. */
  lemma {:induction false} FarEnough(s: seq<byte>, e: Setting, e2: Setting, p: nat, o: nat)
    requires p < |s| && e.room == e2.room
    requires DISTANCE_MAX <= e.near && DISTANCE_MAX <= e2.near && DISTANCE_MAX <= e.far && DISTANCE_MAX <= e2.far
    ensures WalkToken(s, e, p, o) == WalkToken(s, e2, p, o)
    decreases |s| - p, 0
  {
    hide ReadLength, WalkMatch;
    var length, nibble := s[p] / 16, s[p] % 16;
    if Roomy(s, e, p, o) {
      if Unchecked(s, e, p + 1 + length, nibble, o + length) {
        FarEnough(s, e, e2, p + 3 + length, o + length + nibble + MINMATCH);
      } else {
        FarEnoughMatch(s, e, e2, p + 1 + length, nibble, o + length);
      }
    } else {
      var f := ReadField(s, p + 1, length);
      if f.Length? && f.next + f.value + 8 <= |s| {
        FarEnoughMatch(s, e, e2, f.next + f.value, nibble, o + f.value);
      }
      if f.Length? {
        assert WalkToken(s, e, p, o) == WalkLiterals(s, e, f.next, f.value, nibble, o);
        assert WalkToken(s, e2, p, o) == WalkLiterals(s, e2, f.next, f.value, nibble, o);
      }
    }
  }

  lemma {:induction false} FarEnoughMatch(s: seq<byte>, e: Setting, e2: Setting, q: nat, nibble: nat, o: nat)
    requires q + 2 < |s| && e.room == e2.room
    requires DISTANCE_MAX <= e.near && DISTANCE_MAX <= e2.near && DISTANCE_MAX <= e.far && DISTANCE_MAX <= e2.far
    ensures WalkMatch(s, e, q, nibble, o) == WalkMatch(s, e2, q, nibble, o)
    decreases |s| - q, 0
  {
    hide ReadLength, WalkToken;
    var f := ReadField(s, q + 2, nibble);
    if f.Length? && f.next < |s| {
      FarEnough(s, e, e2, f.next, o + f.value + MINMATCH);
    }
  }

  // ----- conforming blocks -----

  /** A sequence that keeps its distance from both ends is always passed. */
  lemma {:induction false} WalksOn(s: seq<byte>, e: Setting, p: nat, o: nat)
    requires p < |s| && Parse(s, p).Match?
    requires var item := Parse(s, p);
             var o1 := o + |item.lits|;
             && item.next + 6 <= |s| && item.offset <= o1 + e.far
             && o1 + MFLIMIT <= e.room && o1 + item.length + LASTLITERALS <= e.room
    ensures var item := Parse(s, p);
            WalkToken(s, e, p, o) == WalkToken(s, e, item.next, o + |item.lits| + item.length)
  {
    hide ReadLength, ParseMatch, WalkMatch, WalkCopy;
    var length, nibble := s[p] / 16, s[p] % 16;
    var f := ReadField(s, p + 1, length);
    var q := f.next + f.value;
    assert Parse(s, p) == ParseMatch(s, q, s[f.next..q], nibble);
    MatchWalk(s, e, q, s[f.next..q], nibble, o + f.value);
    if !Roomy(s, e, p, o) {
      assert WalkToken(s, e, p, o) == WalkLiterals(s, e, f.next, f.value, nibble, o);
    }
  }

  /** A match that can be read is copied or refused; short ones may be passed without the tests. */
  lemma {:induction false} MatchWalk(s: seq<byte>, e: Setting, q: nat, lits: seq<byte>, nibble: nat, o: nat)
    requires q <= |s| && ParseMatch(s, q, lits, nibble).Match? && ParseMatch(s, q, lits, nibble).next < |s|
    ensures var item := ParseMatch(s, q, lits, nibble);
            && item.offset == Offset(s, q)
               && (nibble != ML_MASK ==> item.next == q + 2 && item.length == nibble + MINMATCH)
            && WalkMatch(s, e, q, nibble, o) ==
               if (nibble == ML_MASK && item.next > |s| - LASTLITERALS + 1) || item.offset > o + e.far
                  || o + item.length > e.room - LASTLITERALS
               then Refused
               else WalkToken(s, e, item.next, o + item.length)
  {
    hide ReadLength;
    var item := ParseMatch(s, q, lits, nibble);
    assert WalkCopy(s, e, item.offset, item.length, item.next, o) ==
           if item.offset > o + e.far || o + item.length > e.room - LASTLITERALS then Refused
           else WalkToken(s, e, item.next, o + item.length);
  }

  /** The last run is always passed when it fits. */
  lemma {:induction false} WalksLast(s: seq<byte>, e: Setting, p: nat, o: nat)
    requires p < |s| && Parse(s, p).Last? && o + |Parse(s, p).lits| <= e.room
    ensures WalkToken(s, e, p, o) == Reaches(o + |Parse(s, p).lits|)
  {
    hide ReadLength, ParseMatch;
    var f := ReadField(s, p + 1, s[p] / 16);
    assert f.next + f.value == |s|;
  }

  /** Every conforming block whose output fits is accepted with exactly that output. */
  lemma {:induction false} ConformingWalks(s: seq<byte>, e: Setting, p: nat, o: nat, out: seq<byte>, end: nat)
    requires p < |s| && Conforming(s, p, out, end)
    requires o <= |out| <= o + e.far && end <= |out| - o + e.room
    ensures WalkToken(s, e, p, o).Reaches? && WalkToken(s, e, p, o).size + |out| == end + o
    decreases |s| - p
  {
    hide Parse, CopyMatch, WalkToken;
    var item := Parse(s, p);
    match item
    case Last(lits) => WalksLast(s, e, p, o);
    case Match(lits, offset, length, next) =>
      var o2 := CopyMatch(out + lits, offset, length);
      ConformingTail(s, next, o2, end);
      WalksOn(s, e, p, o);
      ConformingWalks(s, e, next, o + |lits| + length, o2, end);
  }

  /** A conforming block is accepted if and only if it fits a capacity above 0, or is the byte 0. */
  lemma ConformingVerdict(s: seq<byte>, e: Setting, hist: seq<byte>, n: nat)
    requires Conforming(s, 0, hist, |hist| + n) && |hist| <= e.far
    ensures n <= e.room && (e.room > 0 || s == [0]) ==> Verdict(s, e) == Reaches(n)
    ensures e.room == 0 && s != [0] ==> Verdict(s, e) == Refused
  {
    hide WalkToken;
    if e.room == 0 {
      ConformingDecodes(s, 0, hist, |hist| + n);
    } else if n <= e.room {
      assert s != [] by {
        assert Parse([], 0) == Cut([]);
      }
      ConformingWalks(s, e, 0, 0, hist, |hist| + n);
    }
  }

  /** The blocks without output: a single token that announces no literals, whatever its other half says. */
  lemma {:induction false} BlocksWithoutOutput(s: seq<byte>, hist: seq<byte>)
    ensures Conforming(s, 0, hist, |hist|) <==> |s| == 1 && s[0] < 16
  {
    hide ReadLength;
    if s != [] {
      var item := Parse(s, 0);
      assert Conforming(s, 0, hist, |hist|) == ConformingItem(s, item, hist, |hist|);
      if |s| == 1 {
        assert s[0] < 16 ==> item == Last(s[1..]);
      }
    }
  }

  /** So at capacity 0 some conforming blocks are refused. */
  lemma RefusedAtZero(b: byte)
    requires b < 16
    ensures Conforming([b], 0, [], 0)
    ensures Verdict([b], Setting(0, 0, 0)) == if b == 0 then Reaches(0) else Refused
  {
    BlocksWithoutOutput([b], []);
  }

  // ----- blocks that do not conform -----

  /** The matches that the block s[p..] still has keep the distances of the end rules from an output of n bytes, and
      none has offset 0. */
  predicate KeepsEndRules(s: seq<byte>, p: nat, o: nat, n: nat)
    requires p <= |s|
    decreases |s| - p
  {
    match Parse(s, p)
    case Last(_) => true
    case Match(lits, _, length, next) =>
      o + |lits| + MFLIMIT <= n && o + |lits| + length + LASTLITERALS <= n
          && KeepsEndRules(s, next, o + |lits| + length, n)
    case _ => false
  }

  /** Accepted blocks conform exactly when they keep the end rules: that is all the decoder does not look at. */
  lemma {:induction false} AcceptedConforms(s: seq<byte>, e: Setting, p: nat, o: nat, out: seq<byte>, n: nat)
    requires p < |s| && e.near <= e.far && WalkToken(s, e, p, o) == Reaches(n) && |out| == e.far + o
    ensures Conforming(s, p, out, e.far + n) <==> KeepsEndRules(s, p, o, n)
    decreases |s| - p
  {
    hide CopyMatch, WalkToken;
    AcceptedStep(s, e, p, o);
    match Parse(s, p)
    case Last(lits) =>
    case Match(lits, offset, length, next) =>
      AcceptedConforms(s, e, next, o + |lits| + length, CopyMatch(out + lits, offset, length), n);
    case _ =>
  }

  lemma {:induction false} AcceptedStep(s: seq<byte>, e: Setting, p: nat, o: nat)
    requires p < |s| && e.near <= e.far && WalkToken(s, e, p, o).Reaches?
    ensures match Parse(s, p)
            case Last(lits) => WalkToken(s, e, p, o) == Reaches(o + |lits|)
            case Match(lits, offset, length, next) =>
              next < |s| && offset <= o + |lits| + e.far &&
              WalkToken(s, e, p, o) == WalkToken(s, e, next, o + |lits| + length)
            case Zero(_) => true
            case Cut(_) => false
  {
    hide ReadLength, ParseMatch, WalkMatch, WalkCopy;
    var length, nibble := s[p] / 16, s[p] % 16;
    var f := ReadField(s, p + 1, length);
    var q := f.next + f.value;
    if !Roomy(s, e, p, o) {
      assert WalkToken(s, e, p, o) == WalkLiterals(s, e, f.next, f.value, nibble, o);
    }
    if q < |s| {
      var lits := s[f.next..q];
      assert Parse(s, p) == ParseMatch(s, q, lits, nibble);
      AcceptedMatch(s, e, q, lits, nibble, o + f.value);
      if ParseMatch(s, q, lits, nibble).Match? && ParseMatch(s, q, lits, nibble).next < |s| {
        MatchWalk(s, e, q, lits, nibble, o + f.value);
      }
    }
  }

  /** Where a match can start, a walk that goes on has read a whole one. */
  lemma {:induction false} AcceptedMatch(s: seq<byte>, e: Setting, q: nat, lits: seq<byte>, nibble: nat, o: nat)
    requires q <= |s|
    ensures var item := ParseMatch(s, q, lits, nibble);
            (q + 2 < |s| && (WalkMatch(s, e, q, nibble, o).Reaches? || nibble != ML_MASK) ==>
               item.Zero? || (item.Match? && item.next < |s|))
  {
    hide ReadLength, WalkToken;
  }

  /** The shortcut passes a match that ends where the block does: with 14 literals, a match of four bytes at a
      distance of 8 and no last literals, 18 bytes of output are accepted into a capacity of 32. */
  lemma ShortcutIsLenient(lits: seq<byte>)
    requires |lits| == 14
    ensures var s := [0xE0] + lits + [8, 0, 0];
            Verdict(s, Setting(32, 0, 0)) == Reaches(18) && !Conforming(s, 0, [], 18)
  {
    var s, e := [0xE0] + lits + [8, 0, 0], Setting(32, 0, 0);
    assert s[15] == 8 && s[16] == 0 && s[17] == 0;
    assert Offset(s, 15) == 8;
    assert Roomy(s, e, 0, 0) && Unchecked(s, e, 15, 0, 14);
    assert WalkToken(s, e, 17, 18) == Reaches(18);
    assert Parse(s, 0) == ParseMatch(s, 15, s[1..15], 0);
  }

  /** Without the shortcut the distances are kept from the end of the capacity, not of the output. */
  lemma CapacityIsLenient(lits: seq<byte>, last: seq<byte>)
    requires |lits| == 8 && |last| == 5
    ensures var s := [0x80] + lits + [8, 0, 0x50] + last;
            Verdict(s, Setting(20, 0, 0)) == Reaches(17) && !Conforming(s, 0, [], 17)
  {
    var s, e := [0x80] + lits + [8, 0, 0x50] + last, Setting(20, 0, 0);
    assert s[9] == 8 && s[10] == 0 && s[11] == 0x50 && |s| == 17;
    assert Parse(s, 0) == ParseMatch(s, 9, s[1..9], 0) == Match(s[1..9], 8, 4, 11);
    assert Parse(s, 11) == Last(s[12..]);
    WalksOn(s, e, 0, 0);
    WalksLast(s, e, 11, 12);
  }
}
