/** The HC match finder: a hash table of newest positions and a 16-bit wrapping chain of distances
    (LZ4HC_Insert, LZ4HC_InsertAndGetWiderMatch), for input that lies in one piece behind its history.
    A position in `t` has the index `base` + position. */
module Lz4hcSearch {
  import opened Lz4Format
  import opened Lz4Copy
  import opened Lz4Compressor

  const HASHTABLESIZE := 32768
  const MAXD := 65536

  /** LZ4HC_hashPtr */
  function HashHc(t: seq<byte>, p: nat): (r: nat)
    requires p + 4 <= |t|
    ensures r < HASHTABLESIZE
  {
    Little(t, p, 4) * 2654435761 % 0x1_0000_0000 / 0x2_0000
  }

  /** The newest position before `pos` with the hash `h`, or -1. */
  function Newest(t: seq<byte>, pos: nat, h: nat): (r: int)
    requires pos == 0 || pos + 3 <= |t|
    ensures -1 <= r < pos
  {
    if pos == 0 then -1 else if HashHc(t, pos - 1) == h then pos - 1 else Newest(t, pos - 1, h)
  }

  /** All positions in low..hi with the hash `h`, newest first: a plain scan. */
  function Candidates(t: seq<byte>, low: nat, hi: nat, h: nat): seq<nat>
    requires hi + 3 <= |t|
  {
    if hi <= low then [] else if HashHc(t, hi - 1) == h then [hi - 1] + Candidates(t, low, hi - 1, h)
    else Candidates(t, low, hi - 1, h)
  }

  lemma {:induction false} CandidatesStep(t: seq<byte>, low: nat, hi: nat, h: nat)
    requires hi + 3 <= |t|
    ensures var q := Newest(t, hi, h);
            Candidates(t, low, hi, h) == if q >= low then [q] + Candidates(t, low, q, h) else []
  {
    hide HashHc;
    if hi > 0 && HashHc(t, hi - 1) != h { CandidatesStep(t, low, hi - 1, h); }
  }

  /** A table entry for the positions before `pos`: the index of the newest one, or something older. */
  ghost predicate HeadOk(t: seq<byte>, base: nat, e: nat, pos: nat, h: nat)
    requires pos == 0 || pos + 3 <= |t|
  {
    if Newest(t, pos, h) >= 0 then e == base + Newest(t, pos, h) else e < base
  }

  /** A chain entry: the distance to the previous position of the same hash, as far as 16 bits go;
      beyond the start when there is none. */
  ghost predicate LinkOk(t: seq<byte>, d: nat, pos: nat)
    requires pos + 4 <= |t|
  {
    var q := Newest(t, pos, HashHc(t, pos));
    d <= DISTANCE_MAX && (if q >= 0 then d == if pos - q > DISTANCE_MAX then DISTANCE_MAX else pos - q
                          else d > pos || d == DISTANCE_MAX)
  }

  /** Where the chain entry of a position is kept: its index, wrapped to 16 bits. */
  function Slot(base: nat, pos: nat): (r: nat)
    ensures r < MAXD
  {
    (base + pos) % MAXD
  }

  /** The tables describe the positions before `n`. */
  ghost predicate TablesOk(t: seq<byte>, base: nat, heads: seq<nat>, chain: seq<nat>, n: nat) {
    && (n == 0 || n + 3 <= |t|) && |heads| == HASHTABLESIZE && |chain| == MAXD
    && (forall h :: 0 <= h < |heads| ==> HeadOk(t, base, heads[h], n, h))
    && (forall pos :: 0 <= pos < n <= pos + MAXD ==> LinkOk(t, chain[Slot(base, pos)], pos))
    && (forall i :: 0 <= i < |chain| ==> chain[i] <= DISTANCE_MAX)
  }

  /** Two positions less than 65536 apart never share a chain slot. */
  lemma DistinctSlots(base: nat, a: nat, b: nat)
    requires a < b < a + MAXD
    ensures Slot(base, a) != Slot(base, b)
  {
  }

  lemma {:induction false} Inserted(t: seq<byte>, base: nat, heads: seq<nat>, chain: seq<nat>, n: nat, delta: nat)
    requires TablesOk(t, base, heads, chain, n) && n + 4 <= |t|
    requires var e := heads[HashHc(t, n)];
             delta == if base + n - e > DISTANCE_MAX then DISTANCE_MAX else base + n - e
    ensures TablesOk(t, base, heads[HashHc(t, n) := base + n], chain[Slot(base, n) := delta], n + 1)
  {
    hide HashHc, Slot, LinkOk, HeadOk, Newest;
    var heads2, chain2 := heads[HashHc(t, n) := base + n], chain[Slot(base, n) := delta];
    assert HeadOk(t, base, heads[HashHc(t, n)], n, HashHc(t, n));
    NewLink(t, base, heads[HashHc(t, n)], n, delta);
    forall pos | 0 <= pos < n + 1 <= pos + MAXD ensures LinkOk(t, chain2[Slot(base, pos)], pos) {
      if pos < n { DistinctSlots(base, pos, n); assert LinkOk(t, chain[Slot(base, pos)], pos); }
    }
    forall h | 0 <= h < |heads2| ensures HeadOk(t, base, heads2[h], n + 1, h) {
      assert HeadOk(t, base, heads[h], n, h);
      NewHead(t, base, heads[h], n, h);
    }
  }

  lemma NewLink(t: seq<byte>, base: nat, e: nat, n: nat, delta: nat)
    requires n + 4 <= |t| && HeadOk(t, base, e, n, HashHc(t, n))
    requires delta == if base + n - e > DISTANCE_MAX then DISTANCE_MAX else base + n - e
    ensures LinkOk(t, delta, n)
  {
    hide HashHc;
  }

  lemma NewHead(t: seq<byte>, base: nat, e: nat, n: nat, h: nat)
    requires n + 4 <= |t| && HeadOk(t, base, e, n, h)
    ensures HeadOk(t, base, if h == HashHc(t, n) then base + n else e, n + 1, h)
  {
    hide HashHc;
  }

  /** One step along the chain is one step of the scan, or leaves the window. */
  lemma {:induction false} LinkStep(t: seq<byte>, low: nat, m: nat, d: nat, end: nat)
    requires m + 4 <= |t| && LinkOk(t, d, m) && low <= m < end <= low + DISTANCE_MAX
    ensures var c := Candidates(t, low, m, HashHc(t, m));
            if m - d >= low then 1 <= d && HashHc(t, m - d) == HashHc(t, m)
                && c == [m - d] + Candidates(t, low, m - d, HashHc(t, m))
            else c == []
  {
    hide HashHc;
    CandidatesStep(t, low, m, HashHc(t, m));
    NewestHash(t, m, HashHc(t, m));
  }

  lemma {:induction false} NewestHash(t: seq<byte>, pos: nat, h: nat)
    requires pos + 3 <= |t|
    ensures Newest(t, pos, h) >= 0 ==> HashHc(t, Newest(t, pos, h)) == h
  {
    hide HashHc;
    if pos > 0 && HashHc(t, pos - 1) != h { NewestHash(t, pos - 1, h); }
  }

  // ----- counting -----

  /** How many of the four bytes before two positions agree (LZ4HC_NbCommonBytes32 of their difference). */
  method CommonBytesBack(t: seq<byte>, ip: nat, off: nat) returns (n: nat)
    requires 1 <= off && off + 4 <= ip <= |t|
    ensures n <= 4 && Repeats(t, ip - n, ip, off) && (n < 4 ==> t[ip - n - 1] != t[ip - n - 1 - off])
  {
    n := 0;
    while n < 4 && t[ip - n - 1] == t[ip - n - 1 - off]
      invariant n <= 4 && Repeats(t, ip - n, ip, off)
    {
      n := n + 1;
    }
  }

  /** LZ4HC_countBack: how far two positions agree backwards, four bytes at a time and then one. */
  method CountBack(t: seq<byte>, ip: nat, mtch: nat, iMin: nat) returns (back: int)
    requires iMin <= ip < |t| && mtch < ip
    ensures back <= 0 && iMin <= ip + back && 0 <= mtch + back && Repeats(t, ip + back, ip, ip - mtch)
    ensures ip + back > iMin && mtch + back > 0 ==> t[ip + back - 1] != t[ip + back - 1 - (ip - mtch)]
  {
    var off := ip - mtch;
    var lowest := if iMin > off then iMin else off;
    var at := ip;
    while at - lowest > 3
      invariant lowest <= at <= ip && Repeats(t, at, ip, off)
    {
      var common := CommonBytesBack(t, at, off);
      if common < 4 {
        return at - common - ip;
      }
      at := at - 4;
    }
    while at > lowest && t[at - 1] == t[at - 1 - off]
      invariant lowest <= at <= ip && Repeats(t, at, ip, off)
    {
      at := at - 1;
    }
    return at - ip;
  }

  ghost predicate Run(t: seq<byte>, from: int, to: int, b: byte) {
    0 <= from <= to <= |t| && forall k :: from <= k < to ==> t[k] == b
  }

  /** `to - from` bytes that repeat the four bytes of the pattern, starting with its first one. */
  ghost predicate Follows(t: seq<byte>, from: int, to: int, pattern: seq<byte>) {
    0 <= from <= to <= |t| && |pattern| == 4 && forall k :: from <= k < to ==> t[k] == pattern[(k - from) % 4]
  }

  /** `to - from` bytes that repeat the four bytes of the pattern, ending with its last one. */
  ghost predicate Precedes(t: seq<byte>, from: int, to: int, pattern: seq<byte>) {
    0 <= from <= to <= |t| && |pattern| == 4 && forall k :: from <= k < to ==> t[k] == pattern[3 - (to - 1 - k) % 4]
  }

  /** How many of the next bytes agree with the pattern, at most `most` of them. */
  method AgreeingBytes(t: seq<byte>, ip: nat, most: nat, pattern: seq<byte>) returns (n: nat)
    requires ip + most <= |t| && |pattern| == 4
    ensures n <= most && Follows(t, ip, ip + n, pattern) && (n < most ==> t[ip + n] != pattern[n % 4])
  {
    n := 0;
    while n < most && t[ip + n] == pattern[n % 4]
      invariant n <= most && Follows(t, ip, ip + n, pattern)
    {
      n := n + 1;
    }
  }

  /** LZ4HC_countPattern: how far the four bytes of the pattern repeat from `ip0` on, eight bytes at a time
      and then one. */
  method CountPattern(t: seq<byte>, ip0: nat, end: nat, pattern: seq<byte>) returns (n: nat)
    requires ip0 <= end <= |t| && |pattern| == 4
    ensures ip0 + n <= end && Follows(t, ip0, ip0 + n, pattern) && (ip0 + n < end ==> t[ip0 + n] != pattern[n % 4])
  {
    var ip := ip0;
    while ip + 7 < end
      invariant ip0 <= ip <= end && (ip - ip0) % 8 == 0 && Follows(t, ip0, ip, pattern)
      decreases end - ip
    {
      var common := AgreeingBytes(t, ip, 8, pattern);
      FollowsOn(t, ip0, ip, ip + common, pattern);
      if common < 8 {
        return ip + common - ip0;
      }
      ip := ip + 8;
    }
    n := AgreeingBytes(t, ip, end - ip, pattern);
    FollowsOn(t, ip0, ip, ip + n, pattern);
    n := ip + n - ip0;
  }

  lemma FollowsOn(t: seq<byte>, from: int, mid: int, to: int, pattern: seq<byte>)
    requires Follows(t, from, mid, pattern) && Follows(t, mid, to, pattern) && (mid - from) % 4 == 0
    ensures Follows(t, from, to, pattern) && (to - from) % 4 == (to - mid) % 4
  {
    WholeWords(to - mid, mid - from);
    forall k | mid <= k < to ensures t[k] == pattern[(k - from) % 4] {
      WholeWords(k - mid, mid - from);
      assert k - from == k - mid + (mid - from);
    }
    assert to - from == to - mid + (mid - from);
  }

  lemma WholeWords(a: int, b: int)
    requires b % 4 == 0
    ensures (a + b) % 4 == a % 4
  {
  }

  /** A word that is the pattern. */
  predicate WordAt(t: seq<byte>, p: nat, pattern: seq<byte>)
    requires p + 4 <= |t| && |pattern| == 4
  {
    t[p] == pattern[0] && t[p + 1] == pattern[1] && t[p + 2] == pattern[2] && t[p + 3] == pattern[3]
  }

  /** The last `n` bytes of the pattern stand before `to`. */
  ghost predicate PartOfWord(t: seq<byte>, to: int, n: nat, pattern: seq<byte>) {
    && n <= to <= |t| && n <= 4 == |pattern|
    && (n >= 1 ==> t[to - 1] == pattern[3]) && (n >= 2 ==> t[to - 2] == pattern[2])
    && (n >= 3 ==> t[to - 3] == pattern[1]) && (n >= 4 ==> t[to - 4] == pattern[0])
  }

  lemma PartPrecedes(t: seq<byte>, to: int, n: nat, pattern: seq<byte>)
    requires PartOfWord(t, to, n, pattern)
    ensures Precedes(t, to - n, to, pattern)
  {
    forall k | to - n <= k < to ensures t[k] == pattern[3 - (to - 1 - k) % 4] {
      var j := to - 1 - k;
      assert j % 4 == j && (j == 0 || j == 1 || j == 2 || j == 3);
    }
  }

  /** LZ4HC_reverseCountPattern: how far the pattern repeats backwards from `ip0`, four bytes at a time and
      then one. */
  method ReverseCountPattern(t: seq<byte>, ip0: nat, low: nat, pattern: seq<byte>) returns (n: nat)
    requires low <= ip0 <= |t| && |pattern| == 4
    ensures n <= ip0 - low && Precedes(t, ip0 - n, ip0, pattern)
    ensures n < ip0 - low ==> t[ip0 - n - 1] != pattern[3 - n % 4]
  {
    hide Precedes;
    var ip := ip0;
    PartPrecedes(t, ip0, 0, pattern);
    while ip >= low + 4 && WordAt(t, ip - 4, pattern)
      invariant low <= ip <= ip0 && (ip0 - ip) % 4 == 0 && Precedes(t, ip, ip0, pattern)
    {
      PartPrecedes(t, ip, 4, pattern);
      PrecedesOn(t, ip - 4, ip, ip0, pattern);
      ip := ip - 4;
    }
    n := BytesBefore(t, ip, low, pattern);
    PartPrecedes(t, ip, n, pattern);
    PrecedesOn(t, ip - n, ip, ip0, pattern);
    n := ip0 - ip + n;
  }

  /** How many bytes before `ip` agree with the pattern, where the whole pattern does not. */
  method BytesBefore(t: seq<byte>, ip: nat, low: nat, pattern: seq<byte>) returns (n: nat)
    requires low <= ip <= |t| && |pattern| == 4 && (ip >= low + 4 ==> !WordAt(t, ip - 4, pattern))
    ensures n <= ip - low && n <= 3 && PartOfWord(t, ip, n, pattern)
    ensures n < ip - low ==> t[ip - n - 1] != pattern[3 - n]
  {
    n := 0;
    while ip - n > low && t[ip - n - 1] == pattern[3 - n]
      invariant n <= ip - low && n <= 3 && PartOfWord(t, ip, n, pattern)
    {
      n := n + 1;
    }
  }

  lemma PrecedesOn(t: seq<byte>, from: int, mid: int, to: int, pattern: seq<byte>)
    requires Precedes(t, from, mid, pattern) && Precedes(t, mid, to, pattern) && (to - mid) % 4 == 0
    ensures Precedes(t, from, to, pattern) && (to - from) % 4 == (mid - from) % 4
  {
    WholeWords(mid - from, to - mid);
    forall k | from <= k < mid ensures t[k] == pattern[3 - (to - 1 - k) % 4] {
      WholeWords(mid - 1 - k, to - mid);
      assert to - 1 - k == mid - 1 - k + (to - mid);
    }
    assert to - from == mid - from + (to - mid);
  }

  /** Four equal bytes, as a pattern. */
  function Four(b: byte): seq<byte> {
    [b, b, b, b]
  }

  lemma RunOf(t: seq<byte>, from: int, to: int, b: byte)
    ensures Follows(t, from, to, Four(b)) || Precedes(t, from, to, Four(b)) ==> Run(t, from, to, b)
  {
    if Follows(t, from, to, Four(b)) {
      forall k | from <= k < to ensures t[k] == b {
        assert t[k] == Four(b)[(k - from) % 4];
      }
    } else if Precedes(t, from, to, Four(b)) {
      forall k | from <= k < to ensures t[k] == b {
        assert t[k] == Four(b)[3 - (to - 1 - k) % 4];
      }
    }
  }

  // ----- the finder -----

  /** LZ4HC_match_t */
  datatype Found = Found(off: int, len: int, back: int)

  /** A found match is a true one, not beyond the limits of the search, and covers four bytes from ip. */
  ghost predicate Sound(t: seq<byte>, f: Found, ip: nat, iLow: nat, iHigh: nat) {
    && iLow <= ip + f.back <= ip && 1 <= f.off <= DISTANCE_MAX && f.off <= ip + f.back
    && ip + MINMATCH <= ip + f.back + f.len <= iHigh <= |t|
    && Repeats(t, ip + f.back, ip + f.back + f.len, f.off)
  }

  /** No match at this distance that covers four bytes from ip is longer. */
  ghost predicate NoneLonger(t: seq<byte>, off: nat, ip: nat, iLow: nat, iHigh: nat, len: int) {
    forall f: Found :: Sound(t, f, ip, iLow, iHigh) && f.off == off ==> f.len <= len
  }

  /** What every search needs: the two bytes it tests first lie inside the text. */
  predicate Searchable(t: seq<byte>, ip: nat, iLow: nat, longest: nat) {
    iLow <= ip && ip + MFLIMIT <= |t| && ip - iLow < longest && iLow + longest + 1 <= |t|
  }

  /** The length of the match at position `mtch`, widened backwards to iLow; 0 when it is refused. */
  method Measure(t: seq<byte>, ip: nat, mtch: nat, iLow: nat, longest: nat) returns (matchLength: nat, back: int)
    requires Searchable(t, ip, iLow, longest) && iLow + longest + LASTLITERALS <= |t|
    requires mtch < ip <= mtch + DISTANCE_MAX
    ensures matchLength > 0 ==> Sound(t, Found(ip - mtch, matchLength, back), ip, iLow, |t| - LASTLITERALS)
    ensures NoneLonger(t, ip - mtch, ip, iLow, |t| - LASTLITERALS, if matchLength > longest then matchLength
                       else longest)
  {
    hide Sound, NoneLonger;
    var off, probe := ip - mtch, iLow + longest - 1;
    matchLength, back := 0, 0;
    if off > probe || t[probe] != t[probe - off] || t[probe + 1] != t[probe + 1 - off] || !Same4(t, mtch, ip) {
      Refused(t, ip, mtch, iLow, longest);
      return;
    }
    if ip != iLow {
      back := CountBack(t, ip, mtch, iLow);
    }
    var count := Count(t, ip + MINMATCH, mtch + MINMATCH, |t| - LASTLITERALS);
    matchLength := MINMATCH + count - back;
    Widest(t, ip, mtch, iLow, back, count);
    LongerBound(t, off, ip, iLow, matchLength, longest);
  }

  /** A match the first comparison refuses is not longer than what was found before. */
  lemma Refused(t: seq<byte>, ip: nat, mtch: nat, iLow: nat, longest: nat)
    requires Searchable(t, ip, iLow, longest) && mtch < ip
    requires var off, probe := ip - mtch, iLow + longest - 1;
             off > probe || t[probe] != t[probe - off] || t[probe + 1] != t[probe + 1 - off] || !Same4(t, mtch, ip)
    ensures NoneLonger(t, ip - mtch, ip, iLow, |t| - LASTLITERALS, longest)
  {
  }

  lemma Widest(t: seq<byte>, ip: nat, mtch: nat, iLow: nat, back: int, count: nat)
    requires iLow <= ip + back <= ip && mtch < ip <= mtch + DISTANCE_MAX && 0 <= mtch + back
    requires ip + MINMATCH + count + LASTLITERALS <= |t| && Same4(t, mtch, ip)
    requires Repeats(t, ip + back, ip, ip - mtch) && Repeats(t, ip + MINMATCH, ip + MINMATCH + count, ip - mtch)
    requires ip + back > iLow && mtch + back > 0 ==> t[ip + back - 1] != t[ip + back - 1 - (ip - mtch)]
    requires var end := ip + MINMATCH + count; end + LASTLITERALS < |t| ==> t[end] != t[end - (ip - mtch)]
    ensures Sound(t, Found(ip - mtch, MINMATCH + count - back, back), ip, iLow, |t| - LASTLITERALS)
    ensures NoneLonger(t, ip - mtch, ip, iLow, |t| - LASTLITERALS, MINMATCH + count - back)
  {
    forall f: Found | Sound(t, f, ip, iLow, |t| - LASTLITERALS) && f.off == ip - mtch
      ensures f.len <= MINMATCH + count - back
    {
      assert ip + f.back >= ip + back;
      assert ip + f.back + f.len <= ip + MINMATCH + count;
    }
  }

  lemma LongerBound(t: seq<byte>, off: nat, ip: nat, iLow: nat, len: int, len2: int)
    requires LASTLITERALS <= |t| && NoneLonger(t, off, ip, iLow, |t| - LASTLITERALS, len)
    ensures NoneLonger(t, off, ip, iLow, |t| - LASTLITERALS, if len > len2 then len else len2)
  {
  }

  /** The best match so far, or none. */
  ghost predicate Result(t: seq<byte>, f: Found, ip: nat, iLow: nat, longest0: nat)
    requires LASTLITERALS <= |t|
  {
    && longest0 <= f.len && (f.len > longest0 ==> Sound(t, f, ip, iLow, |t| - LASTLITERALS))
    && (f.len == longest0 ==> f == Found(0, longest0, 0))
  }

  lemma ResultFits(t: seq<byte>, f: Found, ip: nat, iLow: nat, longest0: nat)
    requires iLow + longest0 + LASTLITERALS <= |t| && Result(t, f, ip, iLow, longest0)
    ensures longest0 <= f.len && iLow + f.len + LASTLITERALS <= |t|
  {
  }

  /** Every visited position has been measured. */
  ghost predicate Looked(t: seq<byte>, ip: nat, iLow: nat, visited: seq<nat>, len: int) {
    LASTLITERALS <= |t| && forall v :: v in visited ==>
        v < ip && NoneLonger(t, ip - v, ip, iLow, |t| - LASTLITERALS, len)
  }

  ghost predicate Confirms(t: seq<byte>, ip: nat, repeat: Repeat, run: nat)
    requires ip + MFLIMIT <= |t|
  {
    repeat == Confirmed ==> MINMATCH <= run <= |t| - LASTLITERALS - ip && Run(t, ip, ip + run, t[ip])
  }

  lemma NothingYet(t: seq<byte>, ip: nat, iLow: nat, longest0: nat)
    requires ip + MFLIMIT <= |t|
    ensures Looked(t, ip, iLow, [], longest0) && Confirms(t, ip, Untested, 0)
            && Result(t, Found(0, longest0, 0), ip, iLow, longest0)
  {
  }

  lemma StillLooked(t: seq<byte>, ip: nat, iLow: nat, visited: seq<nat>, len: int, len2: int)
    requires Looked(t, ip, iLow, visited, len) && len <= len2
    ensures Looked(t, ip, iLow, visited, len2)
  {
    hide Sound;
  }

  lemma LongestIs(t: seq<byte>, f: Found, ip: nat, iLow: nat, longest0: nat)
    requires LASTLITERALS <= |t| && Result(t, f, ip, iLow, longest0)
    ensures longest0 <= f.len
  {
  }

  lemma StillNoneLonger(t: seq<byte>, ip: nat, iLow: nat, visited: seq<nat>, len: int, len2: int)
    requires LASTLITERALS <= |t| && len <= len2
    requires forall v :: v in visited ==> v < ip && NoneLonger(t, ip - v, ip, iLow, |t| - LASTLITERALS, len)
    ensures forall v :: v in visited ==> v < ip && NoneLonger(t, ip - v, ip, iLow, |t| - LASTLITERALS, len2)
  {
  }

  /** What the chain still holds, from the entry `matchIndex` on. */
  ghost function Remaining(t: seq<byte>, base: nat, low: nat, matchIndex: nat, h: nat): seq<nat>
    requires matchIndex < base + |t| - 3
  {
    if matchIndex < base + low then [] else [matchIndex - base] + Candidates(t, low, matchIndex - base, h)
  }

  /** The visited positions and what the chain holds from `matchIndex` on are the whole scan. */
  ghost predicate OnTrack(t: seq<byte>, base: nat, low: nat, ip: nat, matchIndex: nat, visited: seq<nat>)
    requires ip + MFLIMIT <= |t|
  {
    && matchIndex < base + |t| - 3
    && Candidates(t, low, ip, HashHc(t, ip)) == visited + Remaining(t, base, low, matchIndex, HashHc(t, ip))
    && (matchIndex >= base + low ==> HashHc(t, matchIndex - base) == HashHc(t, ip))
  }

  lemma StartOfChain(t: seq<byte>, base: nat, matchIndex: nat, ip: nat, low: nat)
    requires ip + MFLIMIT <= |t| && HeadOk(t, base, matchIndex, ip, HashHc(t, ip))
    ensures matchIndex < base + ip || (ip == 0 && matchIndex < base)
    ensures OnTrack(t, base, low, ip, matchIndex, [])
  {
    hide HashHc;
    CandidatesStep(t, low, ip, HashHc(t, ip));
    NewestHash(t, ip, HashHc(t, ip));
  }

  lemma NextInChain(t: seq<byte>, base: nat, low: nat, m: nat, ip: nat, d: nat, visited: seq<nat>)
    requires low <= m < ip <= low + DISTANCE_MAX && ip + MFLIMIT <= |t| && LinkOk(t, d, m) && 65536 <= base
    ensures 0 <= base + m - d < base + |t| - 3
    ensures OnTrack(t, base, low, ip, base + m, visited) ==> OnTrack(t, base, low, ip, base + m - d, visited + [m])
  {
    hide HashHc, LinkOk;
    LinkStep(t, low, m, d, ip);
    assert d <= DISTANCE_MAX by { LinkSize(t, d, m); }
    assert visited + ([m] + Candidates(t, low, m, HashHc(t, m))) == (visited + [m])
        + Candidates(t, low, m, HashHc(t, m));
  }

  lemma EndOfTrack(t: seq<byte>, base: nat, low: nat, ip: nat, matchIndex: nat, visited: seq<nat>, max: nat)
    requires ip + MFLIMIT <= |t| && OnTrack(t, base, low, ip, matchIndex, visited) && |visited| <= max
    requires matchIndex < base + low || |visited| == max
    ensures var all := Candidates(t, low, ip, HashHc(t, ip)); visited == all[..if |all| < max then |all| else max]
  {
    hide HashHc;
  }

  lemma InText(t: seq<byte>, ip: nat, iLow: nat, longest: nat)
    requires Searchable(t, ip, iLow, longest)
    ensures ip + MFLIMIT <= |t|
  {
  }

  lemma LinkSize(t: seq<byte>, d: nat, m: nat)
    requires m + 4 <= |t| && LinkOk(t, d, m)
    ensures d <= DISTANCE_MAX
  {
  }

  lemma LinkOf(t: seq<byte>, base: nat, heads: seq<nat>, chain: seq<nat>, n: nat, m: nat)
    requires TablesOk(t, base, heads, chain, n) && m < n <= m + MAXD
    ensures |chain| == MAXD && LinkOk(t, chain[Slot(base, m)], m)
  {
  }

  /** Whether the four bytes at ip are equal, and then how far their run reaches. */
  method RunAt(t: seq<byte>, ip: nat) returns (repeat: Repeat, run: nat)
    requires ip + MFLIMIT <= |t|
    ensures repeat != Untested
    ensures repeat == Confirmed ==> MINMATCH <= run <= |t| - LASTLITERALS - ip && Run(t, ip, ip + run, t[ip])
  {
    if t[ip] != t[ip + 2] || t[ip + 1] != t[ip + 3] || t[ip] != t[ip + 3] {
      return NotRepeated, 0;
    }
    run := CountPattern(t, ip + 4, |t| - LASTLITERALS, t[ip..ip + 4]);
    assert t[ip..ip + 4] == Four(t[ip]);
    RunOf(t, ip + 4, ip + 4 + run, t[ip]);
    return Confirmed, run + 4;
  }

  /** The run of one byte value around four of them, as far down as the window reaches. */
  method Segment(t: seq<byte>, cand: nat, low: nat, b: byte) returns (forward: nat, back: nat)
    requires low <= cand && cand + MFLIMIT <= |t| && Run(t, cand, cand + 4, b)
    ensures 4 <= forward && low <= cand - back && Run(t, cand - back, cand + forward, b)
    ensures cand + forward + LASTLITERALS <= |t|
  {
    hide Follows, Precedes;
    forward := CountPattern(t, cand + 4, |t| - LASTLITERALS, Four(b));
    RunOf(t, cand + 4, cand + 4 + forward, b);
    forward := forward + 4;
    back := ReverseCountPattern(t, cand, 0, Four(b));
    RunOf(t, cand - back, cand, b);
    if cand - back < low {
      back := cand - low;
    }
  }

  datatype Repeat = Untested | NotRepeated | Confirmed

  /** The outcome of one step of the pattern analysis. */
  datatype Jump = Follow | To(index: nat)

  class HashChain {
    const hashTable: array<nat>
    const chainTable: array<nat>
    var nextToUpdate: nat
    var base: nat

    /** The tables describe the positions of `t` before nextToUpdate. */
    ghost predicate Valid(t: seq<byte>)
      reads this, hashTable, chainTable
    {
      && hashTable != chainTable && 65536 <= base <= nextToUpdate && base + |t| < 0xFFFF_0000
      && TablesOk(t, base, hashTable[..], chainTable[..], nextToUpdate - base)
    }

    /** Whatever the tables hold, it lies before the index `bound`. */
    ghost predicate Below(bound: nat)
      reads hashTable, chainTable
    {
      hashTable != chainTable && EntriesBelow(hashTable[..], chainTable[..], bound)
    }

    /** LZ4_initStreamHC: all zeroes. */
    constructor ()
      ensures Below(1) && base == 0 && fresh(hashTable) && fresh(chainTable)
    {
      hashTable := new nat[HASHTABLESIZE](_ => 0);
      chainTable := new nat[MAXD](_ => 0);
      nextToUpdate, base := 0, 0;
    }

    /** LZ4_initStreamHC on a state that has been used. */
    method Zero()
      requires Below(0x1_0000_0000)
      modifies this, hashTable, chainTable
      ensures Below(1) && base == 0
    {
      forall i | 0 <= i < HASHTABLESIZE {
        hashTable[i] := 0;
      }
      forall i | 0 <= i < MAXD {
        chainTable[i] := 0;
      }
      nextToUpdate, base := 0, 0;
    }

    /** LZ4HC_init_internal: what is left in the tables lies below every new index. The tables are cleared
        when the indexes have passed 1 GB. */
    method Init(bufferSize: nat)
      requires Below(base + bufferSize + 1)
      modifies this, hashTable, chainTable
      ensures 65536 <= base <= 0x4001_0000 && nextToUpdate == base && Below(base)
      ensures forall t :: |t| <= 0x7FFF_FFFF ==> Valid(t)
    {
      var newStartingOffset := bufferSize + base;
      if newStartingOffset > 0x4000_0000 {
        forall i | 0 <= i < HASHTABLESIZE {
          hashTable[i] := 0;
        }
        forall i | 0 <= i < MAXD {
          chainTable[i] := DISTANCE_MAX;
        }
        newStartingOffset := 0;
      }
      newStartingOffset := newStartingOffset + 65536;
      nextToUpdate, base := newStartingOffset, newStartingOffset;
    }

    /** LZ4HC_Insert: every position before ip enters its chain. */
    method Insert(t: seq<byte>, ip: nat)
      requires Valid(t) && nextToUpdate <= base + ip && ip + 3 <= |t|
      modifies this`nextToUpdate, hashTable, chainTable
      ensures Valid(t) && nextToUpdate == base + ip
    {
      hide HashHc, TablesOk;
      TableSizes(t, base, hashTable[..], chainTable[..], nextToUpdate - base);
      var target := base + ip;
      var idx := nextToUpdate;
      while idx < target
        invariant base <= idx <= target && TablesOk(t, base, hashTable[..], chainTable[..], idx - base)
        modifies hashTable, chainTable
      {
        var h := HashHc(t, idx - base);
        EntryBelow(t, base, hashTable[..], chainTable[..], idx - base, h);
        var delta := idx - hashTable[h];
        if delta > DISTANCE_MAX {
          delta := DISTANCE_MAX;
        }
        Inserted(t, base, hashTable[..], chainTable[..], idx - base, delta);
        chainTable[Slot(base, idx - base)] := delta;
        hashTable[h] := idx;
        idx := idx + 1;
      }
      nextToUpdate := target;
    }

    /** DELTANEXTU16 */
    function Link(pos: nat): nat
      requires chainTable.Length == MAXD
      reads this`base, chainTable
    {
      chainTable[Slot(base, pos)]
    }

    /** The chain swap: among the positions of a long match, the one whose chain reaches furthest. */
    method BetterChain(m: nat, longest: nat, chainPos0: nat) returns (distance: nat, chainPos: nat)
      requires chainTable.Length == MAXD
      ensures 1 <= distance
    {
      distance, chainPos := 1, chainPos0;
      var end, step, accel, pos := longest - MINMATCH + 1, 1, 16, 0;
      while pos < end
        invariant 1 <= distance && 1 <= step && 16 <= accel
      {
        var candidateDist := Link(m + pos);
        step, accel := accel / 16, accel + 1;
        if candidateDist > distance {
          distance, chainPos, accel := candidateDist, pos, 16;
        }
        pos := pos + step;
      }
    }

    /** The pattern analysis, entered on a distance of 1: inside a run of one byte value it jumps
        to the place in the run that fits the run at ip best. */
    method PatternJump(t: seq<byte>, ip: nat, iLow: nat, m: nat, low: nat, run: nat, longest0: nat, f0: Found)
      returns (jump: Jump, f: Found)
      requires chainTable.Length == MAXD && 65536 <= base
      requires forall i :: 0 <= i < MAXD ==> chainTable[i] <= DISTANCE_MAX
      requires iLow <= ip && ip + MFLIMIT <= |t| && low <= m < ip <= low + DISTANCE_MAX
      requires MINMATCH <= run <= |t| - LASTLITERALS - ip && Run(t, ip, ip + run, t[ip])
      requires Result(t, f0, ip, iLow, longest0)
      ensures jump.To? ==> jump.index < base + m
      ensures f0.len <= f.len && Result(t, f, ip, iLow, longest0)
    {
      f := f0;
      if m <= low || t[m - 1] != t[ip] || !Same4(t, m - 1, ip) {
        return Follow, f;
      }
      var cand := m - 1;
      var forward, back := Segment(t, cand, low, t[ip]);
      var segment := back + forward;
      if segment >= run && forward <= run {
        return To(base + cand + forward - run), f;
      }
      var m2 := cand - back;
      if ip == iLow {
        var maxML := if segment < run then segment else run;
        if f.len < maxML {
          assert Repeats(t, ip, ip + maxML, ip - m2);
          f := Found(ip - m2, maxML, 0);
        }
        return To(base + m2 - Link(m2)), f;
      }
      return To(base + m2), f;
    }

    /** Compare the position m, remember the match when it is longer. */
    method Compare(t: seq<byte>, ip: nat, iLow: nat, m: nat, longest0: nat, favorDecSpeed: bool, f0: Found,
                   ghost visited0: seq<nat>)
      returns (f: Found, matchLength: nat, ghost visited: seq<nat>)
      requires Searchable(t, ip, iLow, longest0) && iLow + longest0 + LASTLITERALS <= |t| && m < ip <= m + DISTANCE_MAX
      requires Result(t, f0, ip, iLow, longest0) && Looked(t, ip, iLow, visited0, f0.len)
      ensures f0.len <= f.len && Result(t, f, ip, iLow, longest0) && Looked(t, ip, iLow, visited, f.len)
      ensures !favorDecSpeed ==> visited == visited0 + [m]
    {
      hide Sound, NoneLonger;
      f, matchLength, visited := f0, 0, visited0;
      if !(favorDecSpeed && ip - m < 8) {
        var back;
        ResultFits(t, f, ip, iLow, longest0);
        matchLength, back := Measure(t, ip, m, iLow, f.len);
        if matchLength > f.len {
          f := Found(ip - m, matchLength, back);
        }
        StillNoneLonger(t, ip, iLow, visited, f0.len, f.len);
        visited := visited + [m];
      }
    }

    /** The next index to look at behind m: along the better chain, out of a run, or along the chain. */
    method NextIndex(t: seq<byte>, ip: nat, iLow: nat, m: nat, low: nat, longest0: nat, patternAnalysis: bool,
                     chainSwap: bool,
                     matchLength: nat, f0: Found, repeat0: Repeat, run0: nat, chainPos0: nat)
      returns (matchIndex: nat, f: Found, repeat: Repeat, run: nat, chainPos: nat)
      requires chainTable.Length == MAXD && 65536 <= base
      requires forall i :: 0 <= i < MAXD ==> chainTable[i] <= DISTANCE_MAX
      requires iLow <= ip && ip + MFLIMIT <= |t| && low <= m < ip <= low + DISTANCE_MAX
      requires Result(t, f0, ip, iLow, longest0) && Confirms(t, ip, repeat0, run0)
      ensures matchIndex <= base + m && f0.len <= f.len && Result(t, f, ip, iLow, longest0)
      ensures Confirms(t, ip, repeat, run)
      ensures !patternAnalysis && !chainSwap ==> f == f0 && chainPos == chainPos0
      ensures !patternAnalysis && !chainSwap && chainPos0 == 0 ==> matchIndex == base + m - Link(m)
    {
      hide Result, Run;
      matchIndex, f, repeat, run, chainPos := base + m, f0, repeat0, run0, chainPos0;
      if chainSwap && matchLength == f.len && m + f.len <= ip {
        var distance;
        LongestIs(t, f, ip, iLow, longest0);
        distance, chainPos := BetterChain(m, f.len, chainPos);
        if distance > 1 {
          return if distance > matchIndex then 0 else matchIndex - distance, f, repeat, run, chainPos;
        }
      }
      var jump := Follow;
      if patternAnalysis && Link(m) == 1 && chainPos == 0 {
        if repeat == Untested {
          repeat, run := RunAt(t, ip);
        }
        if repeat == Confirmed {
          jump, f := PatternJump(t, ip, iLow, m, low, run, longest0, f);
        }
      }
      match jump
      case To(index) => matchIndex := index;
      case Follow => matchIndex := matchIndex - Link(m + chainPos);
    }

    /** One round of the search loop. */
    method Visit(t: seq<byte>, ip: nat, iLow: nat, m: nat, low: nat, longest0: nat, patternAnalysis: bool,
                 chainSwap: bool,
                 favorDecSpeed: bool, f0: Found, repeat0: Repeat, run0: nat, chainPos0: nat, ghost visited0: seq<nat>)
      returns (matchIndex: nat, f: Found, repeat: Repeat, run: nat, chainPos: nat, ghost visited: seq<nat>)
      requires 65536 <= base && TablesOk(t, base, hashTable[..], chainTable[..], ip)
               && low <= m < ip <= low + DISTANCE_MAX
      requires Searchable(t, ip, iLow, longest0) && iLow + longest0 + LASTLITERALS <= |t|
      requires Result(t, f0, ip, iLow, longest0) && Looked(t, ip, iLow, visited0, f0.len)
               && Confirms(t, ip, repeat0, run0)
      ensures matchIndex <= base + m && Result(t, f, ip, iLow, longest0) && Looked(t, ip, iLow, visited, f.len)
      ensures Confirms(t, ip, repeat, run)
      ensures !patternAnalysis && !chainSwap && !favorDecSpeed && chainPos0 == 0 ==>
                && chainPos == 0 && |visited| == |visited0| + 1
                && (OnTrack(t, base, low, ip, base + m, visited0) ==> OnTrack(t, base, low, ip, matchIndex, visited))
    {
      hide HashHc, TablesOk, HeadOk, Sound, NoneLonger, LinkOk, Run, Looked, Confirms, Result, Candidates, Slot,
           OnTrack;
      TableSizes(t, base, hashTable[..], chainTable[..], ip);
      LinkOf(t, base, hashTable[..], chainTable[..], ip, m);
      NextInChain(t, base, low, m, ip, Link(m), visited0);
      var matchLength;
      f, matchLength, visited := Compare(t, ip, iLow, m, longest0, favorDecSpeed, f0, visited0);
      ghost var len := f.len;
      matchIndex, f, repeat, run, chainPos :=
        NextIndex(t, ip, iLow, m, low, longest0, patternAnalysis, chainSwap, matchLength, f, repeat0, run0, chainPos0);
      StillLooked(t, ip, iLow, visited, len, f.len);
    }

    /** LZ4HC_InsertAndGetWiderMatch. What it returns is a true match, longer than `longest0`, or
        nothing. Without the two accelerations it looks at exactly the positions of the window whose
        hash agrees, newest first, until the attempts are used up; it never returns less than the
        longest match at a position it looked at. */
    method InsertAndGetWiderMatch(t: seq<byte>, ip: nat, iLow: nat, longest0: nat, maxNbAttempts: nat,
                                  patternAnalysis: bool, chainSwap: bool, favorDecSpeed: bool)
      returns (f: Found, ghost visited: seq<nat>)
      requires Valid(t) && nextToUpdate <= base + ip && Searchable(t, ip, iLow, longest0)
      requires iLow + longest0 + LASTLITERALS <= |t| && (chainSwap ==> iLow == ip)
      modifies this`nextToUpdate, hashTable, chainTable
      ensures Valid(t) && nextToUpdate == base + ip
      ensures Result(t, f, ip, iLow, longest0) && Looked(t, ip, iLow, visited, f.len)
      ensures !patternAnalysis && !chainSwap && !favorDecSpeed ==>
                var all := Candidates(t, if ip < 65536 then 0 else ip - DISTANCE_MAX, ip, HashHc(t, ip));
                visited == all[..if |all| < maxNbAttempts then |all| else maxNbAttempts]
    {
      hide TablesOk;
      Insert(t, ip);
      f, visited := FollowChain(t, ip, iLow, longest0, maxNbAttempts, patternAnalysis, chainSwap, favorDecSpeed);
    }

    /** The search loop, once all earlier positions are in their chains. */
    method FollowChain(t: seq<byte>, ip: nat, iLow: nat, longest0: nat, maxNbAttempts: nat,
                       patternAnalysis: bool, chainSwap: bool, favorDecSpeed: bool)
      returns (f: Found, ghost visited: seq<nat>)
      requires 65536 <= base && TablesOk(t, base, hashTable[..], chainTable[..], ip)
               && Searchable(t, ip, iLow, longest0)
      requires iLow + longest0 + LASTLITERALS <= |t| && (chainSwap ==> iLow == ip)
      ensures Result(t, f, ip, iLow, longest0) && Looked(t, ip, iLow, visited, f.len)
      ensures !patternAnalysis && !chainSwap && !favorDecSpeed ==>
                var all := Candidates(t, if ip < 65536 then 0 else ip - DISTANCE_MAX, ip, HashHc(t, ip));
                visited == all[..if |all| < maxNbAttempts then |all| else maxNbAttempts]
    {
      hide HashHc, TablesOk, HeadOk, Sound, NoneLonger, LinkOk, Run, Looked, Confirms, Result, Candidates, Slot,
           OnTrack, Searchable;
      TableSizes(t, base, hashTable[..], chainTable[..], ip);
      InText(t, ip, iLow, longest0);
      var h, low := HashHc(t, ip), if ip < 65536 then 0 else ip - DISTANCE_MAX;
      ghost var plain := !patternAnalysis && !chainSwap && !favorDecSpeed;
      EntryBelow(t, base, hashTable[..], chainTable[..], ip, h);
      var matchIndex: nat, nbAttempts: nat, chainPos: nat := hashTable[h], maxNbAttempts, 0;
      var repeat, run: nat := Untested, 0;
      f, visited := Found(0, longest0, 0), [];
      NothingYet(t, ip, iLow, longest0);
      StartOfChain(t, base, matchIndex, ip, low);
      while matchIndex >= base + low && nbAttempts > 0
        invariant matchIndex < base + ip || (ip == 0 && matchIndex < base)
        invariant Result(t, f, ip, iLow, longest0) && Looked(t, ip, iLow, visited, f.len)
        invariant Confirms(t, ip, repeat, run)
        invariant plain ==> chainPos == 0 && |visited| + nbAttempts == maxNbAttempts
        invariant plain ==> OnTrack(t, base, low, ip, matchIndex, visited)
        decreases nbAttempts
      {
        nbAttempts := nbAttempts - 1;
        matchIndex, f, repeat, run, chainPos, visited :=
          Visit(t, ip, iLow, matchIndex - base, low, longest0, patternAnalysis, chainSwap, favorDecSpeed,
                f, repeat, run, chainPos, visited);
      }
      if plain { EndOfTrack(t, base, low, ip, matchIndex, visited, maxNbAttempts); }
    }
  }

  lemma TableSizes(t: seq<byte>, base: nat, heads: seq<nat>, chain: seq<nat>, n: nat)
    requires TablesOk(t, base, heads, chain, n)
    ensures |heads| == HASHTABLESIZE && |chain| == MAXD && (n == 0 || n + 3 <= |t|)
    ensures forall i :: 0 <= i < |chain| ==> chain[i] <= DISTANCE_MAX
  {
  }

  lemma EntryBelow(t: seq<byte>, base: nat, heads: seq<nat>, chain: seq<nat>, n: nat, h: nat)
    requires TablesOk(t, base, heads, chain, n) && h < HASHTABLESIZE
    ensures |heads| == HASHTABLESIZE && heads[h] < base + n + (if n == 0 then 1 else 0) && (n == 0 ==> heads[h] < base)
    ensures HeadOk(t, base, heads[h], n, h)
  {
    assert HeadOk(t, base, heads[h], n, h);
  }

  ghost predicate EntriesBelow(heads: seq<nat>, chain: seq<nat>, bound: nat) {
    && |heads| == HASHTABLESIZE && |chain| == MAXD
    && (forall h :: 0 <= h < |heads| ==> heads[h] < bound)
       && (forall i :: 0 <= i < |chain| ==> chain[i] <= DISTANCE_MAX)
  }

  /** No entry of valid tables lies beyond the text. */
  lemma ValidBelow(t: seq<byte>, base: nat, heads: seq<nat>, chain: seq<nat>, n: nat)
    requires TablesOk(t, base, heads, chain, n) && 1 <= base
    ensures EntriesBelow(heads, chain, base + n)
  {
    forall h | 0 <= h < |heads| ensures heads[h] < base + n {
      assert HeadOk(t, base, heads[h], n, h);
    }
  }

  // ----- what the scan finds -----

  predicate Descending(s: seq<nat>) {
    forall i, j :: 0 <= i < j < |s| ==> s[j] < s[i]
  }

  /** The scan lists exactly the positions of the window with the given hash, newest first. */
  lemma {:induction false} CandidatesExact(t: seq<byte>, low: nat, hi: nat, h: nat)
    requires hi + 3 <= |t|
    ensures forall v: nat :: v in Candidates(t, low, hi, h) <==> (low <= v < hi && HashHc(t, v) == h)
    ensures Descending(Candidates(t, low, hi, h))
  {
    hide HashHc;
    if hi > low {
      CandidatesExact(t, low, hi - 1, h);
      forall v: nat ensures v in Candidates(t, low, hi, h) <==> (low <= v < hi && HashHc(t, v) == h) {
        assert v in Candidates(t, low, hi - 1, h) <==> (low <= v < hi - 1 && HashHc(t, v) == h);
      }
      var rest := Candidates(t, low, hi - 1, h);
      forall i | 0 <= i < |rest| ensures rest[i] < hi - 1 {
        assert rest[i] in rest;
      }
    }
  }

  lemma SameHash(t: seq<byte>, a: nat, b: nat)
    requires a + 4 <= |t| && b + 4 <= |t| && Same4(t, a, b)
    ensures HashHc(t, a) == HashHc(t, b)
  {
    assert Little(t, a, 4) == Little(t, b, 4) by {
      assert Little(t, a + 3, 1) == Little(t, b + 3, 1);
      assert Little(t, a + 2, 2) == Little(t, b + 2, 2);
      assert Little(t, a + 1, 3) == Little(t, b + 1, 3);
    }
  }

  /** When the attempts suffice, no match in the window is longer than the one found. */
  lemma {:induction false} BestInWindow(t: seq<byte>, ip: nat, iLow: nat, visited: seq<nat>, len: int, f: Found)
    requires ip + MFLIMIT <= |t| && Looked(t, ip, iLow, visited, len)
    requires visited == Candidates(t, if ip < 65536 then 0 else ip - DISTANCE_MAX, ip, HashHc(t, ip))
    requires Sound(t, f, ip, iLow, |t| - LASTLITERALS)
    ensures f.len <= len
  {
    hide HashHc, Candidates;
    var v := ip - f.off;
    assert Same4(t, v, ip);
    SameHash(t, v, ip);
    CandidatesExact(t, if ip < 65536 then 0 else ip - DISTANCE_MAX, ip, HashHc(t, ip));
    assert v in visited;
    assert NoneLonger(t, ip - v, ip, iLow, |t| - LASTLITERALS, len);
  }

  lemma {:induction false} NewestPrefix(t: seq<byte>, t2: seq<byte>, pos: nat, h: nat)
    requires t <= t2 && (pos == 0 || pos + 3 <= |t|)
    ensures Newest(t, pos, h) == Newest(t2, pos, h)
  {
    if pos > 0 {
      HashPrefix(t, t2, pos - 1);
      NewestPrefix(t, t2, pos - 1, h);
    }
  }

  lemma HashPrefix(t: seq<byte>, t2: seq<byte>, p: nat)
    requires t <= t2 && p + 4 <= |t|
    ensures HashHc(t, p) == HashHc(t2, p)
  {
    assert Little(t, p + 3, 1) == Little(t2, p + 3, 1);
    assert Little(t, p + 2, 2) == Little(t2, p + 2, 2);
    assert Little(t, p + 1, 3) == Little(t2, p + 1, 3);
  }

  /** The tables of one block serve the next block behind it. */
  lemma {:induction false} TablesPrefix(t: seq<byte>, t2: seq<byte>, base: nat, heads: seq<nat>, chain: seq<nat>,
                                        n: nat)
    requires t <= t2 && TablesOk(t, base, heads, chain, n)
    ensures TablesOk(t2, base, heads, chain, n)
  {
    hide HashHc, Newest;
    forall h | 0 <= h < |heads| ensures HeadOk(t2, base, heads[h], n, h) {
      assert HeadOk(t, base, heads[h], n, h);
      NewestPrefix(t, t2, n, h);
    }
    forall pos | 0 <= pos < n <= pos + MAXD ensures LinkOk(t2, chain[Slot(base, pos)], pos) {
      assert LinkOk(t, chain[Slot(base, pos)], pos);
      HashPrefix(t, t2, pos);
      NewestPrefix(t, t2, pos, HashHc(t, pos));
    }
  }
}
