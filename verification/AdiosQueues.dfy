/** The data the ADIOS I/O scheduler works on: requests, the deadline-sorted tree as an ordered list
    of groups, and the packed word of requests in flight. */
module AdiosQueues {

  const OPTYPES := 4
  const READ := 0
  const WRITE := 1
  const DISCARD := 2
  const OTHER := 3
  const REQ_OP_READ := 0
  const REQ_OP_WRITE := 1
  const REQ_OP_FLUSH := 2
  const REQ_OP_DISCARD := 3
  const QUANTUM := 0x10_0000

  /** A request with its predicted latency, fixed when it is inserted. `op` is the operation number. */
  datatype Request = Request(id: nat, op: nat, sync: bool, pos: nat, startTime: nat, predLat: nat)

  /** The test of the code, cmd_flags & REQ_OP_FLUSH: bit 1 of the operation number. */
  predicate IsBarrier(r: Request) {
    r.op / 2 % 2 == 1
  }

  /** REQ_OP_FLUSH is a number, not a mask: a discard passes the test as well, reads and writes do not. */
  lemma WhatIsABarrier(r: Request)
    ensures r.op == REQ_OP_FLUSH || r.op == REQ_OP_DISCARD ==> IsBarrier(r)
    ensures r.op == REQ_OP_READ || r.op == REQ_OP_WRITE ==> !IsBarrier(r)
    ensures r.op <= REQ_OP_DISCARD ==> (IsBarrier(r) <==> r.op == REQ_OP_FLUSH || r.op == REQ_OP_DISCARD)
  {
  }

  /** adios_optype */
  function OpType(r: Request): (t: nat)
    ensures t < OPTYPES
  {
    if r.op == REQ_OP_READ then READ else if r.op == REQ_OP_WRITE then WRITE
    else if r.op == REQ_OP_DISCARD then DISCARD else OTHER
  }

  /** The settings and model readings of one call: sysfs may change them between any two calls. */
  datatype Config = Config(latencyTarget: seq<nat>, batchLimit: seq<nat>, window: nat, refillBelow: nat,
                           elevator: bool, fixOrder: bool, biasWeight: seq<nat>, hasBase: seq<bool>)
  {
    predicate Valid() {
      |latencyTarget| == OPTYPES && |batchLimit| == OPTYPES && |hasBase| == OPTYPES && |biasWeight| == 2
    }
  }

  /** Which of the two trees holds the request: reads in tree 0, the rest in tree 1. */
  function TreeOf(r: Request): (i: nat)
    ensures i < 2
  {
    if r.op == REQ_OP_READ then 0 else 1
  }

  /** rd->deadline: the start time, for asynchronous requests later by target and predicted latency. */
  function Deadline(cfg: Config, r: Request): (d: nat)
    requires cfg.Valid()
    ensures r.startTime <= d && (r.sync ==> d == r.startTime)
  {
    if r.sync then r.startTime
    else r.startTime + cfg.latencyTarget[OpType(r)] + (if cfg.fixOrder then 0 else r.predLat)
  }

  /** The key of the group a deadline belongs to. */
  function Quantized(deadline: nat): (k: nat)
    ensures k <= deadline < k + QUANTUM && k % QUANTUM == 0
  {
    deadline - deadline % QUANTUM
  }

  // ----- the deadline tree -----

  datatype Entry = Entry(rq: Request, deadline: nat)
  datatype Group = Group(key: nat, entries: seq<Entry>)

  predicate GroupOk(g: Group) {
    g.entries != [] && forall e :: e in g.entries ==> Quantized(e.deadline) == g.key
  }

  /** Keys ascend, no group is empty, and every entry is in the group of its deadline. */
  predicate TreeOk(t: seq<Group>) {
    t == [] || (GroupOk(t[0]) && (|t| > 1 ==> t[0].key < t[1].key) && TreeOk(t[1..]))
  }

  /** All entries, in the order in which they would be taken. */
  function Flatten(t: seq<Group>): seq<Entry> {
    if t == [] then [] else t[0].entries + Flatten(t[1..])
  }

  /** add_to_dl_tree: at the tail of the group of its deadline, a new group where there is none. */
  function AddEntry(t: seq<Group>, e: Entry): (r: seq<Group>)
    ensures r != []
  {
    var key := Quantized(e.deadline);
    if t == [] || key < t[0].key then [Group(key, [e])] + t
    else if key == t[0].key then [Group(key, t[0].entries + [e])] + t[1..]
    else [t[0]] + AddEntry(t[1..], e)
  }

  /** Where the new entry comes to stand. */
  function PlaceOf(t: seq<Group>, e: Entry): nat {
    if t == [] || Quantized(e.deadline) < t[0].key then 0
    else if Quantized(e.deadline) == t[0].key then |t[0].entries|
    else |t[0].entries| + PlaceOf(t[1..], e)
  }

  lemma {:induction false} AddEntryTree(t: seq<Group>, e: Entry)
    requires TreeOk(t)
    ensures TreeOk(AddEntry(t, e))
    ensures AddEntry(t, e)[0].key == if t == [] || Quantized(e.deadline) < t[0].key then Quantized(e.deadline)
            else t[0].key
  {
    hide Quantized;
    var r := AddEntry(t, e);
    if t != [] && Quantized(e.deadline) == t[0].key {
      assert r[1..] == t[1..];
    } else if t != [] && Quantized(e.deadline) > t[0].key {
      AddEntryTree(t[1..], e);
      assert r[1..] == AddEntry(t[1..], e);
    } else {
      assert r[1..] == t;
    }
  }

  /** The new entry comes behind every entry with the same or an earlier key, before all others. */
  lemma {:induction false} AddEntryOrder(t: seq<Group>, e: Entry)
    requires TreeOk(t)
    ensures var i, f := PlaceOf(t, e), Flatten(t);
            && i <= |f|
            && (forall j :: 0 <= j < i ==> Quantized(f[j].deadline) <= Quantized(e.deadline))
            && (forall j :: i <= j < |f| ==> Quantized(e.deadline) < Quantized(f[j].deadline))
  {
    hide Quantized, GroupOk;
    TreeFacts(t);
    if t != [] && Quantized(e.deadline) > t[0].key {
      AddEntryOrder(t[1..], e);
      var f, n := Flatten(t), |t[0].entries|;
      forall j | 0 <= j < |f| ensures if j < n then f[j] == t[0].entries[j] else f[j] == Flatten(t[1..])[j - n] {
      }
    }
  }

  lemma Behind<T>(a: seq<T>, g: seq<T>, i: nat, x: seq<T>)
    requires i <= |g|
    ensures (a + g)[..|a| + i] + x + (a + g)[|a| + i..] == a + (g[..i] + x + g[i..])
  {
    assert (a + g)[..|a| + i] == a + g[..i];
    assert (a + g)[|a| + i..] == g[i..];
  }

  /** Nothing else moves. */
  lemma {:induction false} AddEntryPlace(t: seq<Group>, e: Entry)
    requires TreeOk(t)
    ensures var i, f := PlaceOf(t, e), Flatten(t);
            i <= |f| && Flatten(AddEntry(t, e)) == f[..i] + [e] + f[i..]
  {
    hide Quantized, GroupOk;
    var r, f := AddEntry(t, e), Flatten(t);
    if t == [] || Quantized(e.deadline) < t[0].key {
      assert r[1..] == t;
      assert f[..0] + [e] + f[0..] == [e] + f;
    } else if Quantized(e.deadline) == t[0].key {
      assert r[1..] == t[1..];
      var i := |t[0].entries|;
      assert f[..i] + [e] + f[i..] == (t[0].entries + [e]) + Flatten(t[1..]);
    } else {
      AddEntryPlace(t[1..], e);
      assert r[1..] == AddEntry(t[1..], e);
      Behind(t[0].entries, Flatten(t[1..]), PlaceOf(t[1..], e), [e]);
    }
  }

  /** The entries of a tree stand in the order of their keys. */
  lemma {:induction false} TreeFacts(t: seq<Group>)
    requires TreeOk(t)
    ensures t != [] ==> forall j :: 0 <= j < |Flatten(t)| ==> t[0].key <= Quantized(Flatten(t)[j].deadline)
    ensures t != [] ==> forall j :: |t[0].entries| <= j < |Flatten(t)| ==> t[0].key < Quantized(Flatten(t)[j].deadline)
    ensures t != [] ==> forall j :: 0 <= j < |t[0].entries| ==> t[0].key == Quantized(Flatten(t)[j].deadline)
    ensures t == [] <==> Flatten(t) == []
  {
    hide Quantized;
    if t != [] {
      TreeFacts(t[1..]);
      var f, n := Flatten(t), |t[0].entries|;
      forall j | 0 <= j < |f| ensures if j < n then f[j] == t[0].entries[j] else f[j] == Flatten(t[1..])[j - n] {
      }
    }
  }

  /** get_dl_first_rd: the oldest entry of the earliest group. */
  function First(t: seq<Group>): (e: Entry)
    requires TreeOk(t) && t != []
  {
    t[0].entries[0]
  }

  /** No entry of the tree is in an earlier group. */
  lemma {:induction false} FirstIsEarliest(t: seq<Group>)
    requires TreeOk(t) && t != []
    ensures Flatten(t) != [] && First(t) == Flatten(t)[0]
    ensures forall e :: e in Flatten(t) ==> Quantized(First(t).deadline) <= Quantized(e.deadline)
  {
    hide Quantized;
    TreeFacts(t);
  }

  /** del_from_dl_tree of any entry, given by its place in the order. */
  function DropAt(t: seq<Group>, i: nat): seq<Group>
    requires TreeOk(t) && i < |Flatten(t)|
  {
    var n := |t[0].entries|;
    if i >= n then
      [t[0]] + DropAt(t[1..], i - n)
    else if n == 1 then t[1..]
    else [Group(t[0].key, t[0].entries[..i] + t[0].entries[i + 1..])] + t[1..]
  }

  lemma {:induction false} DropAtTree(t: seq<Group>, i: nat)
    requires TreeOk(t) && i < |Flatten(t)|
    ensures TreeOk(DropAt(t, i)) && (DropAt(t, i) != [] ==> t[0].key <= DropAt(t, i)[0].key)
  {
    hide Quantized;
    var n, r := |t[0].entries|, DropAt(t, i);
    if i >= n {
      DropAtTree(t[1..], i - n);
      assert r[1..] == DropAt(t[1..], i - n);
    } else if n > 1 {
      assert r[1..] == t[1..];
    }
  }

  lemma {:induction false} DropAtPlace(t: seq<Group>, i: nat)
    requires TreeOk(t) && i < |Flatten(t)|
    ensures Flatten(DropAt(t, i)) == Flatten(t)[..i] + Flatten(t)[i + 1..]
  {
    hide Quantized;
    var n, f, r, g := |t[0].entries|, Flatten(t), DropAt(t, i), Flatten(t[1..]);
    assert f == t[0].entries + g;
    if i >= n {
      DropAtPlace(t[1..], i - n);
      assert r[1..] == DropAt(t[1..], i - n);
      assert f[..i] + f[i + 1..] == t[0].entries + (g[..i - n] + g[i - n + 1..]);
    } else if n > 1 {
      assert r[1..] == t[1..];
      assert f[..i] + f[i + 1..] == (t[0].entries[..i] + t[0].entries[i + 1..]) + g;
    } else {
      assert f[..0] + f[1..] == g;
    }
  }

  // ----- sums -----

  function Requests(es: seq<Entry>): (r: seq<Request>)
    ensures |r| == |es|
  {
    if es == [] then [] else [es[0].rq] + Requests(es[1..])
  }

  lemma {:induction false} RequestsConcat(a: seq<Entry>, b: seq<Entry>)
    ensures Requests(a + b) == Requests(a) + Requests(b)
  {
    if a == [] {
      assert a + b == b;
    } else {
      RequestsConcat(a[1..], b);
      assert (a + b)[1..] == a[1..] + b;
    }
  }

  /** Total predicted latency. */
  function Lat(s: seq<Request>): nat {
    if s == [] then 0 else s[0].predLat + Lat(s[1..])
  }

  lemma {:induction false} LatConcat(a: seq<Request>, b: seq<Request>)
    ensures Lat(a + b) == Lat(a) + Lat(b)
  {
    if a == [] {
      assert a + b == b;
    } else {
      LatConcat(a[1..], b);
      assert (a + b)[1..] == a[1..] + b;
    }
  }

  /** Taking one element out of the middle. */
  lemma {:induction false} LatRemove(s: seq<Request>, i: nat)
    requires i < |s|
    ensures Lat(s[..i] + s[i + 1..]) == Lat(s) - s[i].predLat
  {
    LatConcat(s[..i], s[i + 1..]);
    LatConcat(s[..i], [s[i]]);
    LatConcat(s[..i] + [s[i]], s[i + 1..]);
    assert s == s[..i] + [s[i]] + s[i + 1..];
  }

  lemma TakeOut<T>(s: seq<T>, i: nat)
    requires i < |s|
    ensures multiset(s) == multiset(s[..i] + s[i + 1..]) + multiset{s[i]}
  {
    assert s == s[..i] + [s[i]] + s[i + 1..];
  }

  lemma Cancel<T>(a: multiset<T>, b: multiset<T>, c: multiset<T>)
    requires a + c == b + c
    ensures a == b
  {
    assert a == (a + c) - c;
    assert b == (b + c) - c;
  }

  /** Length and total latency do not depend on the order. */
  lemma {:induction false} LatPerm(a: seq<Request>, b: seq<Request>)
    requires multiset(a) == multiset(b)
    ensures |a| == |b| && Lat(a) == Lat(b)
  {
    assert |a| == |multiset(a)| == |multiset(b)| == |b|;
    if a != [] {
      assert a[0] in multiset(b);
      var i :| 0 <= i < |b| && b[i] == a[0];
      TakeOut(a, 0);
      TakeOut(b, i);
      assert a[..0] + a[1..] == a[1..];
      Cancel(multiset(a[1..]), multiset(b[..i] + b[i + 1..]), multiset{a[0]});
      LatPerm(a[1..], b[..i] + b[i + 1..]);
      LatRemove(b, i);
    }
  }

  /** `more` holds the requests of `less` and r. */
  ghost predicate OneMore(more: seq<Request>, less: seq<Request>, r: Request) {
    multiset(more) == multiset(less) + multiset{r}
  }

  lemma OneMoreFacts(more: seq<Request>, less: seq<Request>, r: Request)
    requires OneMore(more, less, r)
    ensures |more| == |less| + 1 && Lat(more) == Lat(less) + r.predLat && r in more
    ensures forall x :: x in less ==> x in more
    ensures forall x :: x in more ==> x == r || x in less
  {
    LatPerm(more, less + [r]);
    LatConcat(less, [r]);
    assert r in multiset(more);
    forall x | x in less ensures x in more { assert x in multiset(more); }
    forall x | x in more ensures x == r || x in less { assert x in multiset(less) + multiset{r}; }
  }

  /** The batch queues of one page, one after the other. */
  function Page(q: seq<seq<Request>>): seq<Request> {
    if q == [] then [] else q[0] + Page(q[1..])
  }

  lemma {:induction false} PageUpdate(q: seq<seq<Request>>, k: nat, v: seq<Request>)
    requires k < |q|
    ensures multiset(Page(q[k := v])) + multiset(q[k]) == multiset(Page(q)) + multiset(v)
  {
    var q2 := q[k := v];
    if k > 0 {
      PageUpdate(q[1..], k - 1, v);
      assert q2[1..] == q[1..][k - 1 := v];
      calc {
        multiset(Page(q2)) + multiset(q[k]);
        multiset(q[0]) + (multiset(Page(q2[1..])) + multiset(q[k]));
        multiset(q[0]) + (multiset(Page(q[1..])) + multiset(v));
        multiset(Page(q)) + multiset(v);
      }
    } else {
      assert q2[1..] == q[1..];
    }
  }

  lemma {:induction false} PageEmpty(q: seq<seq<Request>>)
    ensures Page(q) == [] <==> forall k :: 0 <= k < |q| ==> q[k] == []
  {
    if q != [] {
      PageEmpty(q[1..]);
      assert forall k :: 1 <= k < |q| ==> q[k] == q[1..][k - 1];
    }
  }

  /** One request more at the tail of a batch queue. */
  lemma PageAdd(q: seq<seq<Request>>, k: nat, r: Request)
    requires k < |q|
    ensures OneMore(Page(q[k := q[k] + [r]]), Page(q), r)
  {
    PageUpdate(q, k, q[k] + [r]);
    Cancel(multiset(Page(q[k := q[k] + [r]])), multiset(Page(q)) + multiset{r}, multiset(q[k]));
  }

  /** One request less, from anywhere in a batch queue. */
  lemma PageTake(q: seq<seq<Request>>, k: nat, i: nat)
    requires k < |q| && i < |q[k]|
    ensures OneMore(Page(q), Page(q[k := q[k][..i] + q[k][i + 1..]]), q[k][i])
  {
    var v := q[k][..i] + q[k][i + 1..];
    PageUpdate(q, k, v);
    TakeOut(q[k], i);
    Cancel(multiset(Page(q)), multiset(Page(q[k := v])) + multiset{q[k][i]}, multiset(v));
  }

  lemma RequestsInsert(x: seq<Entry>, e: Entry, y: seq<Entry>)
    ensures OneMore(Requests(x + [e] + y), Requests(x + y), e.rq)
  {
    RequestsConcat(x, [e]);
    RequestsConcat(x + [e], y);
    RequestsConcat(x, y);
  }

  /** The requests of a tree. */
  function InTree(t: seq<Group>): seq<Request> {
    Requests(Flatten(t))
  }

  lemma TreeAdd(t: seq<Group>, e: Entry)
    requires TreeOk(t)
    ensures OneMore(InTree(AddEntry(t, e)), InTree(t), e.rq)
  {
    hide Requests, TreeOk, OneMore;
    AddEntryPlace(t, e);
    var i, f := PlaceOf(t, e), Flatten(t);
    RequestsInsert(f[..i], e, f[i..]);
    assert f == f[..i] + f[i..];
  }

  lemma TreeDrop(t: seq<Group>, i: nat)
    requires TreeOk(t) && i < |Flatten(t)|
    ensures OneMore(InTree(t), InTree(DropAt(t, i)), Flatten(t)[i].rq)
  {
    hide Requests, TreeOk, OneMore;
    DropAtPlace(t, i);
    var f := Flatten(t);
    RequestsInsert(f[..i], f[i], f[i + 1..]);
    assert f == f[..i] + [f[i]] + f[i + 1..];
  }

  // ----- sorting by position -----

  function InsertByPos(r: Request, s: seq<Request>): (t: seq<Request>)
    ensures multiset(t) == multiset(s) + multiset{r}
  {
    if s == [] || r.pos < s[0].pos then [r] + s
    else
      assert s == [s[0]] + s[1..];
      [s[0]] + InsertByPos(r, s[1..])
  }

  /** list_sort with cmp_rq_pos. */
  function SortByPos(s: seq<Request>): (t: seq<Request>)
    ensures multiset(t) == multiset(s)
  {
    if s == [] then []
    else
      assert s == s[..|s| - 1] + [s[|s| - 1]];
      InsertByPos(s[|s| - 1], SortByPos(s[..|s| - 1]))
  }

  predicate ByPos(s: seq<Request>) {
    forall i, j :: 0 <= i < j < |s| ==> s[i].pos <= s[j].pos
  }

  lemma {:induction false} InsertByPosSorted(r: Request, s: seq<Request>)
    requires ByPos(s)
    ensures ByPos(InsertByPos(r, s))
  {
    if s != [] && r.pos >= s[0].pos {
      InsertByPosSorted(r, s[1..]);
      var t := InsertByPos(r, s[1..]);
      forall i | 0 <= i < |t| ensures s[0].pos <= t[i].pos {
        assert t[i] in multiset(t);
      }
    }
  }

  /** What the elevator dispatches is ordered by position. */
  lemma {:induction false} SortByPosSorted(s: seq<Request>)
    ensures ByPos(SortByPos(s))
  {
    if s != [] {
      SortByPosSorted(s[..|s| - 1]);
      InsertByPosSorted(s[|s| - 1], SortByPos(s[..|s| - 1]));
    }
  }

  // ----- the packed word -----

  /** count in the low 16 bits, total predicted latency in the upper 48. */
  function Pack(count: nat, lat: nat): (w: nat)
    ensures w < 0x1_0000_0000_0000_0000
  {
    count % 0x1_0000 + 0x1_0000 * (lat % 0x1_0000_0000_0000)
  }

  function CountOf(w: nat): nat { w % 0x1_0000 }

  function TotalOf(w: nat): nat { w / 0x1_0000 }

  predicate Fits(count: nat, lat: nat) {
    count < 0x1_0000 && lat < 0x1_0000_0000_0000
  }

  /** atomic64_add and atomic64_sub on the word, which wrap at 64 bits. */
  function WordAdd(w: nat, v: nat): nat { Wrap(w + v) }

  function WordSub(w: nat, v: nat): nat { Wrap(w - v) }

  function Wrap(x: int): (r: nat)
    ensures r < 0x1_0000_0000_0000_0000
  {
    x % 0x1_0000_0000_0000_0000
  }

  /** The word that stands for a count and a total, whatever their size. */
  function Word(count: nat, lat: nat): nat {
    Wrap(count + 0x1_0000 * lat)
  }

  /** Adding and subtracting what is packed keeps the word in step with the totals, even across an overflow of
      the total; only a count that does not fit its 16 bits would be lost. */
  lemma InStep(count: nat, lat: nat, c: nat, l: nat)
    requires c < 0x1_0000
    ensures WordAdd(Word(count, lat), Pack(c, l)) == Word(count + c, lat + l)
    ensures WordSub(Word(count + c, lat + l), Pack(c, l)) == Word(count, lat)
  {
    hide Wrap, Pack;
    PackIs(c, l);
    WrapStep(Word(count, lat), Word(count + c, lat + l), Pack(c, l), count + 0x1_0000 * lat, c + 0x1_0000 * l,
             l / 0x1_0000_0000_0000);
  }

  lemma WrapStep(w: int, w2: int, packed: int, a: int, b: int, k: int)
    requires w == Wrap(a) && w2 == Wrap(a + b) && packed == b - 0x1_0000_0000_0000_0000 * k
    ensures Wrap(w + packed) == w2 && Wrap(w2 - packed) == w
  {
    InStepModulo(w, w2, packed, a, b, k, 0x1_0000_0000_0000_0000);
  }

  lemma PackIs(c: nat, l: nat)
    requires c < 0x1_0000
    ensures Pack(c, l) == c + 0x1_0000 * l - 0x1_0000_0000_0000_0000 * (l / 0x1_0000_0000_0000)
  {
  }

  lemma InStepModulo(w: int, w2: int, packed: int, a: int, b: int, k: int, m: nat)
    requires 0 < m && w == a % m && w2 == (a + b) % m && packed == b - m * k
    ensures (w + packed) % m == w2 && (w2 - packed) % m == w
  {
    var q, q2 := a / m, (a + b) / m;
    Times(q + k, q, k, m);
    Times(q2 - k, q2, -k, m);
    Times(q + k - q2, q + k, -q2, m);
    Times(q2 - k - q, q2 - k, -q, m);
    Remainder(w + packed, q2 - q - k, w2, m);
    Remainder(w2 - packed, q - q2 + k, w, m);
  }

  lemma Times(sum: int, a: int, b: int, m: int)
    requires sum == a + b
    ensures sum * m == a * m + b * m
  {
  }

  lemma Remainder(y: int, q: int, r: int, m: nat)
    requires y == q * m + r && 0 <= r < m
    ensures y % m == r
  {
    Between(y / m - q, m);
    Times(y / m - q, y / m, -q, m);
  }

  lemma Between(d: int, m: nat)
    ensures d >= 1 ==> d * m >= m
    ensures d <= -1 ==> d * m + m <= 0
  {
  }

  /** While the totals fit their 16 and 48 bits, the two fields are the totals. */
  lemma Unpack(count: nat, lat: nat)
    requires Fits(count, lat)
    ensures Word(count, lat) == Pack(count, lat) == count + 0x1_0000 * lat
    ensures CountOf(Word(count, lat)) == count && TotalOf(Word(count, lat)) == lat
  {
    SmallMod(count + 0x1_0000 * lat, 0x1_0000_0000_0000_0000);
    SmallMod(count, 0x1_0000);
    SmallMod(lat, 0x1_0000_0000_0000);
    Remainder(count + 0x1_0000 * lat, lat, count, 0x1_0000);
  }

  lemma SmallMod(a: nat, m: nat)
    requires a < m
    ensures a % m == a
  {
  }
}
