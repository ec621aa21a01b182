/** Whole runs of the ADIOS scheduler: any sequence of driver calls, with stable models and without
    insertions at the head. */
module AdiosRun {
  import opened AdiosQueues
  import opened Adios

  /** One driver call. A call that is not possible in a state, such as repositioning a request that is not in the
      tree, is skipped. */
  datatype Step =
    | Insert(cfg: Config, rq: Request, merge: bool)
    | Dispatch(cfg: Config, direction: bool, merges: nat -> bool)
    | Complete(k: nat)
    | BioMerged(cfg: Config, i: nat, k: nat)
    | RequestsMerged(i: nat, k: nat)

  predicate StepOk(s: Step) {
    s.Insert? || s.Dispatch? || s.BioMerged? ==> s.cfg.Valid()
  }

  /** The requests a run would insert. */
  function Inserts(steps: seq<Step>): seq<Request> {
    if steps == [] then [] else (if steps[0].Insert? then [steps[0].rq] else []) + Inserts(steps[1..])
  }

  /** The step cannot count 65536 requests into the word at once. */
  predicate SmallStep(s: Step) {
    s.Dispatch? ==> s.cfg.Valid() && SmallBatches(s.cfg)
  }

  /** Nothing inserted behind a barrier is ahead of it, and no barrier is ahead of what was inserted before it. */
  ghost predicate NeverOvertaken(inserted: seq<Request>, dispatched: seq<Request>, queued: multiset<Request>) {
    forall i, j, b :: 0 <= i < j < |inserted| && (IsBarrier(inserted[i]) || IsBarrier(inserted[j])) &&
                      0 <= b < |dispatched| && dispatched[b] == inserted[j] ==>
                        inserted[i] !in queued && Before(dispatched, inserted[i], b)
  }

  ghost predicate Before(dispatched: seq<Request>, r: Request, b: int) {
    forall a :: 0 <= a < |dispatched| && dispatched[a] == r ==> a < b
  }

  lemma OrderedMeans(o: Order, pq: seq<seq<Request>>, main: multiset<Request>, barrier: seq<Request>,
                     inserted: seq<Request>,
                     sent: seq<Request>)
    requires |pq| == 2 && RankSpec(o, inserted) && OrderedIn(o, pq, main, barrier, sent)
    ensures NeverOvertaken(inserted, sent, QueuedIn(pq, main, barrier))
  {
    hide RankSpec, OrderedIn, QueuedIn, IsBarrier;
    forall i, j, b | 0 <= i < j < |inserted| && (IsBarrier(inserted[i]) || IsBarrier(inserted[j])) &&
                     0 <= b < |sent| && sent[b] == inserted[j]
      ensures inserted[i] !in QueuedIn(pq, main, barrier) && Before(sent, inserted[i], b)
    {
      BarrierOrder(o, pq, main, barrier, inserted, sent, i, j, b);
    }
  }

  /** One step of a run; `held` is what the device holds. */
  method Perform(ad: Scheduler, s: Step, held0: seq<Request>) returns (held: seq<Request>)
    requires ad.Valid() && ad.Ordered() && ad.modelsStable && StepOk(s) && held0 == ad.device
    requires s.Insert? ==> s.rq !in ad.inserted
    modifies ad
    ensures ad.Valid() && ad.Ordered() && ad.modelsStable && held == ad.device
    ensures ad.inserted == old(ad.inserted) + (if s.Insert? then [s.rq] else [])
    ensures old(ad.wordKept) && SmallStep(s) ==> ad.wordKept
    ensures old(ad.dispatched) <= ad.dispatched
    ensures |ad.dispatched| == |old(ad.dispatched)| +
              if s.Dispatch? && old(ad.Shape() && ad.Queued() != multiset{}) then 1 else 0
  {
    hide Scheduler.Valid, Scheduler.Ordered, Scheduler.Queued, Flatten, SmallBatches;
    ad.ValidShape();
    held := held0;
    match s
    case Insert(cfg, rq, merge) =>
      ad.InsertRequest(cfg, rq, false, merge, false);
    case Dispatch(cfg, direction, merges) =>
      var rq := ad.Dispatch(cfg, direction, merges);
      if rq.Some? {
        held := held + [rq.value];
      }
    case Complete(k) =>
      if k < |held| {
        ad.Completed(k, held[k]);
        held := held[..k] + held[k + 1..];
      }
    case BioMerged(cfg, i, k) =>
      if i < 2 && k < |Flatten(ad.dlTree[i])| {
        var ret := ad.BioMerge(cfg, true, Some((i, k)));
      }
    case RequestsMerged(i, k) =>
      if i < 2 && k < |Flatten(ad.dlTree[i])| {
        ad.MergedRequests(i, k);
      }
  }

  /** Over any run: every request of it is inserted, the books balance, the state bits are right, and no
      request ever overtakes a barrier or is overtaken by one. The word in flight is exact while its fields are
      wide enough for what is in flight, if no single batch was too large for them. */
  method Run(ad: Scheduler, steps: seq<Step>)
    requires ad.Valid() && ad.Ordered() && ad.modelsStable && ad.device == []
    requires forall s :: s in steps ==> StepOk(s)
    requires Distinct(Inserts(steps)) && forall r :: r in Inserts(steps) ==> r !in ad.inserted
    modifies ad
    ensures ad.Valid() && ad.Ordered() && ad.inserted == old(ad.inserted) + Inserts(steps)
    ensures NeverOvertaken(ad.inserted, ad.dispatched, ad.Queued())
    ensures old(ad.wordKept) && (forall s :: s in steps ==> SmallStep(s)) ==> ad.wordKept
    ensures ad.wordKept ==> WordTells(ad.inFlight, ad.Driven())
  {
    hide Scheduler.Valid, Scheduler.Ordered, StepOk, NeverOvertaken, Distinct, Inserts, WordTells, SmallStep,
         Scheduler.Queued;
    hide Scheduler.Driven;
    var held: seq<Request> := [];
    assert steps[0..] == steps;
    for k := 0 to |steps|
      invariant ad.Valid() && ad.Ordered() && ad.modelsStable && held == ad.device
      invariant Distinct(Inserts(steps[k..])) && forall r :: r in Inserts(steps[k..]) ==> r !in ad.inserted
      invariant ad.inserted + Inserts(steps[k..]) == old(ad.inserted) + Inserts(steps)
      invariant old(ad.wordKept) && (forall s :: s in steps ==> SmallStep(s)) ==> ad.wordKept
    {
      NextInsert(steps, k);
      held := Perform(ad, steps[k], held);
    }
    NoMoreInserts(steps);
    EveryState(ad);
  }

  /** While its fields are wide enough, the word is the number and the summed latency of what is in flight. */
  ghost predicate WordTells(inFlight: nat, driven: seq<Request>) {
    Fits(|driven|, Lat(driven)) ==> CountOf(inFlight) == |driven| && TotalOf(inFlight) == Lat(driven)
  }

  lemma NoMoreInserts(steps: seq<Step>)
    ensures Inserts(steps[|steps|..]) == []
  {
  }

  /** Dispatching until nothing comes back: it ends after at most as many calls as requests are queued,
      and by then every one of them has been dispatched or merged. */
  method Drain(ad: Scheduler, cfg: Config, direction: bool, merges: nat -> bool) returns (sent: seq<Request>)
    requires ad.Valid() && cfg.Valid()
    modifies ad
    ensures ad.Valid() && ad.Queued() == multiset{} && ad.inserted == old(ad.inserted)
    ensures ad.dispatched == old(ad.dispatched) + sent && ad.device == old(ad.device) + sent
    ensures old(ad.Queued()) + old(ad.merged) == ad.merged + multiset(sent)
    ensures old(ad.Ordered()) ==> ad.Ordered()
  {
    hide Scheduler.Valid, Scheduler.Ordered, Scheduler.Queued;
    ad.ValidShape();
    sent := [];
    while true
      invariant ad.Valid() && ad.Shape() && ad.inserted == old(ad.inserted)
      invariant ad.dispatched == old(ad.dispatched) + sent && ad.device == old(ad.device) + sent
      invariant old(ad.Queued()) + old(ad.merged) == ad.Queued() + ad.merged + multiset(sent)
      invariant old(ad.Ordered()) ==> ad.Ordered()
      decreases |ad.Queued()|
    {
      ghost var q, m := ad.Queued(), ad.merged;
      var rq := ad.Dispatch(cfg, direction, merges);
      ad.ValidShape();
      if rq.None? {
        return;
      }
      Fewer(q, m, ad.Queued(), ad.merged, rq.value);
      sent := sent + [rq.value];
    }
  }

  lemma Fewer(q: multiset<Request>, m: multiset<Request>, q2: multiset<Request>, m2: multiset<Request>, r: Request)
    requires q + m == q2 + m2 + multiset{r} && m <= m2
    ensures |q2| < |q|
  {
    assert |q + m| == |q| + |m| && |q2 + m2 + multiset{r}| == |q2| + |m2| + 1;
    assert m2 == m + (m2 - m);
    assert |m2| == |m| + |m2 - m|;
  }

  /** The models of a new scheduler become stable with some request. */
  method StableWith(cfg: Config, first: Request) returns (ad: Scheduler)
    requires cfg.Valid()
    ensures fresh(ad) && ad.Valid() && ad.wordKept && ad.modelsStable && ad.device == []
            && ad.Queued() == multiset{first} && ad.merged == multiset{}
  {
    hide Scheduler.Valid, Scheduler.Ordered, Scheduler.Queued;
    ad := new Scheduler();
    ad.ValidShape();
    ad.InsertRequest(cfg, first, false, false, true);
    ad.ValidShape();
  }

  /** The only request is served. */
  method Serve(ad: Scheduler, cfg: Config, ghost only: Request)
    requires ad.Valid() && cfg.Valid() && ad.device == [] && ad.Queued() == multiset{only} && ad.merged == multiset{}
    modifies ad
    ensures ad.Valid() && ad.device == [] && ad.Queued() == multiset{} && ad.modelsStable == old(ad.modelsStable)
    ensures old(ad.wordKept) && SmallBatches(cfg) ==> ad.wordKept
  {
    hide Scheduler.Valid, Scheduler.Ordered, Scheduler.Queued, SmallBatches;
    ad.ValidShape();
    var rq := ad.Dispatch(cfg, false, _ => false);
    ad.ValidShape();
    OneOnly(ad.Queued(), ad.merged, only, rq.value);
    ad.Completed(0, rq.value);
    ad.ValidShape();
  }

  lemma OneOnly(q: multiset<Request>, m: multiset<Request>, a: Request, b: Request)
    requires multiset{a} == q + m + multiset{b}
    ensures q == m == multiset{} && a == b
  {
    assert |multiset{a}| == |q| + |m| + 1;
    assert b in multiset{a};
  }

  /** Once the first request has been served the scheduler is idle, and a history begins to which the order
      of barriers applies: this is where runs start. */
  method Settle(cfg: Config, first: Request) returns (ad: Scheduler)
    requires cfg.Valid()
    ensures fresh(ad) && ad.Valid() && ad.Ordered() && ad.Shape() && ad.modelsStable && ad.device == []
            && ad.inserted == []
    ensures ad.Queued() == ad.merged == ad.completed == multiset{} && ad.dispatched == []
    ensures SmallBatches(cfg) ==> ad.wordKept
  {
    hide Scheduler.Valid, Scheduler.Ordered, Scheduler.Queued, SmallBatches;
    ad := StableWith(cfg, first);
    Serve(ad, cfg, first);
    ad.BeginHistory();
    ad.ValidShape();
  }

  /** What the invariants say in any state of a run. */
  lemma EveryState(ad: Scheduler)
    requires ad.Valid() && ad.Ordered()
    ensures ad.Shape() && NeverOvertaken(ad.inserted, ad.dispatched, ad.Queued())
    ensures ad.wordKept ==> WordTells(ad.inFlight, ad.Driven())
  {
    hide NeverOvertaken, CountOf, TotalOf, Lat, BooksIn, RankSpec, OrderedIn, MainIn, DrivenIn, WaitingIn, QueuedIn,
         Fits;
    hide PqBits, TreeBits, PageBits, BarrierBit, TreesOk;
    OrderedMeans(ad.order, ad.prioQueue, MainIn(ad.dlTree, ad.batchQueue), ad.barrierQueue, ad.inserted, ad.dispatched);
    if ad.wordKept && Fits(|ad.Driven()|, Lat(ad.Driven())) {
      BooksExact(ad.Past(), ad.Driven(), ad.Waiting(), ad.inFlight);
    }
  }

  /** When only barriers and the device hold requests, the next dispatch releases the head barrier. All that was
      inserted before it has been completed or merged then exactly when the device is empty, that is when the
      word counts nothing in flight. */
  lemma ReleaseAndCompletion(ad: Scheduler, k: nat)
    requires ad.Valid() && ad.Ordered() && NoneActive(ad.prioQueue, ad.dlTree, ad.batchQueue) && ad.barrierQueue != []
    requires k < |ad.inserted| && ad.inserted[k] == ad.barrierQueue[0]
    ensures var earlier := forall i :: 0 <= i < k ==> ad.inserted[i] in ad.completed + ad.merged;
            && (earlier <==> ad.device == [])
            && (ad.wordKept && Fits(|ad.device|, Lat(ad.device)) ==> (earlier <==> CountOf(ad.inFlight) == 0))
  {
    hide CountOf, TotalOf, Lat, BooksIn, RankSpec, OrderedIn, MainIn, DrivenIn, WaitingIn, QueuedIn, Fits;
    hide PqBits, TreeBits, PageBits, TreesOk;
    OnlyDevice(ad.prioQueue, ad.dlTree, ad.batchQueue, ad.barrierQueue, ad.device);
    BarrierAndCompletion(ad.Past(), ad.order, ad.barrierQueue, ad.inFlight, k);
    if ad.wordKept && Fits(|ad.device|, Lat(ad.device)) {
      BooksExact(ad.Past(), ad.device, ad.barrierQueue, ad.inFlight);
    }
  }

  lemma OnlyDevice(pq: seq<seq<Request>>, dl: seq<seq<Group>>, bq: seq<seq<seq<Request>>>, barrier: seq<Request>,
                   device: seq<Request>)
    requires NoneActive(pq, dl, bq)
    ensures DrivenIn(pq, bq, device) == device && WaitingIn(dl, barrier) == barrier
  {
    hide Page, InTree;
    NoMember(Page(bq[0]));
    NoMember(Page(bq[1]));
    NoMember(InTree(dl[0]));
    NoMember(InTree(dl[1]));
  }

  /** A barrier does not wait for completions: here it is dispatched while the request before it is still on
      the device. */
  method BarrierBeforeCompletion(cfg: Config, first: Request, r: Request, f: Request) returns (ad: Scheduler)
    requires cfg.Valid() && !IsBarrier(r) && IsBarrier(f)
    ensures fresh(ad) && ad.Valid() && ad.Ordered() && ad.inserted == [r, f]
    ensures ad.dispatched == ad.device == [r, f] && ad.completed == ad.merged == multiset{}
  {
    hide Scheduler.Valid, Scheduler.Ordered, Scheduler.Queued, IsBarrier, SmallBatches, Scheduler.Merges;
    ad := Settle(cfg, first);
    InsertAndSend(ad, cfg, r);
    InsertAndSend(ad, cfg, f);
  }

  /** With nothing else queued, a request is dispatched at once. */
  method InsertAndSend(ad: Scheduler, cfg: Config, r: Request)
    requires ad.Valid() && ad.Ordered() && ad.modelsStable && cfg.Valid() && r !in ad.inserted
    requires ad.Shape() && ad.Queued() == ad.merged == multiset{}
    modifies ad
    ensures ad.Valid() && ad.Ordered() && ad.modelsStable && ad.Shape() && ad.Queued() == ad.merged == multiset{}
    ensures ad.inserted == old(ad.inserted) + [r] && ad.dispatched == old(ad.dispatched) + [r]
    ensures ad.device == old(ad.device) + [r] && ad.completed == old(ad.completed)
  {
    hide Scheduler.Valid, Scheduler.Ordered, Scheduler.Queued, IsBarrier, SmallBatches;
    ad.ValidShape();
    ad.InsertRequest(cfg, r, false, false, false);
    ad.ValidShape();
    var rq := ad.Dispatch(cfg, false, _ => false);
    ad.ValidShape();
    OneOnly(ad.Queued(), ad.merged, r, rq.value);
  }

  lemma NextInsert(steps: seq<Step>, k: nat)
    requires k < |steps| && Distinct(Inserts(steps[k..]))
    ensures Distinct(Inserts(steps[k + 1..])) && (forall r :: r in Inserts(steps[k + 1..]) ==> r in Inserts(steps[k..]))
    ensures Inserts(steps[k..]) == (if steps[k].Insert? then [steps[k].rq] else []) + Inserts(steps[k + 1..])
    ensures steps[k].Insert? ==> steps[k].rq in Inserts(steps[k..]) && steps[k].rq !in Inserts(steps[k + 1..])
  {
    var rest, all := Inserts(steps[k + 1..]), Inserts(steps[k..]);
    assert steps[k..][1..] == steps[k + 1..];
    if steps[k].Insert? {
      assert all[0] == steps[k].rq;
      assert forall i :: 0 <= i < |rest| ==> rest[i] == all[i + 1];
    } else {
      assert all == rest;
    }
  }
}
