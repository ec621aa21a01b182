/** The ADIOS I/O scheduler: every driver call is one step on the shared state. */
module Adios {
  import opened AdiosQueues

  const PQ := 0
  const DL := 2
  const BQ := 4
  const BP := 6

  datatype Option<T> = None | Some(value: T)

  /** struct adios_data. `state` is the word of state bits. The ghost fields record the history. */
  class Scheduler {
    var prioQueue: seq<seq<Request>>
    var dlTree: seq<seq<Group>>
    var dlBias: int
    var state: seq<bool>
    var bqState: seq<seq<bool>>
    var bqPage: nat
    var batchQueue: seq<seq<seq<Request>>>
    var batchCount: seq<seq<nat>>
    var bqElevator: seq<bool>
    var barrierQueue: seq<Request>
    var inFlight: nat
    var modelsStable: bool
    ghost var inserted: seq<Request>
    ghost var dispatched: seq<Request>
    ghost var device: seq<Request>
    ghost var merged: multiset<Request>
    ghost var completed: multiset<Request>
    ghost var order: Order
    ghost var wordKept: bool

    ghost predicate Shape()
      reads this
    {
      && |prioQueue| == 2 && |dlTree| == 2 && |state| == 7 && |batchCount| == 2 && |bqElevator| == 2 && bqPage < 2
      && PagesShape(batchQueue, bqState) && |batchCount[0]| == OPTYPES && |batchCount[1]| == OPTYPES
    }

    /** Every bit says whether its queue is non-empty, and the barrier queue starts with a barrier. */
    ghost predicate Bits()
      requires Shape()
      reads this
    {
      && PqBits(state, prioQueue) && TreeBits(state, dlTree) && PageBits(state, batchQueue, bqState)
      && BarrierBit(state, barrierQueue)
    }

    /** What counts as in flight: the priority queues, the batch pages and the device. */
    ghost function Driven(): seq<Request>
      requires Shape()
      reads this
    {
      DrivenIn(prioQueue, batchQueue, device)
    }

    /** What waits in the trees and behind barriers. */
    ghost function Waiting(): seq<Request>
      requires Shape()
      reads this
    {
      WaitingIn(dlTree, barrierQueue)
    }

    /** What a dispatch could still return. */
    ghost function Queued(): multiset<Request>
      requires Shape()
      reads this
    {
      QueuedIn(prioQueue, MainIn(dlTree, batchQueue), barrierQueue)
    }

    /** Conservation: every inserted request is in exactly one place. The packed word keeps in step with the
        count and total of what is in flight, as long as no single batch has 65536 requests. */
    ghost predicate Books()
      requires Shape()
      reads this
    {
      BooksIn(Past(), Driven(), Waiting(), inFlight)
    }

    ghost predicate Valid()
      reads this
    {
      Shape() && Bits() && TreesOk(dlTree) && Books()
    }

    constructor ()
      ensures Valid() && Ordered() && Queued() == multiset{} && !modelsStable
      ensures inserted == dispatched == device == [] && merged == completed == multiset{} && wordKept
    {
      hide Page, Pack, NoQueues, NoBits, NoCounts, PqBits, TreeBits, PageBits, BarrierBit, DrivenIn, WaitingIn, TreesOk,
           Lat, Word;
      hide MainIn, OrderedIn, RankSpec;
      prioQueue, dlTree, dlBias, state := [[], []], [[], []], 0, [false, false, false, false, false, false, false];
      bqState, bqPage := [NoBits(), NoBits()], 0;
      batchQueue, batchCount := [NoQueues(), NoQueues()], [NoCounts(), NoCounts()];
      bqElevator, barrierQueue, inFlight, modelsStable := [false, false], [], 0, false;
      inserted, dispatched, device, merged, completed := [], [], [], multiset{}, multiset{};
      order, wordKept := Order(map[], 0, 0), true;
      new;
      Initially(prioQueue, dlTree, state, batchQueue, bqState);
      OrderedInitially(prioQueue);
    }

    /** Barriers are respected so far. Holds as long as the models are stable and nothing is inserted at
        the head. */
    ghost predicate Ordered()
      reads this
    {
      && Shape() && RankSpec(order, inserted)
      && OrderedIn(order, prioQueue, MainIn(dlTree, batchQueue), barrierQueue, dispatched)
    }

    // ----- the state word -----

    method SetState(k: nat, flag: bool)
      requires k < |state|
      modifies this`state
      ensures state == old(state)[k := flag]
    {
      state := state[k := flag];
    }

    /** eval_adios_state: the two bits from `shift` on. */
    function EvalState(shift: nat): (r: nat)
      requires shift + 2 <= |state|
      reads this`state
      ensures (r == 0 <==> !state[shift] && !state[shift + 1]) && (r == 3 <==> state[shift] && state[shift + 1])
      ensures r / 2 == if state[shift + 1] then 1 else 0
    {
      (if state[shift] then 1 else 0) + (if state[shift + 1] then 2 else 0)
    }

    // ----- the deadline trees -----

    /** add_to_dl_tree */
    method AddToDlTree(cfg: Config, rq: Request)
      requires |state| == 7 && TreesOk(dlTree) && TreeBits(state, dlTree) && cfg.Valid()
      modifies this`dlTree, this`state
      ensures TreesOk(dlTree) && TreeBits(state, dlTree) && SameOutside(old(state), state, DL)
      ensures dlTree == WithNew(cfg, old(dlTree), rq)
      ensures OneMore(WaitingIn(dlTree, barrierQueue), WaitingIn(old(dlTree), barrierQueue), rq)
    {
      hide AddEntry, TreeOk, OneMore, InTree, Deadline, WaitingIn, OnlyOf;
      var i, e := TreeOf(rq), Entry(rq, Deadline(cfg, rq));
      TreeAdd(dlTree[i], e);
      StillOnlyOf(dlTree[i], AddEntry(dlTree[i], e), i, rq);
      AddEntryTree(dlTree[i], e);
      WaitingMore(dlTree, barrierQueue, i, AddEntry(dlTree[i], e), rq);
      var wasEmpty := dlTree[i] == [];
      dlTree := dlTree[i := AddEntry(dlTree[i], e)];
      if wasEmpty {
        SetState(DL + i, true);
      }
    }

    /** del_from_dl_tree, for the entry at place `k` of the order. */
    method DelFromDlTree(i: nat, k: nat)
      requires |state| == 7 && TreesOk(dlTree) && TreeBits(state, dlTree) && i < 2 && k < |Flatten(dlTree[i])|
      modifies this`dlTree, this`state
      ensures TreesOk(dlTree) && TreeBits(state, dlTree) && SameOutside(old(state), state, DL)
      ensures dlTree == Dropped(old(dlTree), i, k)
      ensures OneMore(WaitingIn(old(dlTree), barrierQueue), WaitingIn(dlTree, barrierQueue),
                      old(Flatten(dlTree[i])[k].rq))
    {
      hide DropAt, TreeOk, OneMore, InTree, WaitingIn, OnlyOf;
      TreeDrop(dlTree[i], k);
      StillOnlyOf(dlTree[i], DropAt(dlTree[i], k), i, Flatten(dlTree[i])[k].rq);
      DropAtTree(dlTree[i], k);
      WaitingLess(dlTree, barrierQueue, i, DropAt(dlTree[i], k), Flatten(dlTree[i])[k].rq);
      dlTree := dlTree[i := DropAt(dlTree[i], k)];
      if dlTree[i] == [] {
        SetState(DL + i, false);
      }
    }

    // ----- batch queues -----

    /** The tree to take from, and whether the bias has to be adjusted: by bias when both have requests. */
    method PickTree() returns (i: nat, updateBias: bool)
      requires TreesOk(dlTree) && TreeBits(state, dlTree) && (dlTree[0] != [] || dlTree[1] != [])
      ensures i == Turn(dlTree, dlBias) && dlTree[i] != []
      ensures updateBias <==> AgainstDeadlines(dlTree, dlBias)
    {
      hide TreeOk, OnlyOf;
      var dlQueued := EvalState(DL);
      var biasIdx := if dlBias < 0 then 1 else 0;
      i := dlQueued / 2;
      if dlQueued == 3 {
        i, updateBias := biasIdx, First(dlTree[biasIdx]).deadline > First(dlTree[1 - biasIdx]).deadline;
      } else {
        updateBias := biasIdx == i;
      }
    }

    /** The first half of a round of fill_batch_queues. Beyond the first request it stops at the batch limit of
        the type, at the latency window, and where the model of the type has no base yet; not before. */
    method ChooseOne(cfg: Config, tpl: nat, page: nat, count: nat, addedLat: nat)
      returns (stop: bool, i: nat, updateBias: bool, e: Entry)
      requires TreesOk(dlTree) && TreeBits(state, dlTree) && cfg.Valid() && page < 2 && |batchCount| == 2
               && |batchCount[page]| == OPTYPES
      ensures stop <==> Stops(cfg, dlTree, dlBias, batchCount[page], tpl + addedLat, count)
      ensures !stop ==> i == Turn(dlTree, dlBias) && dlTree[i] != [] && Flatten(dlTree[i]) != []
      ensures !stop ==> e == First(dlTree[i]) == Flatten(dlTree[i])[0]
      ensures !stop ==> (updateBias <==> AgainstDeadlines(dlTree, dlBias))
      ensures !stop && count > 0 ==> Admits(cfg, batchCount[page], tpl + addedLat, e.rq)
    {
      hide TreeOk, OnlyOf, Flatten, AgainstDeadlines;
      e, i, updateBias := Entry(Request(0, 0, false, 0, 0, 0), 0), 0, false;
      if EvalState(DL) == 0 {
        return true, i, updateBias, e;
      }
      i, updateBias := PickTree();
      FirstIsEarliest(dlTree[i]);
      e := First(dlTree[i]);
      var optype := OpType(e.rq);
      stop := count > 0 && (!cfg.hasBase[optype] || batchCount[page][optype] >= cfg.batchLimit[optype]
                            || tpl + addedLat + e.rq.predLat > cfg.window);
    }

    /** One round of fill_batch_queues. */
    method TakeOne(cfg: Config, tpl: nat, page: nat, count: nat, addedLat: nat)
      returns (stop: bool, i: nat, rq: Request)
      requires TreesOk(dlTree) && TreeBits(state, dlTree) && cfg.Valid() && page < 2 && |batchCount| == 2
      requires PagesShape(batchQueue, bqState) && |batchCount[page]| == OPTYPES
               && QueueBits(batchQueue[page], bqState[page])
      modifies this`dlTree, this`state, this`dlBias, this`batchQueue, this`bqState, this`batchCount
      ensures TreesOk(dlTree) && TreeBits(state, dlTree) && SameOutside(old(state), state, DL) && |batchCount| == 2
      ensures PagesShape(batchQueue, bqState) && QueueBits(batchQueue[page], bqState[page])
      ensures batchQueue[1 - page] == old(batchQueue[1 - page]) && bqState[1 - page] == old(bqState[1 - page])
      ensures batchCount[1 - page] == old(batchCount[1 - page])
      ensures stop ==> dlTree == old(dlTree) && batchQueue == old(batchQueue) && batchCount == old(batchCount)
      ensures stop ==> dlBias == old(dlBias) && Stops(cfg, dlTree, dlBias, batchCount[page], tpl + addedLat, count)
      ensures !stop ==>
              i == Turn(old(dlTree), old(dlBias)) && dlBias == BiasAfter(cfg, old(dlTree), old(dlBias), rq.predLat)
      ensures !stop ==> i < 2 && old(dlTree[i]) != [] && Taken(old(dlTree), dlTree, i, rq)
      ensures !stop ==> OneMore(WaitingIn(old(dlTree), barrierQueue), WaitingIn(dlTree, barrierQueue), rq)
      ensures !stop ==> OneMore(Page(batchQueue[page]), Page(old(batchQueue[page])), rq)
      ensures !stop && !cfg.elevator ==> batchQueue[page] == Appended(old(batchQueue[page]), OpType(rq), rq)
      ensures !stop && cfg.elevator ==>
              batchQueue[page] == Appended(old(batchQueue[page]), Tier(old(First(dlTree[i]))), rq)
      ensures !stop ==> batchCount[page] == old(batchCount[page])[OpType(rq) := old(batchCount[page][OpType(rq)]) + 1]
      ensures !stop && count > 0 ==> Admits(cfg, old(batchCount[page]), tpl + addedLat, rq)
      ensures old(Placed(cfg.elevator, batchQueue[page])) ==> Placed(cfg.elevator, batchQueue[page])
    {
      hide TreeOk, OneMore, InTree, Page, Flatten, DropAt, WaitingIn, QueueBits, Taken, OnlyOf, Placed;
      hide Admits, Turn, AgainstDeadlines;
      var updateBias, e;
      stop, i, updateBias, e := ChooseOne(cfg, tpl, page, count, addedLat);
      rq := e.rq;
      if stop {
        return;
      }
      var optype := OpType(rq);
      if updateBias {
        AdjustBias(cfg, rq.predLat);
      }
      TakenFirst(dlTree, i);
      DelFromDlTree(i, 0);
      var dest := if cfg.elevator then Tier(e) else optype;
      ghost var q := batchQueue[page];
      AddToPage(page, dest, rq);
      StillPlaced(cfg.elevator, q, dest, rq);
      batchCount := batchCount[page := batchCount[page][optype := batchCount[page][optype] + 1]];
      stop := false;
    }

    /** The loop of fill_batch_queues: requests move from the trees to the empty back page. */
    method FillPage(cfg: Config, tpl: nat, page: nat) returns (count: nat, addedLat: nat, ghost order: seq<Request>)
      requires TreesOk(dlTree) && TreeBits(state, dlTree) && cfg.Valid() && page < 2 && |batchCount| == 2
      requires PagesShape(batchQueue, bqState) && QueueBits(batchQueue[page], bqState[page])
      requires batchCount[page] == NoCounts() && Page(batchQueue[page]) == [] && (state[DL] || state[DL + 1])
      modifies this`dlTree, this`state, this`dlBias, this`batchQueue, this`bqState, this`batchCount
      ensures TreesOk(dlTree) && TreeBits(state, dlTree) && SameOutside(old(state), state, DL) && |batchCount| == 2
      ensures PagesShape(batchQueue, bqState) && QueueBits(batchQueue[page], bqState[page])
      ensures batchQueue[1 - page] == old(batchQueue[1 - page]) && bqState[1 - page] == old(bqState[1 - page])
      ensures |batchCount[page]| == OPTYPES && batchCount[1 - page] == old(batchCount[1 - page])
      ensures multiset(order) == multiset(Page(batchQueue[page])) && count == |order| && addedLat == Lat(order)
      ensures multiset(order) + multiset(WaitingIn(dlTree, barrierQueue))
              == multiset(WaitingIn(old(dlTree), barrierQueue))
      ensures Drained(old(dlTree), dlTree, order) && WithinLimits(cfg, tpl, order)
              && Placed(cfg.elevator, batchQueue[page])
      ensures Stops(cfg, dlTree, dlBias, batchCount[page], tpl + addedLat, count)
      ensures !cfg.elevator ==> FifoByType(batchQueue[page], order)
    {
      hide TreesOk, Page, WaitingIn, QueueBits, Lat, Placed, Stops, Batch, FifoByType, Drained, WithinLimits;
      count, addedLat, order := 0, 0, [];
      BatchEmpty(cfg, tpl, dlTree, batchQueue[page]);
      ghost var dl, waiting := dlTree, WaitingIn(dlTree, barrierQueue);
      while true
        invariant Filling(page) && SameOutside(old(state), state, DL)
        invariant batchQueue[1 - page] == old(batchQueue[1 - page]) && bqState[1 - page] == old(bqState[1 - page])
        invariant batchCount[1 - page] == old(batchCount[1 - page]) && count == |order| && addedLat == Lat(order)
        invariant multiset(order) + multiset(WaitingIn(dlTree, barrierQueue)) == multiset(waiting)
        invariant Batch(cfg, tpl, dl, dlTree, batchQueue[page], batchCount[page], order)
        decreases |WaitingIn(dlTree, barrierQueue)|
      {
        var stop, rq := TakeInBatch(cfg, tpl, page, count, addedLat, dl, order);
        if stop {
          SomethingTaken(cfg, dlTree, dlBias, batchCount[page], tpl + addedLat, count);
          BatchFacts(cfg, tpl, dl, dlTree, batchQueue[page], batchCount[page], order);
          break;
        }
        count, addedLat, order := count + 1, addedLat + rq.predLat, order + [rq];
      }
    }

    ghost predicate Filling(page: nat)
      reads this
    {
      && page < 2 && TreesOk(dlTree) && TreeBits(state, dlTree) && |batchCount| == 2 && |batchCount[page]| == OPTYPES
      && PagesShape(batchQueue, bqState) && QueueBits(batchQueue[page], bqState[page])
    }

    /** One round, and what it means for the batch. */
    method TakeInBatch(cfg: Config, tpl: nat, page: nat, count: nat, addedLat: nat, ghost dl0: seq<seq<Group>>,
                       ghost order: seq<Request>)
      returns (stop: bool, rq: Request)
      requires Filling(page) && cfg.Valid() && count == |order| && addedLat == Lat(order)
      requires Batch(cfg, tpl, dl0, dlTree, batchQueue[page], batchCount[page], order)
      modifies this`dlTree, this`state, this`dlBias, this`batchQueue, this`bqState, this`batchCount
      ensures Filling(page) && SameOutside(old(state), state, DL)
      ensures batchQueue[1 - page] == old(batchQueue[1 - page]) && bqState[1 - page] == old(bqState[1 - page])
      ensures batchCount[1 - page] == old(batchCount[1 - page])
      ensures stop ==> Stops(cfg, dlTree, dlBias, batchCount[page], tpl + addedLat, count)
      ensures var order2 := if stop then order else order + [rq];
              && Batch(cfg, tpl, dl0, dlTree, batchQueue[page], batchCount[page], order2)
              && multiset(order2) + multiset(WaitingIn(dlTree, barrierQueue)) == multiset(order)
                 + multiset(WaitingIn(old(dlTree), barrierQueue))
      ensures !stop ==>
              Lat(order + [rq]) == Lat(order) + rq.predLat
                  && |WaitingIn(dlTree, barrierQueue)| < |WaitingIn(old(dlTree), barrierQueue)|
    {
      hide TreesOk, OneMore, Page, WaitingIn, QueueBits, Taken, OpType, Lat, Placed, Stops, Turn, BiasAfter, Appended,
           Tier, Admits, Batch;
      ghost var q, counts, dl, waiting := batchQueue[page], batchCount[page], dlTree, WaitingIn(dlTree, barrierQueue);
      var i;
      stop, i, rq := TakeOne(cfg, tpl, page, count, addedLat);
      if !stop {
        BatchPlaced(cfg, tpl, dl0, dl, q, counts, order);
        BatchMore(cfg, tpl, dl0, dl, dlTree, q, batchQueue[page], counts, order, i, rq);
        Moved(order, waiting, WaitingIn(dlTree, barrierQueue), rq);
      }
    }

    /** The loop, and the sort that follows it when the elevator is on. */
    method FillAndSort(cfg: Config, tpl: nat, page: nat) returns (count: nat, addedLat: nat, ghost order: seq<Request>)
      requires TreesOk(dlTree) && TreeBits(state, dlTree) && cfg.Valid() && page < 2 && |batchCount| == 2
      requires PagesShape(batchQueue, bqState) && QueueBits(batchQueue[page], bqState[page])
      requires batchCount[page] == NoCounts() && Page(batchQueue[page]) == [] && (state[DL] || state[DL + 1])
      modifies this`dlTree, this`state, this`dlBias, this`batchQueue, this`bqState, this`batchCount
      ensures TreesOk(dlTree) && TreeBits(state, dlTree) && SameOutside(old(state), state, DL) && |batchCount| == 2
      ensures PagesShape(batchQueue, bqState) && QueueBits(batchQueue[page], bqState[page])
      ensures batchQueue[1 - page] == old(batchQueue[1 - page]) && bqState[1 - page] == old(bqState[1 - page])
      ensures |batchCount[page]| == OPTYPES && batchCount[1 - page] == old(batchCount[1 - page])
      ensures multiset(order) == multiset(Page(batchQueue[page])) && count == |order| && addedLat == Lat(order)
              && order != []
      ensures multiset(order) + multiset(WaitingIn(dlTree, barrierQueue))
              == multiset(WaitingIn(old(dlTree), barrierQueue))
      ensures BackFilled(cfg, old(dlTree), dlTree, dlBias, batchCount[page], batchQueue[page], tpl, order)
    {
      hide TreesOk, Page, WaitingIn, QueueBits, Lat, Placed, Stops, FifoByType, Drained, WithinLimits, ByPos, TreeBits,
           NoCounts;
      count, addedLat, order := FillPage(cfg, tpl, page);
      if cfg.elevator && batchCount[page][1] > 1 {
        SortQueue(page);
      }
      OrderNotEmpty(cfg, tpl, order);
    }

    /** fill_batch_queues but for the word of requests in flight. */
    method FillBack(cfg: Config, tpl: nat) returns (count: nat, addedLat: nat, ghost order: seq<Request>)
      requires Shape() && Bits() && TreesOk(dlTree) && cfg.Valid() && Page(batchQueue[1 - bqPage]) == []
      requires state[DL] || state[DL + 1]
      modifies this`dlTree, this`state, this`dlBias, this`batchQueue, this`bqState, this`batchCount, this`bqElevator
      ensures Shape() && Bits() && TreesOk(dlTree) && count == |order| && addedLat == Lat(order)
      ensures multiset(order) + multiset(Waiting()) == multiset(old(Waiting()))
      ensures batchQueue[bqPage] == old(batchQueue[bqPage]) && bqState[bqPage] == old(bqState[bqPage])
      ensures state[BQ + bqPage] == old(state[BQ + bqPage])
      ensures multiset(order) == multiset(Page(batchQueue[1 - bqPage])) && order != []
      ensures bqElevator == old(bqElevator)[1 - bqPage := cfg.elevator]
              && BackFilled(cfg, old(dlTree), dlTree, dlBias, batchCount[1 - bqPage], batchQueue[1 - bqPage], tpl,
                            order)
    {
      hide TreesOk, Page, WaitingIn, QueueBits, Lat, NoCounts, BackFilled, PqBits, BarrierBit;
      var page := 1 - bqPage;
      EmptyPage();
      batchCount := batchCount[page := NoCounts()];
      bqElevator := bqElevator[page := cfg.elevator];
      ghost var state0 := state;
      count, addedLat, order := FillAndSort(cfg, tpl, page);
      if count > 0 {
        SetState(BQ + page, true);
      }
      BitsAfterFill(state0, state, prioQueue, barrierQueue);
      assert |multiset(order)| == |multiset(Page(batchQueue[page]))|;
    }

    /** fill_batch_queues: the back page takes requests from the trees in the order of the trees, at
        least one, and as many more as the limits allow; they count as in flight at once. */
    method FillBatchQueues(cfg: Config, tpl: nat) returns (ghost order: seq<Request>)
      requires Valid() && cfg.Valid() && Page(batchQueue[1 - bqPage]) == [] && (state[DL] || state[DL + 1])
      modifies this`dlTree, this`state, this`dlBias, this`batchQueue, this`bqState, this`batchCount, this`bqElevator,
               this`inFlight, this`wordKept
      ensures wordKept <==> old(wordKept) && |order| < 0x1_0000
      ensures Valid() && multiset(Driven()) == multiset(old(Driven())) + multiset(order)
      ensures multiset(order) + multiset(Waiting()) == multiset(old(Waiting()))
      ensures batchQueue[bqPage] == old(batchQueue[bqPage]) && bqState[bqPage] == old(bqState[bqPage])
      ensures state[BQ + bqPage] == old(state[BQ + bqPage])
      ensures multiset(order) == multiset(Page(batchQueue[1 - bqPage])) && order != []
      ensures bqElevator == old(bqElevator)[1 - bqPage := cfg.elevator]
              && BackFilled(cfg, old(dlTree), dlTree, dlBias, batchCount[1 - bqPage], batchQueue[1 - bqPage], tpl,
                            order)
    {
      hide TreesOk, Page, WaitingIn, Lat, DrivenIn, BooksIn, BackFilled, Bits;
      ghost var driven, waiting, bq := Driven(), Waiting(), batchQueue;
      var count, addedLat;
      count, addedLat, order := FillBack(cfg, tpl);
      Counted(prioQueue, bq, batchQueue, device, bqPage, order);
      CountInFlight(count, addedLat, driven, waiting, order);
    }

    /** The batch is added to the word. */
    method CountInFlight(count: nat, addedLat: nat, ghost driven: seq<Request>, ghost waiting: seq<Request>,
                         ghost order: seq<Request>)
      requires Shape() && Bits() && TreesOk(dlTree) && BooksIn(Past(), driven, waiting, inFlight)
      requires order != [] && count == |order| && addedLat == Lat(order)
      requires multiset(Driven()) == multiset(driven) + multiset(order)
               && multiset(waiting) == multiset(order) + multiset(Waiting())
      modifies this`inFlight, this`wordKept
      ensures Valid() && (wordKept <==> old(wordKept) && |order| < 0x1_0000)
    {
      hide PagesShape, BooksIn, DrivenIn, WaitingIn, Lat, WordAdd, Pack, PqBits, TreeBits, PageBits, BarrierBit,
           TreesOk;
      ghost var past := Past();
      BooksMove(past, driven, waiting, Driven(), Waiting(), order, inFlight);
      if count > 0 {
        inFlight := WordAdd(inFlight, Pack(count, addedLat));
        wordKept := wordKept && count < 0x1_0000;
      }
      assert Past() == past.(kept := past.kept && |order| < 0x1_0000);
    }

    /** The asynchronous queue of the page is sorted by position. */
    method SortQueue(page: nat)
      requires page < 2 && PagesShape(batchQueue, bqState) && QueueBits(batchQueue[page], bqState[page])
      modifies this`batchQueue
      ensures PagesShape(batchQueue, bqState) && QueueBits(batchQueue[page], bqState[page])
      ensures batchQueue[1 - page] == old(batchQueue[1 - page])
      ensures multiset(Page(batchQueue[page])) == multiset(Page(old(batchQueue[page]))) && ByPos(batchQueue[page][1])
      ensures forall elevator :: old(Placed(elevator, batchQueue[page])) ==> Placed(elevator, batchQueue[page])
    {
      hide Page, SortByPos, Placed;
      var sorted := SortByPos(batchQueue[page][1]);
      SortByPosSorted(batchQueue[page][1]);
      PageUpdate(batchQueue[page], 1, sorted);
      Cancel(multiset(Page(batchQueue[page][1 := sorted])), multiset(Page(batchQueue[page])), multiset(sorted));
      assert |multiset(sorted)| == |multiset(batchQueue[page][1])|;
      PlacedSorted(true, batchQueue[page], sorted);
      PlacedSorted(false, batchQueue[page], sorted);
      batchQueue := batchQueue[page := batchQueue[page][1 := sorted]];
    }

    /** At the tail of a batch queue of the page. */
    method AddToPage(page: nat, dest: nat, rq: Request)
      requires page < 2 && dest < OPTYPES && PagesShape(batchQueue, bqState)
               && QueueBits(batchQueue[page], bqState[page])
      modifies this`batchQueue, this`bqState
      ensures PagesShape(batchQueue, bqState) && QueueBits(batchQueue[page], bqState[page])
      ensures batchQueue[1 - page] == old(batchQueue[1 - page]) && bqState[1 - page] == old(bqState[1 - page])
      ensures OneMore(Page(batchQueue[page]), Page(old(batchQueue[page])), rq)
      ensures batchQueue[page] == Appended(old(batchQueue[page]), dest, rq)
    {
      hide OneMore, Page;
      PageAdd(batchQueue[page], dest, rq);
      batchQueue := batchQueue[page := batchQueue[page][dest := batchQueue[page][dest] + [rq]]];
      bqState := bqState[page := bqState[page][dest := true]];
    }

    /** The bias between the trees moves by the weighted predicted latency. */
    method AdjustBias(cfg: Config, predLat: nat)
      requires cfg.Valid()
      modifies this`dlBias
      ensures dlBias == NewBias(cfg, old(dlBias), predLat)
    {
      dlBias := NewBias(cfg, dlBias, predLat);
    }

    // ----- dispatch -----

    /** pop_next_bq_request_*: from the first queue of the front page that has requests; the sorted queue
        may be taken from its far end. */
    method PopNext(direction: bool) returns (rq: Option<Request>)
      requires bqPage < 2 && PagesShape(batchQueue, bqState) && |bqElevator| == 2
               && QueueBits(batchQueue[bqPage], bqState[bqPage])
      modifies this`batchQueue, this`bqState
      ensures PagesShape(batchQueue, bqState) && QueueBits(batchQueue[bqPage], bqState[bqPage])
      ensures batchQueue[1 - bqPage] == old(batchQueue[1 - bqPage]) && bqState[1 - bqPage] == old(bqState[1 - bqPage])
      ensures rq.None? <==> Page(old(batchQueue[bqPage])) == []
      ensures rq.None? ==> batchQueue == old(batchQueue)
      ensures rq.Some? ==> OneMore(Page(old(batchQueue[bqPage])), Page(batchQueue[bqPage]), rq.value)
      ensures rq == NextOf(old(batchQueue[bqPage]), bqElevator[bqPage] && direction)
    {
      hide Page, OneMore;
      var q, bits := batchQueue[bqPage], bqState[bqPage];
      PageEmpty(q);
      var idx := 0;
      while idx < OPTYPES && !bits[idx]
        invariant 0 <= idx <= OPTYPES && forall k :: 0 <= k < idx ==> !bits[k]
      {
        idx := idx + 1;
      }
      if idx == OPTYPES {
        return None;
      }
      assert FirstQueue(q) == idx;
      var k := if bqElevator[bqPage] && idx == 1 && direction then |q[idx]| - 1 else 0;
      PageTake(q, idx, k);
      rq := Some(q[idx][k]);
      RemoveFromPage(idx, k);
    }

    /** pop_bq_request: the request leaves its queue, and takes the bit of the queue with it if it was the last. */
    method RemoveFromPage(idx: nat, k: nat)
      requires bqPage < 2 && PagesShape(batchQueue, bqState) && QueueBits(batchQueue[bqPage], bqState[bqPage])
      requires idx < OPTYPES && k < |batchQueue[bqPage][idx]|
      modifies this`batchQueue, this`bqState
      ensures PagesShape(batchQueue, bqState) && QueueBits(batchQueue[bqPage], bqState[bqPage])
      ensures batchQueue[1 - bqPage] == old(batchQueue[1 - bqPage]) && bqState[1 - bqPage] == old(bqState[1 - bqPage])
      ensures var q := old(batchQueue[bqPage]); batchQueue[bqPage] == q[idx := q[idx][..k] + q[idx][k + 1..]]
    {
      var q, bits := batchQueue[bqPage], bqState[bqPage];
      batchQueue := batchQueue[bqPage := q[idx := q[idx][..k] + q[idx][k + 1..]]];
      if batchQueue[bqPage][idx] == [] {
        bqState := bqState[bqPage := bits[idx := false]];
      }
    }

    /** flip_bq_page */
    method FlipBqPage()
      requires Valid()
      modifies this`bqPage
      ensures Valid() && bqPage == 1 - old(bqPage)
    {
      hide BooksIn, PqBits, TreeBits, PageBits, BarrierBit, TreesOk, DrivenIn, WaitingIn;
      bqPage := 1 - bqPage;
    }

    /** The back page is empty, the trees have work, and the front page is empty or little is in flight. */
    ghost predicate RefillDue(cfg: Config)
      requires Valid()
      reads this
    {
      && !state[BQ + (1 - bqPage)] && (state[DL] || state[DL + 1])
      && (!state[BQ + bqPage] || LittleInFlight(cfg, TotalOf(inFlight)))
    }

    /** The refill of an empty back page. */
    method Refill(cfg: Config, tpl: nat) returns (ghost order: seq<Request>)
      requires Valid() && cfg.Valid() && !state[BQ + (1 - bqPage)] && (state[DL] || state[DL + 1])
      modifies this`dlTree, this`state, this`dlBias, this`batchQueue, this`bqState, this`batchCount, this`bqElevator,
               this`inFlight, this`wordKept
      ensures old(wordKept) && SmallBatches(cfg) ==> wordKept
      ensures Valid() && MainIn(dlTree, batchQueue) == old(MainIn(dlTree, batchQueue))
      ensures batchQueue[bqPage] == old(batchQueue[bqPage]) && bqElevator[bqPage] == old(bqElevator[bqPage])
      ensures state[BQ + bqPage] == old(state[BQ + bqPage]) && state[BQ + (1 - bqPage)]
      ensures order != [] && multiset(order) == multiset(Page(batchQueue[1 - bqPage]))
      ensures BackFilled(cfg, old(dlTree), dlTree, dlBias, batchCount[1 - bqPage], batchQueue[1 - bqPage], tpl, order)
    {
      hide Page, BooksIn, InTree, TreesOk, PqBits, TreeBits, BarrierBit, QueueBits, DrivenIn, MainIn, BackFilled,
           WaitingIn, PageBits, SmallBatches, Books;
      ghost var dl, bq := dlTree, batchQueue;
      PageIsEmpty(state, batchQueue, bqState, 1 - bqPage);
      order := FillBatchQueues(cfg, tpl);
      if SmallBatches(cfg) {
        BatchSize(cfg, dl, dlTree, dlBias, batchCount[1 - bqPage], batchQueue[1 - bqPage], tpl, order);
      }
      MainMoved(dl, bq, dlTree, batchQueue, bqPage, barrierQueue, order);
      BackNotEmpty(state, batchQueue, bqState, bqPage, order);
    }

    /** The refill of dispatch_from_bq: when the back page is empty, the trees have work, and the front
        page is empty or little is in flight. */
    method RefillIfDue(cfg: Config) returns (ghost order: seq<Request>)
      requires Valid() && cfg.Valid()
      modifies this`dlTree, this`state, this`dlBias, this`batchQueue, this`bqState, this`batchCount, this`bqElevator,
               this`inFlight, this`wordKept
      ensures old(wordKept) && SmallBatches(cfg) ==> wordKept
      ensures Valid() && MainIn(dlTree, batchQueue) == old(MainIn(dlTree, batchQueue))
      ensures batchQueue[bqPage] == old(batchQueue[bqPage]) && bqElevator[bqPage] == old(bqElevator[bqPage])
      ensures state[BQ + bqPage] == old(state[BQ + bqPage])
      ensures !state[BQ] && !state[BQ + 1] ==> dlTree[0] == [] && dlTree[1] == []
      ensures order != [] <==> old(RefillDue(cfg))
      ensures order == [] ==> dlTree == old(dlTree) && batchQueue == old(batchQueue) && bqElevator == old(bqElevator)
      ensures order == [] ==> inFlight == old(inFlight)
      ensures order != [] ==> multiset(order) == multiset(Page(batchQueue[1 - bqPage]))
      ensures order != [] ==> BackFilled(cfg, old(dlTree), dlTree, dlBias, batchCount[1 - bqPage],
                                         batchQueue[1 - bqPage], TotalOf(old(inFlight)), order)
    {
      hide Page, Books, OpType, InTree, TreesOk, PqBits, BarrierBit, QueueBits, MainIn, LittleInFlight, TotalOf,
           BackFilled, PageBits, SmallBatches;
      var tpl := TotalOf(inFlight);
      order := [];
      if !state[BQ + (1 - bqPage)] && EvalState(DL) != 0
         && (!state[BQ + bqPage] || LittleInFlight(cfg, tpl)) {
        order := Refill(cfg, tpl);
      }
    }

    /** dispatch_from_bq up to the choice of the request: refill, then turn the page if the front page
        was empty and the other one has work. */
    method RefillAndFlip(cfg: Config, ghost direction: bool)
      requires Valid() && cfg.Valid()
      modifies this`dlTree, this`state, this`dlBias, this`batchQueue, this`bqState, this`batchCount, this`bqElevator,
               this`inFlight, this`wordKept, this`bqPage
      ensures old(wordKept) && SmallBatches(cfg) ==> wordKept
      ensures Valid() && MainIn(dlTree, batchQueue) == old(MainIn(dlTree, batchQueue))
      ensures Page(batchQueue[bqPage]) == [] ==> MainIn(dlTree, batchQueue) == multiset{}
      ensures bqPage < 2 && |batchQueue| == |bqElevator| == 2
      ensures var next := old(PageNext(batchQueue, bqPage, bqElevator, direction));
                next.Some? ==> next == NextOf(batchQueue[bqPage], bqElevator[bqPage] && direction)
    {
      hide Page, Books, InTree, TreesOk, PqBits, BarrierBit, QueueBits, DrivenIn, MainIn, SmallBatches;
      var front := state[BQ + bqPage];
      ghost var order := RefillIfDue(cfg);
      if !front && state[BQ + (1 - bqPage)] {
        FlipBqPage();
      }
      NoneLeft(state, dlTree, batchQueue, bqState);
    }

    ghost function Past(): History
      reads this`inserted, this`dispatched, this`device, this`merged, this`completed, this`wordKept
    {
      History(inserted, dispatched, device, merged, completed, wordKept)
    }

    /** The request leaves for the device. */
    ghost method Record(rq: Request)
      modifies this`dispatched, this`device
      ensures dispatched == old(dispatched) + [rq] && device == old(device) + [rq]
    {
      dispatched, device := dispatched + [rq], device + [rq];
    }

    /** Pop a request; the bit of a page that has become empty goes. */
    method TakeFromPage(direction: bool) returns (rq: Option<Request>)
      requires Shape() && Bits()
      modifies this`batchQueue, this`bqState, this`state
      ensures Shape() && Bits() && batchQueue[1 - bqPage] == old(batchQueue[1 - bqPage])
      ensures rq.None? ==> Page(batchQueue[bqPage]) == [] && batchQueue == old(batchQueue)
      ensures rq.Some? ==> OneMore(Page(old(batchQueue[bqPage])), Page(batchQueue[bqPage]), rq.value)
      ensures rq == NextOf(old(batchQueue[bqPage]), bqElevator[bqPage] && direction)
    {
      hide Page, PqBits, TreeBits, BarrierBit, QueueBits, OneMore, NextOf;
      ghost var bq, state0 := batchQueue, state;
      rq := PopNext(direction);
      if rq.Some? {
        if NoBitSet(bqState[bqPage]) {
          SetState(BQ + bqPage, false);
        }
        BitsAfterPop(state0, state, prioQueue, dlTree, barrierQueue, bq, batchQueue, bqState, bqPage);
      }
    }

    /** A request of the front page leaves for the device. */
    method SendFromPage(direction: bool) returns (rq: Option<Request>)
      requires Valid()
      modifies this`batchQueue, this`bqState, this`state, this`dispatched, this`device
      ensures Valid() && rq == NextOf(old(batchQueue[bqPage]), bqElevator[bqPage] && direction)
      ensures rq.None? ==> Page(batchQueue[bqPage]) == [] && batchQueue == old(batchQueue)
      ensures rq.None? ==> dispatched == old(dispatched) && device == old(device)
      ensures rq.Some? ==> dispatched == old(dispatched) + [rq.value] && device == old(device) + [rq.value]
      ensures rq.Some? ==> old(MainIn(dlTree, batchQueue)) == MainIn(dlTree, batchQueue) + multiset{rq.value}
    {
      hide NextOf, Page, BooksIn, InTree, TreesOk, PqBits, TreeBits, PageBits, BarrierBit, DrivenIn, MainIn, OneMore,
           WaitingIn;
      ghost var bq, h := batchQueue, Past();
      rq := TakeFromPage(direction);
      if rq.Some? {
        BooksPop(h, prioQueue, bq, batchQueue, bqPage, Waiting(), inFlight, rq.value);
        MainPopped(dlTree, bq, batchQueue, bqPage, rq.value);
        Record(rq.value);
      }
    }

    /** dispatch_from_bq: nothing exactly when trees and batch pages are empty. */
    method DispatchFromBq(cfg: Config, direction: bool) returns (rq: Option<Request>)
      requires Valid() && cfg.Valid()
      modifies this`dlTree, this`state, this`dlBias, this`batchQueue, this`bqState, this`batchCount, this`bqElevator,
               this`inFlight, this`wordKept, this`bqPage, this`dispatched, this`device
      ensures old(wordKept) && SmallBatches(cfg) ==> wordKept
      ensures Valid()
      ensures rq.None? <==> old(MainIn(dlTree, batchQueue)) == multiset{}
      ensures rq.None? ==> dispatched == old(dispatched)
      ensures rq.None? ==> MainIn(dlTree, batchQueue) == multiset{} && device == old(device)
      ensures rq.Some? ==> dispatched == old(dispatched) + [rq.value] && device == old(device) + [rq.value]
      ensures old(Queued()) == Queued() + (if rq.Some? then multiset{rq.value} else multiset{})
      ensures var next := old(PageNext(batchQueue, bqPage, bqElevator, direction)); next.Some? ==> rq == next
      ensures old(Ordered()) && prioQueue == [[], []] ==> Ordered()
    {
      hide Valid, Shape, NextOf, UsedIn, FrontOf, Page, MainIn, OrderedIn, RankSpec, SmallBatches, QueuedIn;
      ValidShape();
      ghost var main, sent := MainIn(dlTree, batchQueue), dispatched;
      RefillAndFlip(cfg, direction);
      ValidShape();
      rq := SendFromPage(direction);
      ValidShape();
      if rq.Some? {
        MainStep(order, prioQueue, main, MainIn(dlTree, batchQueue), barrierQueue, sent, rq.value);
      }
    }

    /** dispatch_from_pq: queue 1 comes first when both have requests. */
    method DispatchFromPq() returns (rq: Option<Request>)
      requires Valid()
      modifies this`prioQueue, this`state, this`dispatched, this`device
      ensures Valid()
      ensures rq.None? <==> old(prioQueue) == [[], []]
      ensures rq.None? ==> prioQueue == old(prioQueue) && dispatched == old(dispatched) && device == old(device)
      ensures rq.Some? ==> dispatched == old(dispatched) + [rq.value] && device == old(device) + [rq.value]
      ensures rq.Some? ==> PqTaken(old(prioQueue), prioQueue, rq.value)
      ensures old(Queued()) == Queued() + (if rq.Some? then multiset{rq.value} else multiset{})
      ensures old(Ordered()) ==> Ordered()
    {
      hide Page, BooksIn, InTree, TreesOk, PqBits, TreeBits, PageBits, BarrierBit, DrivenIn, WaitingIn, MainIn,
           OrderedIn, RankSpec, QueuedIn, PqTaken;
      ghost var pq, state0 := prioQueue, state;
      rq := PopPq();
      if rq.Some? {
        BitsAfterPq(state0, state, dlTree, barrierQueue, batchQueue, bqState);
        BooksPq(Past(), pq, prioQueue, rq.value, batchQueue, Waiting(), inFlight);
        PqStep(order, pq, prioQueue, MainIn(dlTree, batchQueue), barrierQueue, dispatched, rq.value);
        Record(rq.value);
      }
    }

    /** The first request of priority queue 1 if it has any, of queue 0 otherwise. */
    method PopPq() returns (rq: Option<Request>)
      requires PqBits(state, prioQueue)
      modifies this`prioQueue, this`state
      ensures PqBits(state, prioQueue) && SameOutside(old(state), state, PQ)
      ensures rq.None? <==> old(prioQueue) == [[], []]
      ensures rq.None? ==> prioQueue == old(prioQueue) && state == old(state)
      ensures rq.Some? ==> PqTaken(old(prioQueue), prioQueue, rq.value)
    {
      var pqIdx := EvalState(PQ) / 2;
      var q := prioQueue[pqIdx];
      if q == [] {
        assert prioQueue == [prioQueue[0], prioQueue[1]];
        return None;
      }
      rq := Some(q[0]);
      prioQueue := prioQueue[pqIdx := q[1..]];
      if prioQueue[pqIdx] == [] {
        SetState(PQ + pqIdx, false);
      }
    }

    /** insert_to_prio_queue: the request counts as in flight from now on. */
    method InsertToPrioQueue(rq: Request, idx: nat)
      requires Shape() && PqBits(state, prioQueue) && idx < 2
      modifies this`inFlight, this`prioQueue, this`state
      ensures Shape() && PqBits(state, prioQueue) && SameOutside(old(state), state, PQ)
      ensures prioQueue == old(prioQueue)[idx := old(prioQueue[idx]) + [rq]]
      ensures inFlight == WordAdd(old(inFlight), Pack(1, rq.predLat))
    {
      hide WordAdd, Pack;
      inFlight := WordAdd(inFlight, Pack(1, rq.predLat));
      var wasEmpty := prioQueue[idx] == [];
      prioQueue := prioQueue[idx := prioQueue[idx] + [rq]];
      if wasEmpty {
        SetState(PQ + idx, true);
      }
    }

    // ----- insertion and release -----

    /** merge_or_insert_to_dl_tree: the block layer decides whether the request merges into another one. */
    method MergeOrInsert(cfg: Config, rq: Request, merge: bool)
      requires |state| == 7 && TreesOk(dlTree) && TreeBits(state, dlTree) && cfg.Valid()
      modifies this`dlTree, this`state, this`merged
      ensures TreesOk(dlTree) && TreeBits(state, dlTree) && SameOutside(old(state), state, DL)
      ensures |dlTree| == 2 && |state| == 7
      ensures merge ==> merged == old(merged) + multiset{rq} && dlTree == old(dlTree)
      ensures !merge ==> merged == old(merged) && OneMore(WaitingIn(dlTree, []), WaitingIn(old(dlTree), []), rq)
      ensures !merge ==> dlTree == WithNew(cfg, old(dlTree), rq)
    {
      hide TreesOk, OneMore, WaitingIn;
      if merge {
        merged := merged + multiset{rq};
        return;
      }
      ghost var dl := dlTree;
      AddToDlTree(cfg, rq);
      WithoutBarrier(dl, dlTree, barrierQueue, rq);
    }

    /** The first half of release_barrier_requests: the head goes to priority queue 1, what follows it up to
        the next barrier is taken out. */
    method TakeBarrier() returns (local: seq<Request>)
      requires Shape() && PqBits(state, prioQueue) && BarrierBit(state, barrierQueue) && barrierQueue != []
      modifies this`inFlight, this`prioQueue, this`state, this`barrierQueue
      ensures Shape() && PqBits(state, prioQueue) && BarrierBit(state, barrierQueue)
      ensures forall j :: BQ <= j < BP || DL <= j < BQ ==> state[j] == old(state[j])
      ensures var head := old(barrierQueue[0]);
              && prioQueue == old(prioQueue)[1 := old(prioQueue[1]) + [head]]
              && old(barrierQueue) == [head] + local + barrierQueue
              && inFlight == WordAdd(old(inFlight), Pack(1, head.predLat))
      ensures forall r :: r in local ==> !IsBarrier(r)
    {
      hide WordAdd, Pack, PqBits;
      var head, n := barrierQueue[0], 1;
      InsertToPrioQueue(head, 1);
      while n < |barrierQueue| && !IsBarrier(barrierQueue[n])
        invariant 1 <= n <= |barrierQueue| && forall k :: 1 <= k < n ==> !IsBarrier(barrierQueue[k])
      {
        n := n + 1;
      }
      local := barrierQueue[1..n];
      UpToBarrier(barrierQueue, n);
      barrierQueue := barrierQueue[n..];
      ghost var state0 := state;
      if barrierQueue == [] {
        SetState(BP, false);
      }
      BitsPq(state0, state, prioQueue);
    }

    /** The second half: the requests taken out settle in the trees, or merge. */
    method SettleAll(cfg: Config, local: seq<Request>, merges: nat -> bool)
      requires Shape() && Bits() && TreesOk(dlTree) && cfg.Valid()
      requires BooksIn(Past(), Driven(), WaitingIn(dlTree, local + barrierQueue), inFlight)
      modifies this`dlTree, this`state, this`merged
      ensures Valid() && Settled(old(dlTree), dlTree, old(merged), merged, local)
      ensures dlTree == SettledTrees(cfg, old(dlTree), local, merges)
    {
      hide PqBits, TreeBits, PageBits, BarrierBit, TreesOk, BooksIn, Page, WaitingIn, DrivenIn, OneMore, Settled,
           WithNew;
      ghost var dl, m := dlTree, merged;
      NothingSettled(dlTree, merged, local);
      assert local[0..] == local;
      for k := 0 to |local|
        invariant Shape() && Bits() && TreesOk(dlTree)
        invariant BooksIn(Past(), Driven(), WaitingIn(dlTree, local[k..] + barrierQueue), inFlight)
        invariant Settled(dl, dlTree, m, merged, local[..k])
        invariant dlTree == SettledTrees(cfg, dl, local[..k], merges)
      {
        SettledStep(cfg, dl, local, k, merges);
        ghost var state1, dl1, m1 := state, dlTree, merged;
        MergeOrInsert(cfg, local[k], merges(local[k].id));
        BitsAfterTree(state1, state, prioQueue, barrierQueue, batchQueue, bqState);
        BooksSettle(Past().(merged := m1), Driven(), dl1, dlTree, merged, local[k], local[k..], barrierQueue, inFlight);
        MoreSettled(dl, dl1, dlTree, m, m1, merged, local[..k], local[k]);
        assert local[..k + 1] == local[..k] + [local[k]];
      }
      assert local[|local|..] + barrierQueue == barrierQueue && local[..|local|] == local;
    }

    /** release_barrier_requests: the barrier at the head goes to priority queue 1, the requests behind it,
        up to the next barrier, settle in the trees. */
    method Release(cfg: Config, merges: nat -> bool) returns (released: bool, ghost local: seq<Request>)
      requires Valid() && cfg.Valid()
      modifies this`inFlight, this`prioQueue, this`state, this`barrierQueue, this`dlTree, this`merged
      ensures Valid() && (released <==> old(barrierQueue) != [])
      ensures !released ==>
              prioQueue == old(prioQueue) && barrierQueue == [] && dlTree == old(dlTree) && merged == old(merged)
      ensures released ==> prioQueue == old(prioQueue)[1 := old(prioQueue[1]) + [old(barrierQueue[0])]]
      ensures released ==> old(barrierQueue) == [old(barrierQueue[0])] + local + barrierQueue
      ensures released ==> forall r :: r in local ==> !IsBarrier(r)
      ensures released ==> Settled(old(dlTree), dlTree, old(merged), merged, local)
      ensures released ==> dlTree == SettledTrees(cfg, old(dlTree), local, merges)
      ensures released && barrierQueue != [] ==> IsBarrier(barrierQueue[0])
    {
      hide WordAdd, Pack, PqBits, TreeBits, PageBits, BarrierBit, TreesOk, BooksIn, Page, WaitingIn, DrivenIn, OneMore,
           Settled;
      local := [];
      if barrierQueue == [] {
        return false, local;
      }
      HeadIsBarrier(state, barrierQueue);
      ghost var state0 := state;
      var taken := TakeBarrier();
      local := taken;
      BitsAfterTake(state0, state, dlTree, batchQueue, bqState);
      BooksTake(Past(), old(prioQueue), batchQueue, dlTree, old(barrierQueue), taken, barrierQueue, old(inFlight));
      assert taken[0..] == taken;
      SettleAll(cfg, taken, merges);
      if barrierQueue != [] { HeadIsBarrier(state, barrierQueue); }
      released := true;
    }

    /** adios_dispatch_request up to the barriers: the priority queues, then trees and batch pages. */
    method DispatchActive(cfg: Config, direction: bool) returns (rq: Option<Request>)
      requires Valid() && cfg.Valid()
      modifies this`dlTree, this`state, this`dlBias, this`batchQueue, this`bqState, this`batchCount, this`bqElevator,
               this`inFlight, this`wordKept, this`bqPage, this`dispatched, this`device, this`prioQueue
      ensures old(wordKept) && SmallBatches(cfg) ==> wordKept
      ensures Valid()
      ensures rq.None? <==> old(NoneActive(prioQueue, dlTree, batchQueue))
      ensures rq.None? ==> prioQueue == [[], []] && dispatched == old(dispatched) && device == old(device)
      ensures rq.None? ==>
              MainIn(dlTree, batchQueue) == multiset{} && old(Queued()) == Queued() == multiset(barrierQueue)
      ensures var next := old(ActiveNext(prioQueue, batchQueue, bqPage, bqElevator, direction));
              next.Some? ==> rq == next
      ensures rq.Some? ==> dispatched == old(dispatched) + [rq.value] && device == old(device) + [rq.value]
      ensures rq.Some? ==> old(Queued()) == Queued() + multiset{rq.value}
      ensures old(Ordered()) ==> Ordered()
    {
      hide Valid, Ordered, MainIn, SmallBatches, PageNext, Queued, NoneActive, ActiveNext, PqTaken;
      ValidShape();
      PqFirst(prioQueue, dlTree, batchQueue, bqPage, bqElevator, direction);
      rq := DispatchFromPq();
      ValidShape();
      if rq.Some? {
        return;
      }
      rq := DispatchFromBq(cfg, direction);
      ValidShape();
      if rq.None? {
        ActiveEmpty();
      }
    }

    lemma ActiveEmpty()
      requires Shape() && prioQueue == [[], []] && MainIn(dlTree, batchQueue) == multiset{}
      ensures Queued() == multiset(barrierQueue)
    {
      hide MainIn;
    }

    lemma ValidShape()
      requires Valid()
      ensures Shape() && |state| == 7 && |dlTree| == |batchQueue| == |prioQueue| == 2
              && (state[BP] <==> barrierQueue != [])
    {
      BarrierFlag(state, barrierQueue);
    }

    /** adios_dispatch_request. It returns nothing exactly when nothing is queued. After a release the
        retry finds the barrier at once. */
    method Dispatch(cfg: Config, direction: bool, merges: nat -> bool) returns (rq: Option<Request>)
      requires Valid() && cfg.Valid()
      modifies this`dlTree, this`state, this`dlBias, this`batchQueue, this`bqState, this`batchCount, this`bqElevator,
               this`inFlight, this`wordKept, this`bqPage, this`dispatched, this`device, this`prioQueue,
                   this`barrierQueue, this`merged, this`order
      ensures old(wordKept) && SmallBatches(cfg) ==> wordKept
      ensures Valid()
      ensures rq.None? <==> old(Queued()) == multiset{}
      ensures old(NoneActive(prioQueue, dlTree, batchQueue) && barrierQueue != []) ==> rq == Some(old(barrierQueue[0]))
      ensures var next := old(ActiveNext(prioQueue, batchQueue, bqPage, bqElevator, direction));
              next.Some? ==> rq == next
      ensures rq.None? ==> dispatched == old(dispatched) && device == old(device)
      ensures rq.None? ==> Queued() == multiset{} && merged == old(merged)
      ensures rq.Some? ==> dispatched == old(dispatched) + [rq.value] && device == old(device) + [rq.value]
      ensures rq.Some? ==>
              old(Queued()) + old(merged) == Queued() + merged + multiset{rq.value} && old(merged) <= merged
      ensures old(Ordered()) ==> Ordered()
    {
      hide Valid, Ordered, MainIn, Queued, ActiveNext, Shape, SmallBatches, NoneActive;
      ValidShape();
      rq := DispatchActive(cfg, direction);
      ValidShape();
      if rq.Some? {
        return;
      }
      if state[BP] {
        rq := ReleaseAndDispatch(cfg, merges);
      }
    }

    /** The part of adios_dispatch_request that is reached when all active queues are empty. */
    method ReleaseAndDispatch(cfg: Config, merges: nat -> bool) returns (rq: Option<Request>)
      requires Valid() && cfg.Valid() && prioQueue == [[], []] && MainIn(dlTree, batchQueue) == multiset{}
               && barrierQueue != []
      modifies this`inFlight, this`prioQueue, this`state, this`barrierQueue, this`dlTree, this`merged, this`dispatched,
               this`device, this`order
      ensures Valid() && rq == Some(old(barrierQueue[0]))
      ensures dispatched == old(dispatched) + [rq.value] && device == old(device) + [rq.value]
      ensures old(Queued()) + old(merged) == Queued() + merged + multiset{rq.value} && old(merged) <= merged
      ensures old(Ordered()) ==> Ordered()
    {
      hide PqBits, TreeBits, PageBits, BarrierBit, TreesOk, BooksIn, Page, InTree, WaitingIn, DrivenIn, MainIn,
           OrderedIn, RankSpec;
      ghost var local := ReleaseInOrder(cfg, merges);
      ghost var pq, main := prioQueue, MainIn(dlTree, batchQueue);
      rq := DispatchFromPq();
      ReleasedAll(old(barrierQueue), local, barrierQueue, pq, prioQueue, main, old(merged), merged, rq.value);
    }

    /** The release, and what it means for the order of barriers. */
    method ReleaseInOrder(cfg: Config, merges: nat -> bool) returns (ghost local: seq<Request>)
      requires Valid() && cfg.Valid() && prioQueue == [[], []] && MainIn(dlTree, batchQueue) == multiset{}
               && barrierQueue != []
      modifies this`inFlight, this`prioQueue, this`state, this`barrierQueue, this`dlTree, this`merged, this`order
      ensures Valid() && prioQueue == [[], [old(barrierQueue[0])]]
      ensures old(barrierQueue) == [old(barrierQueue[0])] + local + barrierQueue
      ensures MainIn(dlTree, batchQueue) + merged == old(merged) + multiset(local) && old(merged) <= merged
      ensures old(Ordered()) ==> Ordered()
    {
      hide PqBits, TreeBits, PageBits, BarrierBit, TreesOk, BooksIn, Page, InTree, WaitingIn, DrivenIn, MainIn, Settled,
           OrderedIn, RankSpec;
      ghost var barrier, m, dl, o := barrierQueue, merged, dlTree, order;
      var released;
      released, local := Release(cfg, merges);
      MainSettled(dl, dlTree, batchQueue, m, merged, local);
      if barrierQueue != [] { HeadIsBarrier(state, barrierQueue); }
      assert old(prioQueue)[1] + [barrier[0]] == [barrier[0]];
      assert prioQueue == [[], [barrier[0]]];
      ReleaseStep(o, barrier, local, barrierQueue, MainIn(dlTree, batchQueue), dispatched);
      RankLevel(o, o.(level := o.level + 2), inserted);
      order := order.(level := order.level + 2);
    }

    /** A history begins anew while the scheduler is idle; what was inserted before, even before the models
        were stable, no longer matters for the order of barriers. */
    ghost method BeginHistory()
      requires Valid() && Queued() == multiset{} && device == []
      modifies this`inserted, this`dispatched, this`merged, this`completed, this`order
      ensures Valid() && Ordered() && inserted == dispatched == [] && Queued() == merged == completed == multiset{}
    {
      hide Page, InTree, PqBits, TreeBits, PageBits, BarrierBit, TreesOk, BooksIn, OrderedIn, RankSpec, DrivenIn,
           WaitingIn, QueuedIn, MainIn;
      NothingIn(prioQueue, dlTree, batchQueue, barrierQueue, device);
      BooksAnew(Past(), Driven(), Waiting(), inFlight);
      inserted, dispatched, merged, completed, order := [], [], multiset{}, multiset{}, Order(map[], 0, 0);
      OrderedInitially(prioQueue);
    }

    /** adios_has_work: some bit of the state word is set. */
    method HasWork() returns (work: bool)
      requires Valid()
      ensures work <==> Queued() != multiset{}
    {
      hide TreesOk, BooksIn, Page, InTree, WaitingIn, DrivenIn;
      work := state != [false, false, false, false, false, false, false];
      SomeBit(state, prioQueue, dlTree, batchQueue, bqState, barrierQueue);
    }

    /** The request is known from now on, and has its place between the barriers. */
    ghost method Enter(rq: Request)
      modifies this`inserted, this`order
      ensures inserted == old(inserted) + [rq] && order == Entered(old(order), rq)
    {
      inserted, order := inserted + [rq], Entered(order, rq);
    }

    /** adios_insert_requests for one request. `merge` is the decision of the block layer, `stable` tells
        whether both latency models have a base by now. */
    method InsertRequest(cfg: Config, rq: Request, atHead: bool, merge: bool, stable: bool)
      requires Valid() && cfg.Valid() && rq !in inserted
      modifies this`inFlight, this`prioQueue, this`state, this`barrierQueue, this`dlTree, this`merged, this`inserted,
               this`order, this`modelsStable
      ensures Valid() && inserted == old(inserted) + [rq]
      ensures modelsStable <==> old(modelsStable) || stable
      ensures merged == old(merged) + (if old(Merges(rq, atHead, merge)) then multiset{rq} else multiset{})
      ensures Queued() == old(Queued()) + (if old(Merges(rq, atHead, merge)) then multiset{} else multiset{rq})
      ensures old(modelsStable) && !atHead && old(Ordered()) ==> Ordered()
    {
      hide Valid, Ordered, Queued;
      if modelsStable {
        InsertPostStability(cfg, rq, atHead, merge);
      } else {
        InsertPreStability(rq, atHead, stable);
      }
    }

    /** Whether the insertion ends in a merge: only a request on its way to the trees can. */
    ghost predicate Merges(rq: Request, atHead: bool, merge: bool)
      requires Shape()
      reads this
    {
      modelsStable && !atHead && merge && !state[BP] && !IsBarrier(rq)
    }

    /** insert_request_pre_stability */
    method InsertPreStability(rq: Request, atHead: bool, stable: bool)
      requires Valid() && rq !in inserted
      modifies this`inFlight, this`prioQueue, this`state, this`inserted, this`order, this`modelsStable
      ensures Valid() && inserted == old(inserted) + [rq] && Queued() == old(Queued()) + multiset{rq}
      ensures modelsStable <==> old(modelsStable) || stable
      ensures prioQueue == var i := if atHead then 0 else 1; old(prioQueue)[i := old(prioQueue[i]) + [rq]]
    {
      hide Page, BooksIn, TreesOk, PqBits, TreeBits, PageBits, BarrierBit, DrivenIn, WaitingIn, MainIn, QueuedIn;
      ToPrioQueue(rq, if atHead then 0 else 1);
      if stable {
        modelsStable := true;
      }
    }

    /** A new request into a priority queue. */
    method ToPrioQueue(rq: Request, idx: nat)
      requires Valid() && rq !in inserted && idx < 2
      modifies this`inFlight, this`prioQueue, this`state, this`inserted, this`order
      ensures Valid() && inserted == old(inserted) + [rq] && Queued() == old(Queued()) + multiset{rq}
      ensures prioQueue == old(prioQueue)[idx := old(prioQueue[idx]) + [rq]]
    {
      hide Page, BooksIn, InTree, TreesOk, PqBits, TreeBits, PageBits, BarrierBit, DrivenIn, WaitingIn, MainIn,
           QueuedIn, Pack, WordAdd;
      ghost var pq, state0 := prioQueue, state;
      InsertToPrioQueue(rq, idx);
      BitsAfterPq(state0, state, dlTree, barrierQueue, batchQueue, bqState);
      BooksNewDriven(Past(), pq, idx, batchQueue, Waiting(), old(inFlight), rq);
      QueuedMore(pq, idx, MainIn(dlTree, batchQueue), barrierQueue, rq);
      Enter(rq);
    }

    /** insert_request_post_stability: behind a pending barrier everything but requests at the head waits. */
    method InsertPostStability(cfg: Config, rq: Request, atHead: bool, merge: bool)
      requires Valid() && cfg.Valid() && rq !in inserted && modelsStable
      modifies this`inFlight, this`prioQueue, this`state, this`barrierQueue, this`dlTree, this`merged, this`inserted,
               this`order
      ensures Valid() && inserted == old(inserted) + [rq]
      ensures merged == old(merged) + (if old(Merges(rq, atHead, merge)) then multiset{rq} else multiset{})
      ensures Queued() == old(Queued()) + (if old(Merges(rq, atHead, merge)) then multiset{} else multiset{rq})
      ensures !atHead && old(Ordered()) ==> Ordered()
      ensures var behind := !atHead && (old(barrierQueue) != [] || IsBarrier(rq));
              && prioQueue == (if atHead then [old(prioQueue[0]) + [rq], old(prioQueue[1])] else old(prioQueue))
              && barrierQueue == old(barrierQueue) + (if behind then [rq] else [])
              && dlTree == if atHead || behind || merge then old(dlTree) else WithNew(cfg, old(dlTree), rq)
    {
      hide Valid, Ordered, Queued, WithNew;
      ValidShape();
      if atHead {
        ToPrioQueue(rq, 0);
        return;
      }
      if state[BP] || IsBarrier(rq) {
        ToBarrierQueue(rq);
      } else {
        ToTree(cfg, rq, merge);
      }
    }

    /** A new request to the tail of the barrier queue. */
    method ToBarrierQueue(rq: Request)
      requires Valid() && rq !in inserted && Shape() && (state[BP] || IsBarrier(rq))
      modifies this`state, this`barrierQueue, this`inserted, this`order
      ensures Valid() && inserted == old(inserted) + [rq] && Queued() == old(Queued()) + multiset{rq}
      ensures old(Ordered()) ==> Ordered()
      ensures barrierQueue == old(barrierQueue) + [rq]
    {
      hide Page, BooksIn, InTree, TreesOk, PqBits, TreeBits, PageBits, DrivenIn, WaitingIn, MainIn, QueuedIn, OrderedIn,
           RankSpec;
      ghost var barrier, state0, o := barrierQueue, state, order;
      if IsBarrier(rq) {
        SetState(BP, true);
      }
      barrierQueue := barrierQueue + [rq];
      BitsBelow(state0, state, prioQueue, dlTree, batchQueue, bqState);
      WaitingBehind(dlTree, barrier, rq);
      BooksNewWaiting(Past(), Driven(), WaitingIn(dlTree, barrier), Waiting(), inFlight, rq);
      QueuedBehind(prioQueue, MainIn(dlTree, batchQueue), barrier, rq);
      RankMore(order, inserted, rq);
      Unknown(old(Past()), prioQueue, dlTree, batchQueue, barrier, inFlight, rq);
      BarrierMore(order, prioQueue, MainIn(dlTree, batchQueue), barrier, dispatched, rq);
      Enter(rq);
    }

    /** A new request to its tree, or merged. */
    method ToTree(cfg: Config, rq: Request, merge: bool)
      requires Valid() && cfg.Valid() && rq !in inserted && Shape() && !state[BP] && !IsBarrier(rq)
      modifies this`state, this`dlTree, this`merged, this`inserted, this`order
      ensures Valid() && inserted == old(inserted) + [rq]
      ensures merged == old(merged) + (if merge then multiset{rq} else multiset{})
      ensures Queued() == old(Queued()) + (if merge then multiset{} else multiset{rq})
      ensures old(Ordered()) ==> Ordered()
      ensures dlTree == if merge then old(dlTree) else WithNew(cfg, old(dlTree), rq)
    {
      hide WithNew;
      hide Page, BooksIn, InTree, TreesOk, PqBits, TreeBits, PageBits, BarrierBit, DrivenIn, WaitingIn, MainIn,
           QueuedIn, OrderedIn, RankSpec;
      ghost var dl, state0, h, main := dlTree, state, Past(), MainIn(dlTree, batchQueue);
      BarrierFlag(state, barrierQueue);
      MergeOrInsert(cfg, rq, merge);
      BitsAfterTree(state0, state, prioQueue, barrierQueue, batchQueue, bqState);
      BooksNewInTree(h, Driven(), dl, dlTree, merged, barrierQueue, inFlight, rq, merge);
      MainMore(dl, dlTree, batchQueue, rq, merge);
      QueuedInMain(prioQueue, main, MainIn(dlTree, batchQueue), barrierQueue, if merge then multiset{}
                   else multiset{rq});
      RankMore(order, inserted, rq);
      Unknown(h, prioQueue, dl, batchQueue, barrierQueue, inFlight, rq);
      MainEntered(order, prioQueue, main, MainIn(dlTree, batchQueue), dispatched, rq);
      Enter(rq);
    }

    // ----- merges and completion -----

    /** adios_request_merged: after a merge the request takes its place in the tree anew. */
    method RequestMerged(cfg: Config, i: nat, k: nat)
      requires Valid() && cfg.Valid() && i < 2 && k < |Flatten(dlTree[i])|
      modifies this`dlTree, this`state
      ensures Valid() && Queued() == old(Queued())
      ensures old(Ordered()) ==> Ordered()
      ensures Replaced(cfg, old(dlTree), dlTree, i, k)
    {
      hide Page, BooksIn, InTree, PqBits, TreeBits, PageBits, BarrierBit, DrivenIn, WaitingIn, QueuedIn, OrderedIn,
           RankSpec, OneMore, OnlyOf;
      hide WithNew;
      ghost var dl0, state0 := dlTree, state;
      var rq := Flatten(dlTree[i])[k].rq;
      DelFromDlTree(i, k);
      ghost var dl1 := dlTree;
      AddToDlTree(cfg, rq);
      BitsAfterTree(state0, state, prioQueue, barrierQueue, batchQueue, bqState);
      BooksMoved(Past(), Driven(), dl0, dl1, dlTree, barrierQueue, inFlight, rq);
      MainMovedInTree(dl0, dl1, dlTree, batchQueue, barrierQueue, rq);
    }

    /** adios_merged_requests: the request has been merged into another one. */
    method MergedRequests(i: nat, k: nat)
      requires Valid() && i < 2 && k < |Flatten(dlTree[i])|
      modifies this`dlTree, this`state, this`merged
      ensures Valid() && merged == old(merged) + multiset{old(Flatten(dlTree[i])[k].rq)}
      ensures old(Queued()) == Queued() + multiset{old(Flatten(dlTree[i])[k].rq)}
      ensures dlTree == Dropped(old(dlTree), i, k)
      ensures old(Ordered()) ==> Ordered()
    {
      hide Page, BooksIn, InTree, PqBits, TreeBits, PageBits, BarrierBit, DrivenIn, WaitingIn, QueuedIn, OrderedIn,
           RankSpec, OneMore, OnlyOf;
      ghost var dl0, state0, h, main := dlTree, state, Past(), MainIn(dlTree, batchQueue);
      ghost var rq := Flatten(dlTree[i])[k].rq;
      DelFromDlTree(i, k);
      merged := merged + multiset{rq};
      BitsAfterTree(state0, state, prioQueue, barrierQueue, batchQueue, bqState);
      BooksMerged(h, Driven(), WaitingIn(dl0, barrierQueue), Waiting(), inFlight, rq);
      MainLess(dl0, dlTree, batchQueue, barrierQueue, rq);
      QueuedInMain(prioQueue, MainIn(dlTree, batchQueue), main, barrierQueue, multiset{rq});
      SmallerMain(order, prioQueue, main, MainIn(dlTree, batchQueue), barrierQueue, dispatched, rq);
    }

    /** adios_bio_merge: refused while a barrier is pending. The block layer names the request a bio is
        merged into, if there is one, and whether the lock was free. */
    method BioMerge(cfg: Config, free: bool, target: Option<(nat, nat)>) returns (ret: bool)
      requires Valid() && cfg.Valid()
      requires target.Some? ==> target.value.0 < 2 && target.value.1 < |Flatten(dlTree[target.value.0])|
      modifies this`dlTree, this`state
      ensures Valid() && Queued() == old(Queued())
      ensures ret <==> barrierQueue == [] && free && target.Some?
      ensures !ret ==> dlTree == old(dlTree) && state == old(state)
      ensures ret ==> Replaced(cfg, old(dlTree), dlTree, target.value.0, target.value.1)
      ensures old(Ordered()) ==> Ordered()
    {
      hide Valid, Ordered, Queued, Flatten, Replaced;
      ValidShape();
      if state[BP] {
        return false;
      }
      if !free {
        return false;
      }
      if target.Some? {
        RequestMerged(cfg, target.value.0, target.value.1);
      }
      ret := target.Some?;
    }

    /** adios_completed_request: the request no longer counts as in flight. */
    method Completed(ghost k: nat, rq: Request)
      requires Valid() && k < |device| && device[k] == rq
      modifies this`inFlight, this`device, this`completed
      ensures Valid() && completed == old(completed) + multiset{rq} && device == old(device)[..k] + old(device)[k + 1..]
      ensures Queued() == old(Queued()) && (old(Ordered()) ==> Ordered())
      ensures wordKept && Fits(|Driven()|, Lat(Driven())) ==>
              CountOf(inFlight) == |Driven()| && TotalOf(inFlight) == Lat(Driven())
    {
      hide Page, BooksIn, InTree, PqBits, TreeBits, PageBits, BarrierBit, DrivenIn, WaitingIn, QueuedIn, OrderedIn,
           RankSpec, Pack, WordSub, Lat;
      hide CountOf, TotalOf, MainIn;
      ghost var h := Past();
      inFlight := WordSub(inFlight, Pack(1, rq.predLat));
      device, completed := device[..k] + device[k + 1..], completed + multiset{rq};
      BooksCompleted(h, prioQueue, batchQueue, Waiting(), old(inFlight), k);
      if wordKept && Fits(|Driven()|, Lat(Driven())) { BooksExact(Past(), Driven(), Waiting(), inFlight); }
    }
  }

  /** A request taken against the order of deadlines moves the bias towards the other tree, by its
      weighted latency; one without a prediction turns it over. */
  function NewBias(cfg: Config, bias: int, predLat: nat): (b: int)
    requires cfg.Valid()
    ensures bias >= 0 && predLat > 0 ==> b <= bias
    ensures bias < 0 && predLat > 0 ==> bias <= b
    ensures predLat == 0 ==> (b < 0 <==> bias >= 0)
  {
    var biasIdx := if bias < 0 then 1 else 0;
    var sign := 2 * biasIdx - 1;
    if predLat == 0 then sign
    else
      Weighted(predLat, cfg.biasWeight[biasIdx]);
      bias + sign * (predLat * cfg.biasWeight[biasIdx] / 1024)
  }

  lemma Weighted(a: nat, w: nat)
    ensures 0 <= a * w / 1024
  {
  }

  /** Batch queues hold one operation type each; with elevator order queue 1 is the one that is sorted,
      and only requests of other types are kept apart. */
  ghost predicate Placed(elevator: bool, q: seq<seq<Request>>) {
    |q| == OPTYPES && forall k :: 0 <= k < OPTYPES ==> PlacedIn(elevator, q[k], k)
  }

  ghost predicate PlacedIn(elevator: bool, s: seq<Request>, k: nat) {
    forall r :: r in s ==> if elevator then k != 2 && (OpType(r) == OTHER <==> k == 3) else OpType(r) == k
  }

  /** The request to pop: the head of the first queue that has any; of the sorted queue, on demand, its tail. */
  function NextOf(q: seq<seq<Request>>, fromTail: bool): Option<Request> {
    var k := FirstQueue(q);
    if k == |q| then None else Some(if k == 1 && fromTail then q[k][|q[k]| - 1] else q[k][0])
  }

  lemma StillPlaced(elevator: bool, q: seq<seq<Request>>, k: nat, r: Request)
    requires |q| == OPTYPES && k < OPTYPES
    requires if elevator then k != 2 && (OpType(r) == OTHER <==> k == 3) else OpType(r) == k
    ensures Placed(elevator, q) ==> Placed(elevator, q[k := q[k] + [r]])
  {
  }

  lemma PlacedSorted(elevator: bool, q: seq<seq<Request>>, s: seq<Request>)
    requires |q| == OPTYPES && multiset(s) == multiset(q[1])
    ensures Placed(elevator, q) ==> Placed(elevator, q[1 := s])
  {
    forall r | r in s ensures r in q[1] {
      assert r in multiset(s);
    }
  }

  lemma PlacedEmpty(elevator: bool, q: seq<seq<Request>>)
    requires |q| == OPTYPES && Page(q) == []
    ensures Placed(elevator, q)
  {
    PageEmpty(q);
  }

  /** The first queue that holds requests. */
  function FirstQueue(q: seq<seq<Request>>): (k: nat)
    ensures k <= |q| && (k < |q| ==> q[k] != []) && forall j :: 0 <= j < k ==> q[j] == []
  {
    if q == [] || q[0] != [] then 0
    else
      assert forall j :: 1 <= j < |q| ==> q[j] == q[1..][j - 1];
      1 + FirstQueue(q[1..])
  }

  // ----- the state as values -----

  function NoQueues(): seq<seq<Request>> { [[], [], [], []] }

  function NoBits(): seq<bool> { [false, false, false, false] }

  function NoCounts(): seq<nat> { [0, 0, 0, 0] }

  lemma Initially(pq: seq<seq<Request>>, dl: seq<seq<Group>>, state: seq<bool>, bq: seq<seq<seq<Request>>>,
                  bits: seq<seq<bool>>)
    requires pq == [[], []] && dl == [[], []] && state == [false, false, false, false, false, false, false]
    requires bq == [NoQueues(), NoQueues()] && bits == [NoBits(), NoBits()]
    ensures PqBits(state, pq) && TreeBits(state, dl) && PageBits(state, bq, bits) && BarrierBit(state, [])
    ensures TreesOk(dl) && DrivenIn(pq, bq, []) == [] && WaitingIn(dl, []) == [] && MainIn(dl, bq) == multiset{}
    ensures |NoQueues()| == |NoBits()| == |NoCounts()| == OPTYPES
    ensures Lat([]) == 0 && Word(0, 0) == 0
  {
    hide NoQueues, NoBits, NoCounts, QueueBits, Page;
    EmptyPage();
  }

  lemma OrderedInitially(pq: seq<seq<Request>>)
    requires pq == [[], []]
    ensures RankSpec(Order(map[], 0, 0), []) && OrderedIn(Order(map[], 0, 0), pq, multiset{}, [], [])
  {
  }

  lemma NothingIn(pq: seq<seq<Request>>, dl: seq<seq<Group>>, bq: seq<seq<seq<Request>>>, barrier: seq<Request>,
                  device: seq<Request>)
    requires |pq| == |dl| == |bq| == 2 && QueuedIn(pq, MainIn(dl, bq), barrier) == multiset{} && device == []
    ensures pq == [[], []] && barrier == [] && MainIn(dl, bq) == multiset{}
    ensures DrivenIn(pq, bq, device) == [] && WaitingIn(dl, barrier) == []
  {
    hide Page, InTree;
    NoMember(pq[0]); NoMember(pq[1]); NoMember(barrier);
    NoMember(Page(bq[0])); NoMember(Page(bq[1])); NoMember(InTree(dl[0])); NoMember(InTree(dl[1]));
  }

  lemma BooksAnew(h: History, driven: seq<Request>, waiting: seq<Request>, inFlight: nat)
    requires BooksIn(h, driven, waiting, inFlight) && driven == waiting == h.device == []
    ensures BooksIn(History([], [], [], multiset{}, multiset{}, h.kept), driven, waiting, inFlight)
  {
  }

  lemma NoMember(s: seq<Request>)
    ensures multiset(s) == multiset{} ==> s == []
  {
    assert |multiset(s)| == |s|;
  }

  lemma EmptyPage()
    ensures |NoQueues()| == |NoBits()| == |NoCounts()| == OPTYPES
    ensures Page(NoQueues()) == [] && QueueBits(NoQueues(), NoBits())
  {
    PageEmpty(NoQueues());
  }

  ghost predicate PagesShape(bq: seq<seq<seq<Request>>>, bits: seq<seq<bool>>) {
    && |bq| == 2 && |bq[0]| == OPTYPES && |bq[1]| == OPTYPES
    && |bits| == 2 && |bits[0]| == OPTYPES && |bits[1]| == OPTYPES
  }

  ghost predicate PqBits(state: seq<bool>, pq: seq<seq<Request>>) {
    |state| == 7 && |pq| == 2 && (state[PQ] <==> pq[0] != []) && (state[PQ + 1] <==> pq[1] != [])
  }

  ghost predicate TreeBits(state: seq<bool>, dl: seq<seq<Group>>) {
    |state| == 7 && |dl| == 2 && (state[DL] <==> dl[0] != []) && (state[DL + 1] <==> dl[1] != [])
  }

  ghost predicate PageBits(state: seq<bool>, bq: seq<seq<seq<Request>>>, bits: seq<seq<bool>>)
  {
    && |state| == 7 && PagesShape(bq, bits)
    && (state[BQ] <==> Page(bq[0]) != []) && (state[BQ + 1] <==> Page(bq[1]) != [])
    && QueueBits(bq[0], bits[0]) && QueueBits(bq[1], bits[1])
  }

  /** The bits of the queues of one page. */
  ghost predicate QueueBits(q: seq<seq<Request>>, bits: seq<bool>) {
    |q| == |bits| && forall k :: 0 <= k < |q| ==> (bits[k] <==> q[k] != [])
  }

  ghost predicate BarrierBit(state: seq<bool>, barrier: seq<Request>) {
    |state| == 7 && (state[BP] <==> barrier != []) && (barrier != [] ==> IsBarrier(barrier[0]))
  }

  ghost predicate TreesOk(dl: seq<seq<Group>>) {
    |dl| == 2 && TreeOk(dl[0]) && TreeOk(dl[1]) && OnlyOf(dl[0], 0) && OnlyOf(dl[1], 1)
  }

  /** Reads are in tree 0, all others in tree 1. */
  ghost predicate OnlyOf(t: seq<Group>, i: nat) {
    forall r :: r in InTree(t) ==> TreeOf(r) == i
  }

  lemma StillOnlyOf(t: seq<Group>, t2: seq<Group>, i: nat, r: Request)
    requires OnlyOf(t, i)
             && (OneMore(InTree(t), InTree(t2), r) || (TreeOf(r) == i && OneMore(InTree(t2), InTree(t), r)))
    ensures OnlyOf(t2, i)
  {
    hide InTree, OneMore;
    if OneMore(InTree(t), InTree(t2), r) {
      OneMoreFacts(InTree(t), InTree(t2), r);
    } else {
      OneMoreFacts(InTree(t2), InTree(t), r);
    }
  }

  /** Only the two bits from `shift` on may differ. */
  ghost predicate SameOutside(s: seq<bool>, s2: seq<bool>, shift: nat) {
    |s| == |s2| == 7 && forall j :: 0 <= j < 7 && j != shift && j != shift + 1 ==> s2[j] == s[j]
  }

  function DrivenIn(pq: seq<seq<Request>>, bq: seq<seq<seq<Request>>>, device: seq<Request>): seq<Request>
    requires |pq| == 2 && |bq| == 2
  {
    pq[0] + pq[1] + Page(bq[0]) + Page(bq[1]) + device
  }

  function WaitingIn(dl: seq<seq<Group>>, barrier: seq<Request>): seq<Request>
    requires |dl| == 2
  {
    InTree(dl[0]) + InTree(dl[1]) + barrier
  }

  lemma WaitingMore(dl: seq<seq<Group>>, barrier: seq<Request>, i: nat, t: seq<Group>, r: Request)
    requires |dl| == 2 && i < 2 && OneMore(InTree(t), InTree(dl[i]), r)
    ensures OneMore(WaitingIn(dl[i := t], barrier), WaitingIn(dl, barrier), r)
  {
    hide InTree;
  }

  lemma WaitingLess(dl: seq<seq<Group>>, barrier: seq<Request>, i: nat, t: seq<Group>, r: Request)
    requires |dl| == 2 && i < 2 && OneMore(InTree(dl[i]), InTree(t), r)
    ensures OneMore(WaitingIn(dl, barrier), WaitingIn(dl[i := t], barrier), r)
  {
    hide InTree;
  }

  /** The packed word holds the exact count and total of what is driven; everything together fits. */
  ghost predicate Accounts(driven: seq<Request>, inFlight: nat) {
    inFlight == Word(|driven|, Lat(driven))
  }

  /** Requests become driven, and are added to the word in one go. */
  lemma AccountsMove(driven: seq<Request>, driven2: seq<Request>, order: seq<Request>, inFlight: nat)
    requires Accounts(driven, inFlight) && multiset(driven2) == multiset(driven) + multiset(order) && |order| < 0x1_0000
    ensures Accounts(driven2, WordAdd(inFlight, Pack(|order|, Lat(order))))
  {
    hide Pack, WordAdd, Word, WordSub, Lat;
    LatPerm(driven2, driven + order);
    LatConcat(driven, order);
    InStep(|driven|, Lat(driven), |order|, Lat(order));
  }

  /** What has happened so far: the ghost fields of the scheduler. `kept` says that no batch was too large for
      the count of the word. */
  datatype History = History(inserted: seq<Request>, dispatched: seq<Request>, device: seq<Request>,
                             merged: multiset<Request>, completed: multiset<Request>, kept: bool)

  /** Every inserted request is in exactly one place. */
  ghost predicate BooksIn(h: History, driven: seq<Request>, waiting: seq<Request>, inFlight: nat) {
    && multiset(h.inserted) == multiset(driven) + multiset(waiting) + h.merged + h.completed
    && multiset(h.dispatched) == multiset(h.device) + h.completed
    && (h.kept ==> Accounts(driven, inFlight))
  }

  lemma BooksMove(h: History, driven: seq<Request>, waiting: seq<Request>, driven2: seq<Request>,
                  waiting2: seq<Request>,
                  order: seq<Request>, inFlight: nat)
    requires BooksIn(h, driven, waiting, inFlight)
    requires multiset(driven2) == multiset(driven) + multiset(order)
             && multiset(waiting) == multiset(order) + multiset(waiting2)
    ensures BooksIn(h.(kept := h.kept && |order| < 0x1_0000), driven2, waiting2,
                    WordAdd(inFlight, Pack(|order|, Lat(order))))
  {
    hide Accounts, WordAdd, Pack, Lat;
    if h.kept && |order| < 0x1_0000 { AccountsMove(driven, driven2, order, inFlight); }
    assert multiset(driven2) + multiset(waiting2) == multiset(driven) + multiset(waiting);
  }

  /** The order of what is driven does not matter. */
  lemma AccountsPerm(driven: seq<Request>, driven2: seq<Request>, inFlight: nat)
    requires multiset(driven2) == multiset(driven)
    ensures Accounts(driven, inFlight) ==> Accounts(driven2, inFlight)
  {
    hide Word;
    LatPerm(driven, driven2);
  }

  /** What the two fields of the word say while the totals fit, whatever has happened before. */
  lemma WordIsExact(driven: seq<Request>, inFlight: nat)
    requires Accounts(driven, inFlight) && Fits(|driven|, Lat(driven))
    ensures CountOf(inFlight) == |driven| && TotalOf(inFlight) == Lat(driven)
  {
    hide Word, CountOf, TotalOf;
    Unpack(|driven|, Lat(driven));
  }

  /** The page `q` holds the batch `order` taken from the trees `dl`: a prefix of each tree, within the limits,
      ended by the trees or by a limit, FIFO within each type or in elevator order. The code sorts queue 1 only
      when more than one write was taken, whatever else is in that queue. */
  ghost predicate BackFilled(cfg: Config, dl: seq<seq<Group>>, dl2: seq<seq<Group>>, bias: int, counts: seq<nat>,
                             q: seq<seq<Request>>, tpl: nat, order: seq<Request>)
  {
    && cfg.Valid() && |counts| == |q| == OPTYPES && TreesOk(dl2) && Drained(dl, dl2, order)
       && WithinLimits(cfg, tpl, order)
    && Stops(cfg, dl2, bias, counts, tpl + Lat(order), |order|) && Placed(cfg.elevator, q)
    && (!cfg.elevator ==> FifoByType(q, order)) && (cfg.elevator && counts[1] > 1 ==> ByPos(q[1]))
  }

  /** Limits below 16384 for each type of operation keep every batch small enough for the count. */
  predicate SmallBatches(cfg: Config)
    requires cfg.Valid()
  {
    forall t :: 0 <= t < OPTYPES ==> cfg.batchLimit[t] < 0x4000
  }

  lemma BatchSize(cfg: Config, dl: seq<seq<Group>>, dl2: seq<seq<Group>>, bias: int, counts: seq<nat>,
                  q: seq<seq<Request>>, tpl: nat,
                  order: seq<Request>)
    requires cfg.Valid() && SmallBatches(cfg) && BackFilled(cfg, dl, dl2, bias, counts, q, tpl, order)
    ensures |order| < 0x1_0000
  {
    hide OfType, Lat, OpType;
    ByTypes(order);
    assert OfType(order, 0) < 0x4000 && OfType(order, 1) < 0x4000 && OfType(order, 2) < 0x4000
        && OfType(order, 3) < 0x4000;
  }

  lemma {:induction false} ByTypes(order: seq<Request>)
    ensures |order| == OfType(order, 0) + OfType(order, 1) + OfType(order, 2) + OfType(order, 3)
  {
    if order != [] { ByTypes(order[..|order| - 1]); }
  }

  /** The parts of what is driven, page 1 - front being the back page. */
  lemma DrivenParts(pq: seq<seq<Request>>, bq: seq<seq<seq<Request>>>, device: seq<Request>, front: nat)
    requires |pq| == 2 && |bq| == 2 && front < 2
    ensures multiset(DrivenIn(pq, bq, device)) ==
            multiset(pq[0]) + multiset(pq[1]) + multiset(Page(bq[front])) + multiset(Page(bq[1 - front]))
                + multiset(device)
  {
    hide Page;
  }

  ghost predicate UsedIn(bq: seq<seq<seq<Request>>>)
    requires |bq| == 2
  {
    Page(bq[0]) != [] || Page(bq[1]) != []
  }

  /** Nothing but barriers is queued. */
  ghost predicate NoneActive(pq: seq<seq<Request>>, dl: seq<seq<Group>>, bq: seq<seq<seq<Request>>>) {
    pq == [[], []] && |dl| == |bq| == 2 && MainIn(dl, bq) == multiset{}
  }

  /** What a dispatch takes from the priority queues: queue 1 comes first when both have requests. */
  ghost predicate PqTaken(pq: seq<seq<Request>>, pq2: seq<seq<Request>>, rq: Request) {
    && |pq| == 2
    && var i := if pq[1] != [] then 1 else 0;
       pq[i] != [] && rq == pq[i][0] && pq2 == pq[i := pq[i][1..]]
  }

  /** What the batch pages give next, if they have anything. */
  ghost function PageNext(bq: seq<seq<seq<Request>>>, page: nat, elevator: seq<bool>,
                          direction: bool): Option<Request> {
    if |bq| == 2 && page < 2 && |elevator| == 2 && UsedIn(bq)
    then NextOf(bq[FrontOf(bq, page)], elevator[FrontOf(bq, page)] && direction)
    else None
  }

  /** What the active queues give next, unless it has to come from the trees. */
  ghost function ActiveNext(pq: seq<seq<Request>>, bq: seq<seq<seq<Request>>>, page: nat, elevator: seq<bool>,
                            direction: bool):
    Option<Request>
  {
    if |pq| == 2 && pq[1] != [] then Some(pq[1][0]) else if |pq| == 2 && pq[0] != [] then Some(pq[0][0])
    else PageNext(bq, page, elevator, direction)
  }

  ghost function FrontOf(bq: seq<seq<seq<Request>>>, front: nat): (page: nat)
    requires |bq| == 2 && front < 2
    ensures page < 2
  {
    if Page(bq[front]) != [] then front else 1 - front
  }

  lemma PqFirst(pq: seq<seq<Request>>, dl: seq<seq<Group>>, bq: seq<seq<seq<Request>>>, page: nat, elevator: seq<bool>,
                direction: bool)
    requires |pq| == |dl| == |bq| == 2
    ensures NoneActive(pq, dl, bq) <==> pq == [[], []] && MainIn(dl, bq) == multiset{}
    ensures forall pq2, rq :: PqTaken(pq, pq2, rq) ==> ActiveNext(pq, bq, page, elevator, direction) == Some(rq)
    ensures pq == [[], []] ==> ActiveNext(pq, bq, page, elevator, direction) == PageNext(bq, page, elevator, direction)
  {
    hide PageNext, MainIn;
  }

  /** The tree whose turn it is: the other one is empty, or the bias decides. */
  function Turn(dl: seq<seq<Group>>, bias: int): (i: nat)
    requires |dl| == 2
    ensures i < 2 && (dl[0] != [] || dl[1] != [] ==> dl[i] != [])
  {
    if dl[0] != [] && dl[1] != [] then (if bias < 0 then 1 else 0) else if dl[1] != [] then 1 else 0
  }

  /** The bias is to be adjusted: it prefers a later deadline, or the only tree that has requests. */
  ghost predicate AgainstDeadlines(dl: seq<seq<Group>>, bias: int)
    requires TreesOk(dl)
  {
    if dl[0] != [] && dl[1] != [] then First(dl[Turn(dl, bias)]).deadline > First(dl[1 - Turn(dl, bias)]).deadline
    else Turn(dl, bias) == if bias < 0 then 1 else 0
  }

  ghost function BiasAfter(cfg: Config, dl: seq<seq<Group>>, bias: int, predLat: nat): int
    requires cfg.Valid() && TreesOk(dl)
  {
    if AgainstDeadlines(dl, bias) then NewBias(cfg, bias, predLat) else bias
  }

  /** A batch that has requests already takes one more. */
  predicate Admits(cfg: Config, counts: seq<nat>, lat: nat, rq: Request)
    requires cfg.Valid() && |counts| == OPTYPES
  {
    cfg.hasBase[OpType(rq)] && counts[OpType(rq)] < cfg.batchLimit[OpType(rq)] && lat + rq.predLat <= cfg.window
  }

  /** A batch ends where the trees do, or where the next request would break a limit. */
  ghost predicate Stops(cfg: Config, dl: seq<seq<Group>>, bias: int, counts: seq<nat>, lat: nat, count: nat)
    requires cfg.Valid() && |counts| == OPTYPES && TreesOk(dl)
  {
    dl[0] == dl[1] == [] || (count > 0 && !Admits(cfg, counts, lat, NextInTrees(dl, bias)))
  }

  ghost function NextInTrees(dl: seq<seq<Group>>, bias: int): Request
    requires TreesOk(dl) && (dl[0] != [] || dl[1] != [])
  {
    First(dl[Turn(dl, bias)]).rq
  }

  function Appended(q: seq<seq<Request>>, k: nat, rq: Request): (r: seq<seq<Request>>)
    requires k < |q|
    ensures |r| == |q|
  {
    q[k := q[k] + [rq]]
  }

  /** In elevator order: 0 for what was due when it came, 1 for what may wait, apart from the other types. */
  function Tier(e: Entry): (k: nat)
    ensures k < OPTYPES
  {
    if OpType(e.rq) == OTHER then OTHER else if e.deadline != e.rq.startTime then 1 else 0
  }

  function TypeOnly(s: seq<Request>, t: nat): seq<Request> {
    if s == [] then [] else TypeOnly(s[..|s| - 1], t) + (if OpType(s[|s| - 1]) == t then [s[|s| - 1]] else [])
  }

  /** Each queue of the page holds the requests of its type in the order in which they were taken. */
  ghost predicate FifoByType(q: seq<seq<Request>>, order: seq<Request>) {
    |q| == OPTYPES && forall t :: 0 <= t < OPTYPES ==> q[t] == TypeOnly(order, t)
  }

  lemma FifoEmpty(q: seq<seq<Request>>)
    requires |q| == OPTYPES && Page(q) == []
    ensures FifoByType(q, []) && Counts(NoCounts(), [])
  {
    PageEmpty(q);
  }

  lemma FifoMore(q: seq<seq<Request>>, order: seq<Request>, rq: Request)
    requires FifoByType(q, order)
    ensures FifoByType(Appended(q, OpType(rq), rq), order + [rq])
  {
    assert (order + [rq])[..|order|] == order;
  }

  lemma SomethingTaken(cfg: Config, dl: seq<seq<Group>>, bias: int, counts: seq<nat>, lat: nat, count: nat)
    requires cfg.Valid() && |counts| == OPTYPES && TreesOk(dl) && Stops(cfg, dl, bias, counts, lat, count)
    ensures count == 0 ==> dl[0] == dl[1] == []
  {
  }

  /** The trees with a request at the place its deadline gives it now. */
  function WithNew(cfg: Config, dl: seq<seq<Group>>, rq: Request): (r: seq<seq<Group>>)
    requires cfg.Valid() && |dl| == 2
    ensures |r| == 2 && r[TreeOf(rq)] != [] && r[1 - TreeOf(rq)] == dl[1 - TreeOf(rq)]
  {
    dl[TreeOf(rq) := AddEntry(dl[TreeOf(rq)], Entry(rq, Deadline(cfg, rq)))]
  }

  /** The trees without the entry at place `k` of tree `i`. */
  function Dropped(dl: seq<seq<Group>>, i: nat, k: nat): (r: seq<seq<Group>>)
    requires TreesOk(dl) && i < 2 && k < |Flatten(dl[i])|
    ensures |r| == 2 && r[1 - i] == dl[1 - i]
  {
    dl[i := DropAt(dl[i], k)]
  }

  /** The request at place `k` of tree `i` has left its place for the one its deadline gives it now. */
  ghost predicate Replaced(cfg: Config, dl: seq<seq<Group>>, dl2: seq<seq<Group>>, i: nat, k: nat) {
    && cfg.Valid() && TreesOk(dl) && i < 2 && k < |Flatten(dl[i])|
    && dl2 == WithNew(cfg, Dropped(dl, i, k), Flatten(dl[i])[k].rq)
  }

  /** The trees after the requests of a list have gone there, in their order, but for those that merge. */
  function SettledTrees(cfg: Config, dl: seq<seq<Group>>, local: seq<Request>,
                        merges: nat -> bool): (r: seq<seq<Group>>)
    requires cfg.Valid() && |dl| == 2
    ensures |r| == 2
  {
    if local == [] then dl
    else
      var before := SettledTrees(cfg, dl, local[..|local| - 1], merges);
      var rq := local[|local| - 1];
      if merges(rq.id) then before else WithNew(cfg, before, rq)
  }

  lemma SettledStep(cfg: Config, dl: seq<seq<Group>>, local: seq<Request>, k: nat, merges: nat -> bool)
    requires cfg.Valid() && |dl| == 2 && k < |local|
    ensures SettledTrees(cfg, dl, local[..k + 1], merges) ==
            var before := SettledTrees(cfg, dl, local[..k], merges);
            if merges(local[k].id) then before else WithNew(cfg, before, local[k])
  {
    assert local[..k + 1][..k] == local[..k];
  }

  /** The request of the first entry of tree i has been taken, nothing else. */
  ghost predicate Taken(dl: seq<seq<Group>>, dl2: seq<seq<Group>>, i: nat, rq: Request) {
    && |dl| == |dl2| == 2 && i < 2 && dl2[1 - i] == dl[1 - i]
    && Flatten(dl[i]) != [] && Flatten(dl[i])[0].rq == rq && Flatten(dl2[i]) == Flatten(dl[i])[1..]
  }

  lemma TakenFirst(dl: seq<seq<Group>>, i: nat)
    requires TreesOk(dl) && i < 2 && Flatten(dl[i]) != []
    ensures Taken(dl, dl[i := DropAt(dl[i], 0)], i, Flatten(dl[i])[0].rq)
  {
    hide TreeOk;
    DropAtPlace(dl[i], 0);
  }

  function OfTree(s: seq<Request>, i: nat): seq<Request> {
    if s == [] then [] else OfTree(s[..|s| - 1], i) + (if TreeOf(s[|s| - 1]) == i then [s[|s| - 1]] else [])
  }

  function OfType(s: seq<Request>, t: nat): nat {
    if s == [] then 0 else OfType(s[..|s| - 1], t) + if OpType(s[|s| - 1]) == t then 1 else 0
  }

  /** Each tree has lost a prefix of its order, and these prefixes make up `order`. */
  ghost predicate Drained(dl: seq<seq<Group>>, dl2: seq<seq<Group>>, order: seq<Request>) {
    && |dl| == |dl2| == 2
    && InTree(dl[0]) == OfTree(order, 0) + InTree(dl2[0]) && InTree(dl[1]) == OfTree(order, 1) + InTree(dl2[1])
  }

  /** The limits of a batch; the first request is taken in any case. */
  ghost predicate WithinLimits(cfg: Config, tpl: nat, order: seq<Request>)
    requires cfg.Valid()
  {
    && order != []
    && (|order| > 1 ==> tpl + Lat(order) <= cfg.window)
    && (forall t :: 0 <= t < OPTYPES ==> OfType(order, t) <= cfg.batchLimit[t] || OfType(order, t) == 1)
    && (forall k :: 1 <= k < |order| ==> cfg.hasBase[OpType(order[k])])
  }

  lemma NothingTaken(cfg: Config, dl: seq<seq<Group>>)
    requires |dl| == 2
    ensures Drained(dl, dl, []) && Lat([]) == 0
    ensures forall t :: 0 <= t < OPTYPES ==> NoCounts()[t] == OfType([], t)
  {
    assert OfTree([], 0) == [] && OfTree([], 1) == [];
    assert [] + InTree(dl[0]) == InTree(dl[0]) && [] + InTree(dl[1]) == InTree(dl[1]);
  }

  lemma Moved(order: seq<Request>, waiting: seq<Request>, waiting2: seq<Request>, rq: Request)
    requires OneMore(waiting, waiting2, rq)
    ensures multiset(order + [rq]) + multiset(waiting2) == multiset(order) + multiset(waiting) && |waiting2| < |waiting|
  {
    OneMoreFacts(waiting, waiting2, rq);
  }

  /** What fill_batch_queues has done so far: the batch `order` left the trees `dl0` for the page `q`. */
  ghost predicate Batch(cfg: Config, tpl: nat, dl0: seq<seq<Group>>, dl: seq<seq<Group>>, q: seq<seq<Request>>,
                        counts: seq<nat>,
                        order: seq<Request>)
  {
    && cfg.Valid() && Drained(dl0, dl, order) && (order != [] ==> WithinLimits(cfg, tpl, order))
       && Counts(counts, order)
    && Placed(cfg.elevator, q) && (!cfg.elevator ==> FifoByType(q, order)) && multiset(order) == multiset(Page(q))
    && (order == [] ==> dl == dl0)
  }

  lemma BatchEmpty(cfg: Config, tpl: nat, dl: seq<seq<Group>>, q: seq<seq<Request>>)
    requires cfg.Valid() && |dl| == 2 && |q| == OPTYPES && Page(q) == []
    ensures Batch(cfg, tpl, dl, dl, q, NoCounts(), []) && Lat([]) == 0
  {
    hide Drained, Placed, FifoByType, Counts, WithinLimits;
    PlacedEmpty(cfg.elevator, q);
    FifoEmpty(q);
    NothingTaken(cfg, dl);
  }

  lemma BatchFacts(cfg: Config, tpl: nat, dl0: seq<seq<Group>>, dl: seq<seq<Group>>, q: seq<seq<Request>>,
                   counts: seq<nat>,
                   order: seq<Request>)
    requires Batch(cfg, tpl, dl0, dl, q, counts, order)
    ensures cfg.Valid() && Drained(dl0, dl, order) && (order != [] ==> WithinLimits(cfg, tpl, order))
    ensures Placed(cfg.elevator, q) && (!cfg.elevator ==> FifoByType(q, order)) && multiset(order) == multiset(Page(q))
    ensures order == [] ==> dl == dl0
  {
  }

  lemma BatchPlaced(cfg: Config, tpl: nat, dl0: seq<seq<Group>>, dl: seq<seq<Group>>, q: seq<seq<Request>>,
                    counts: seq<nat>,
                    order: seq<Request>)
    requires Batch(cfg, tpl, dl0, dl, q, counts, order)
    ensures Placed(cfg.elevator, q)
  {
  }

  lemma BatchMore(cfg: Config, tpl: nat, dl0: seq<seq<Group>>, dl: seq<seq<Group>>, dl2: seq<seq<Group>>,
                  q: seq<seq<Request>>,
                  q2: seq<seq<Request>>, counts: seq<nat>, order: seq<Request>, i: nat, rq: Request)
    requires Batch(cfg, tpl, dl0, dl, q, counts, order) && TreesOk(dl) && Taken(dl, dl2, i, rq)
    requires Placed(cfg.elevator, q2) && OneMore(Page(q2), Page(q), rq) && |counts| == OPTYPES
    requires !cfg.elevator ==> |q| == OPTYPES && q2 == Appended(q, OpType(rq), rq)
    requires order != [] ==> Admits(cfg, counts, tpl + Lat(order), rq)
    ensures Batch(cfg, tpl, dl0, dl2, q2, counts[OpType(rq) := counts[OpType(rq)] + 1], order + [rq])
    ensures Lat(order + [rq]) == Lat(order) + rq.predLat
  {
    hide Drained, Placed, FifoByType, Counts, WithinLimits, Admits, Page, TreesOk, Taken, Appended, OpType, Lat;
    if !cfg.elevator { FifoMore(q, order, rq); }
    DrainedMore(dl0, dl, dl2, order, i, rq);
    LimitsMore(cfg, tpl, order, rq, counts);
  }

  lemma DrainedMore(dl0: seq<seq<Group>>, dl: seq<seq<Group>>, dl2: seq<seq<Group>>, order: seq<Request>, i: nat,
                    rq: Request)
    requires Drained(dl0, dl, order) && Taken(dl, dl2, i, rq) && TreesOk(dl)
    ensures Drained(dl0, dl2, order + [rq])
  {
    hide InTree, TreeOk;
    TakenInTree(dl, dl2, i, rq);
    assert rq in InTree(dl[i]);
    OfTreeMore(order, rq);
    assert OfTree(order, i) + ([rq] + InTree(dl2[i])) == (OfTree(order, i) + [rq]) + InTree(dl2[i]);
  }

  lemma TakenInTree(dl: seq<seq<Group>>, dl2: seq<seq<Group>>, i: nat, rq: Request)
    requires Taken(dl, dl2, i, rq)
    ensures InTree(dl[i]) == [rq] + InTree(dl2[i])
  {
    hide Flatten;
  }

  lemma OfTreeMore(order: seq<Request>, rq: Request)
    ensures OfTree(order + [rq], TreeOf(rq)) == OfTree(order, TreeOf(rq)) + [rq]
    ensures OfTree(order + [rq], 1 - TreeOf(rq)) == OfTree(order, 1 - TreeOf(rq))
  {
    assert (order + [rq])[..|order|] == order;
  }

  ghost predicate Counts(counts: seq<nat>, order: seq<Request>) {
    |counts| == OPTYPES && forall t :: 0 <= t < OPTYPES ==> counts[t] == OfType(order, t)
  }

  lemma LimitsMore(cfg: Config, tpl: nat, order: seq<Request>, rq: Request, counts: seq<nat>)
    requires cfg.Valid() && (order != [] ==> WithinLimits(cfg, tpl, order))
    requires Counts(counts, order) && (order != [] ==> Admits(cfg, counts, tpl + Lat(order), rq))
    ensures WithinLimits(cfg, tpl, order + [rq]) && Lat(order + [rq]) == Lat(order) + rq.predLat
    ensures Counts(counts[OpType(rq) := counts[OpType(rq)] + 1], order + [rq])
  {
    hide OpType;
    assert order != [] ==> OfType(order, OpType(rq)) < cfg.batchLimit[OpType(rq)];
    var order2 := order + [rq];
    assert order2[..|order|] == order;
    LatConcat(order, [rq]);
    assert Lat(order2) == Lat(order) + rq.predLat;
    forall t | 0 <= t < OPTYPES
      ensures OfType(order2, t) == OfType(order, t) + if OpType(rq) == t then 1 else 0
      ensures OfType(order2, t) <= cfg.batchLimit[t] || OfType(order2, t) == 1
    {
    }
    forall k | 1 <= k < |order2| ensures cfg.hasBase[OpType(order2[k])] {
    }
  }

  /** A filled back page adds its requests to what is driven. */
  lemma Counted(pq: seq<seq<Request>>, bq: seq<seq<seq<Request>>>, bq2: seq<seq<seq<Request>>>, device: seq<Request>,
                front: nat,
                order: seq<Request>)
    requires |pq| == 2 && |bq| == |bq2| == 2 && front < 2
    requires bq2[front] == bq[front] && Page(bq[1 - front]) == [] && multiset(order) == multiset(Page(bq2[1 - front]))
    ensures multiset(DrivenIn(pq, bq2, device)) == multiset(DrivenIn(pq, bq, device)) + multiset(order)
  {
    hide Page;
    DrivenParts(pq, bq, device, front);
    DrivenParts(pq, bq2, device, front);
  }

  lemma OrderNotEmpty(cfg: Config, tpl: nat, order: seq<Request>)
    requires cfg.Valid() && WithinLimits(cfg, tpl, order)
    ensures order != []
  {
  }

  lemma BitsAfterFill(s: seq<bool>, s2: seq<bool>, pq: seq<seq<Request>>, barrier: seq<Request>)
    requires PqBits(s, pq) && BarrierBit(s, barrier) && |s2| == 7
    requires s2[PQ] == s[PQ] && s2[PQ + 1] == s[PQ + 1] && s2[BP] == s[BP]
    ensures PqBits(s2, pq) && BarrierBit(s2, barrier)
  {
  }

  /** What the trees and the batch pages hold. */
  ghost function MainIn(dl: seq<seq<Group>>, bq: seq<seq<seq<Request>>>): multiset<Request>
    requires |dl| == 2 && |bq| == 2
  {
    multiset(InTree(dl[0])) + multiset(InTree(dl[1])) + multiset(Page(bq[0])) + multiset(Page(bq[1]))
  }

  lemma MainMoved(dl: seq<seq<Group>>, bq: seq<seq<seq<Request>>>, dl2: seq<seq<Group>>, bq2: seq<seq<seq<Request>>>,
                  front: nat,
                  barrier: seq<Request>, order: seq<Request>)
    requires |dl| == |dl2| == |bq| == |bq2| == 2 && front < 2
    requires bq2[front] == bq[front] && Page(bq[1 - front]) == [] && multiset(order) == multiset(Page(bq2[1 - front]))
    requires multiset(order) + multiset(WaitingIn(dl2, barrier)) == multiset(WaitingIn(dl, barrier))
    ensures MainIn(dl2, bq2) == MainIn(dl, bq)
  {
    hide InTree, Page;
    Cancel(multiset(order) + multiset(InTree(dl2[0])) + multiset(InTree(dl2[1])),
           multiset(InTree(dl[0])) + multiset(InTree(dl[1])),
           multiset(barrier));
  }

  lemma BackNotEmpty(state: seq<bool>, bq: seq<seq<seq<Request>>>, bits: seq<seq<bool>>, front: nat,
                     order: seq<Request>)
    requires PageBits(state, bq, bits) && front < 2 && order != [] && multiset(order) == multiset(Page(bq[1 - front]))
    ensures state[BQ + (1 - front)]
  {
    hide Page;
    assert |multiset(order)| == |multiset(Page(bq[1 - front]))|;
  }

  lemma PageIsEmpty(state: seq<bool>, bq: seq<seq<seq<Request>>>, bits: seq<seq<bool>>, page: nat)
    requires PageBits(state, bq, bits) && page < 2 && !state[BQ + page]
    ensures Page(bq[page]) == []
  {
    hide Page;
  }

  lemma NoneLeft(state: seq<bool>, dl: seq<seq<Group>>, bq: seq<seq<seq<Request>>>, bits: seq<seq<bool>>)
    requires PageBits(state, bq, bits) && |dl| == 2
    ensures !state[BQ] && !state[BQ + 1] && dl[0] == [] && dl[1] == [] ==> MainIn(dl, bq) == multiset{}
  {
    hide Page;
  }

  /** Less latency is in flight than the share of the window at which a refill is due. */
  predicate LittleInFlight(cfg: Config, tpl: nat) {
    tpl == 0 || tpl < cfg.window * cfg.refillBelow / 100
  }

  predicate NoBitSet(bits: seq<bool>) {
    forall k :: 0 <= k < |bits| ==> !bits[k]
  }

  lemma BitsAfterPop(s: seq<bool>, s2: seq<bool>, pq: seq<seq<Request>>, dl: seq<seq<Group>>, barrier: seq<Request>,
                     bq: seq<seq<seq<Request>>>, bq2: seq<seq<seq<Request>>>, bits2: seq<seq<bool>>, front: nat)
    requires PqBits(s, pq) && TreeBits(s, dl) && BarrierBit(s, barrier) && front < 2
    requires |bq| == 2 && (s[BQ] <==> Page(bq[0]) != []) && (s[BQ + 1] <==> Page(bq[1]) != [])
    requires PagesShape(bq2, bits2) && QueueBits(bq2[0], bits2[0]) && QueueBits(bq2[1], bits2[1])
             && bq2[1 - front] == bq[1 - front]
    requires Page(bq[front]) != [] && s2 == if NoBitSet(bits2[front]) then s[BQ + front := false] else s
    ensures PqBits(s2, pq) && TreeBits(s2, dl) && BarrierBit(s2, barrier) && PageBits(s2, bq2, bits2)
  {
    hide Page;
    PageEmpty(bq2[front]);
  }

  lemma BitsAfterPq(s: seq<bool>, s2: seq<bool>, dl: seq<seq<Group>>, barrier: seq<Request>, bq: seq<seq<seq<Request>>>,
                    bits: seq<seq<bool>>)
    requires TreeBits(s, dl) && BarrierBit(s, barrier) && PageBits(s, bq, bits) && SameOutside(s, s2, PQ)
    ensures TreeBits(s2, dl) && BarrierBit(s2, barrier) && PageBits(s2, bq, bits)
  {
    hide Page, QueueBits;
  }

  lemma BooksPop(h: History, pq: seq<seq<Request>>, bq: seq<seq<seq<Request>>>, bq2: seq<seq<seq<Request>>>, front: nat,
                 waiting: seq<Request>, inFlight: nat, rq: Request)
    requires |pq| == 2 && |bq| == |bq2| == 2 && front < 2 && bq2[1 - front] == bq[1 - front]
    requires OneMore(Page(bq[front]), Page(bq2[front]), rq) && BooksIn(h, DrivenIn(pq, bq, h.device), waiting, inFlight)
    ensures BooksIn(h.(dispatched := h.dispatched + [rq], device := h.device + [rq]),
                    DrivenIn(pq, bq2, h.device + [rq]), waiting, inFlight)
  {
    hide Page, BooksIn, DrivenIn;
    DrivenParts(pq, bq, h.device, front);
    DrivenParts(pq, bq2, h.device + [rq], front);
    BooksSent(h, DrivenIn(pq, bq, h.device), DrivenIn(pq, bq2, h.device + [rq]), waiting, inFlight, rq);
  }

  /** A request that leaves for the device stays in flight. */
  lemma BooksSent(h: History, driven: seq<Request>, driven2: seq<Request>, waiting: seq<Request>, inFlight: nat,
                  rq: Request)
    requires BooksIn(h, driven, waiting, inFlight) && multiset(driven2) == multiset(driven)
    ensures BooksIn(h.(dispatched := h.dispatched + [rq], device := h.device + [rq]), driven2, waiting, inFlight)
  {
    hide Accounts;
    AccountsPerm(driven, driven2, inFlight);
  }

  lemma MainPopped(dl: seq<seq<Group>>, bq: seq<seq<seq<Request>>>, bq2: seq<seq<seq<Request>>>, front: nat,
                   rq: Request)
    requires |dl| == |bq| == |bq2| == 2 && front < 2 && bq2[1 - front] == bq[1 - front]
    requires OneMore(Page(bq[front]), Page(bq2[front]), rq)
    ensures MainIn(dl, bq) == MainIn(dl, bq2) + multiset{rq}
  {
    hide Page, InTree;
  }

  lemma BooksPq(h: History, pq: seq<seq<Request>>, pq2: seq<seq<Request>>, rq: Request, bq: seq<seq<seq<Request>>>,
                waiting: seq<Request>, inFlight: nat)
    requires PqTaken(pq, pq2, rq) && |bq| == 2 && BooksIn(h, DrivenIn(pq, bq, h.device), waiting, inFlight)
    ensures BooksIn(h.(dispatched := h.dispatched + [rq], device := h.device + [rq]),
                    DrivenIn(pq2, bq, h.device + [rq]),
                    waiting, inFlight)
  {
    hide Page, BooksIn, DrivenIn;
    var i := if pq[1] != [] then 1 else 0;
    assert pq[i] == [rq] + pq2[i];
    DrivenParts(pq, bq, h.device, 0);
    DrivenParts(pq2, bq, h.device + [rq], 0);
    BooksSent(h, DrivenIn(pq, bq, h.device), DrivenIn(pq2, bq, h.device + [rq]), waiting, inFlight, rq);
  }

  lemma WithoutBarrier(dl: seq<seq<Group>>, dl2: seq<seq<Group>>, barrier: seq<Request>, rq: Request)
    requires |dl| == |dl2| == 2 && OneMore(WaitingIn(dl2, barrier), WaitingIn(dl, barrier), rq)
    ensures OneMore(WaitingIn(dl2, []), WaitingIn(dl, []), rq)
  {
    hide InTree;
    Cancel(multiset(InTree(dl2[0])) + multiset(InTree(dl2[1])), multiset(InTree(dl[0])) + multiset(InTree(dl[1]))
           + multiset{rq},
           multiset(barrier));
  }

  lemma BitsPq(s: seq<bool>, s2: seq<bool>, pq: seq<seq<Request>>)
    requires PqBits(s, pq) && |s2| == 7 && s2[PQ] == s[PQ] && s2[PQ + 1] == s[PQ + 1]
    ensures PqBits(s2, pq)
  {
  }

  lemma BitsAfterTake(s: seq<bool>, s2: seq<bool>, dl: seq<seq<Group>>, bq: seq<seq<seq<Request>>>,
                      bits: seq<seq<bool>>)
    requires TreeBits(s, dl) && PageBits(s, bq, bits) && |s2| == 7
    requires forall j :: BQ <= j < BP || DL <= j < BQ ==> s2[j] == s[j]
    ensures TreeBits(s2, dl) && PageBits(s2, bq, bits)
  {
    hide Page, QueueBits;
  }

  lemma BitsAfterTree(s: seq<bool>, s2: seq<bool>, pq: seq<seq<Request>>, barrier: seq<Request>,
                      bq: seq<seq<seq<Request>>>,
                      bits: seq<seq<bool>>)
    requires PqBits(s, pq) && BarrierBit(s, barrier) && PageBits(s, bq, bits) && SameOutside(s, s2, DL)
    ensures PqBits(s2, pq) && BarrierBit(s2, barrier) && PageBits(s2, bq, bits)
  {
    hide Page, QueueBits;
  }

  lemma BooksTake(h: History, pq: seq<seq<Request>>, bq: seq<seq<seq<Request>>>, dl: seq<seq<Group>>,
                  barrier: seq<Request>,
                  local: seq<Request>, rest: seq<Request>, inFlight: nat)
    requires |pq| == |bq| == |dl| == 2 && barrier != [] && barrier == [barrier[0]] + local + rest
    requires BooksIn(h, DrivenIn(pq, bq, h.device), WaitingIn(dl, barrier), inFlight)
    ensures BooksIn(h, DrivenIn(pq[1 := pq[1] + [barrier[0]]], bq, h.device), WaitingIn(dl, local[0..] + rest),
                    WordAdd(inFlight, Pack(1, barrier[0].predLat)))
  {
    hide Page, InTree, BooksIn, WordAdd, Pack;
    var order := [barrier[0]];
    assert Lat(order) == barrier[0].predLat;
    assert local[0..] == local;
    var pq2 := pq[1 := pq[1] + order];
    DrivenParts(pq, bq, h.device, 0);
    DrivenParts(pq2, bq, h.device, 0);
    BooksMove(h, DrivenIn(pq, bq, h.device), WaitingIn(dl, barrier), DrivenIn(pq2, bq, h.device),
              WaitingIn(dl, local[0..] + rest),
              order, inFlight);
  }

  /** One released request settles: in the tree, or merged. */
  lemma BooksSettle(h: History, driven: seq<Request>, dl: seq<seq<Group>>, dl2: seq<seq<Group>>,
                    merged2: multiset<Request>,
                    rq: Request, local: seq<Request>, barrier: seq<Request>, inFlight: nat)
    requires |dl| == |dl2| == 2 && local != [] && local[0] == rq
    requires BooksIn(h, driven, WaitingIn(dl, local + barrier), inFlight)
    requires || (merged2 == h.merged + multiset{rq} && dl2 == dl)
             || (merged2 == h.merged && OneMore(WaitingIn(dl2, []), WaitingIn(dl, []), rq))
    ensures BooksIn(h.(merged := merged2), driven, WaitingIn(dl2, local[1..] + barrier), inFlight)
  {
    hide WaitingIn, Accounts;
    var waiting, waiting2 := WaitingIn(dl, local + barrier), WaitingIn(dl2, local[1..] + barrier);
    WaitingSplit(dl, local + barrier);
    WaitingSplit(dl2, local[1..] + barrier);
    assert local == [rq] + local[1..];
    assert multiset(local + barrier) == multiset{rq} + multiset(local[1..] + barrier);
  }

  lemma WaitingSplit(dl: seq<seq<Group>>, barrier: seq<Request>)
    requires |dl| == 2
    ensures multiset(WaitingIn(dl, barrier)) == multiset(WaitingIn(dl, [])) + multiset(barrier)
  {
    hide InTree;
  }

  /** The requests of `local` are in the trees or merged. */
  ghost predicate Settled(dl: seq<seq<Group>>, dl2: seq<seq<Group>>, m: multiset<Request>, m2: multiset<Request>,
                          local: seq<Request>) {
    |dl| == |dl2| == 2 && multiset(WaitingIn(dl2, [])) + m2 == multiset(WaitingIn(dl, [])) + m + multiset(local)
        && m <= m2
  }

  lemma NothingSettled(dl: seq<seq<Group>>, m: multiset<Request>, local: seq<Request>)
    requires |dl| == 2
    ensures Settled(dl, dl, m, m, local[..0])
  {
  }

  lemma MoreSettled(dl: seq<seq<Group>>, dl1: seq<seq<Group>>, dl2: seq<seq<Group>>, m: multiset<Request>,
                    m1: multiset<Request>,
                    m2: multiset<Request>, local: seq<Request>, rq: Request)
    requires Settled(dl, dl1, m, m1, local) && |dl2| == 2
    requires || (m2 == m1 + multiset{rq} && dl2 == dl1)
             || (m2 == m1 && OneMore(WaitingIn(dl2, []), WaitingIn(dl1, []), rq))
    ensures Settled(dl, dl2, m, m2, local + [rq])
  {
    hide WaitingIn;
    assert multiset(local + [rq]) == multiset(local) + multiset{rq};
    assert multiset(WaitingIn(dl2, [])) + m2 == (multiset(WaitingIn(dl1, [])) + m1) + multiset{rq};
  }

  lemma HeadIsBarrier(state: seq<bool>, barrier: seq<Request>)
    requires BarrierBit(state, barrier) && barrier != []
    ensures IsBarrier(barrier[0])
  {
  }

  ghost function QueuedIn(pq: seq<seq<Request>>, main: multiset<Request>, barrier: seq<Request>): multiset<Request>
    requires |pq| == 2
  {
    multiset(pq[0]) + multiset(pq[1]) + main + multiset(barrier)
  }

  lemma UpToBarrier(barrier: seq<Request>, n: nat)
    requires 1 <= n <= |barrier| && forall k :: 1 <= k < n ==> !IsBarrier(barrier[k])
    ensures barrier == [barrier[0]] + barrier[1..n] + barrier[n..]
    ensures forall r :: r in barrier[1..n] ==> !IsBarrier(r)
  {
    hide IsBarrier;
  }

  lemma BarrierFlag(state: seq<bool>, barrier: seq<Request>)
    requires BarrierBit(state, barrier)
    ensures state[BP] <==> barrier != []
  {
  }

  lemma MainSettled(dl: seq<seq<Group>>, dl2: seq<seq<Group>>, bq: seq<seq<seq<Request>>>, m: multiset<Request>,
                    m2: multiset<Request>,
                    local: seq<Request>)
    requires |bq| == 2 && Settled(dl, dl2, m, m2, local) && MainIn(dl, bq) == multiset{}
    ensures MainIn(dl2, bq) + m2 == m + multiset(local) && m <= m2
    ensures MainIn(dl2, bq) <= multiset(local)
  {
    hide Page, InTree;
    assert multiset(WaitingIn(dl, [])) == multiset(InTree(dl[0])) + multiset(InTree(dl[1]));
    assert multiset(WaitingIn(dl2, [])) == multiset(InTree(dl2[0])) + multiset(InTree(dl2[1]));
    assert multiset(Page(bq[0])) <= MainIn(dl, bq) && multiset(Page(bq[1])) <= MainIn(dl, bq);
    assert multiset(WaitingIn(dl, [])) <= MainIn(dl, bq);
    var main := MainIn(dl2, bq);
    assert main + m2 == m + multiset(local);
    forall e ensures main[e] <= multiset(local)[e] {
      assert (main + m2)[e] == (m + multiset(local))[e];
    }
  }

  lemma ReleasedAll(barrier: seq<Request>, local: seq<Request>, rest: seq<Request>, pq: seq<seq<Request>>,
                    pq2: seq<seq<Request>>,
                    main: multiset<Request>, m: multiset<Request>, m2: multiset<Request>, rq: Request)
    requires barrier != [] && barrier == [barrier[0]] + local + rest && pq == [[], [barrier[0]]]
             && pq2 == pq[1 := pq[1][1..]]
    requires rq == barrier[0] && main + m2 == m + multiset(local)
    ensures multiset(barrier) + m == QueuedIn(pq2, main, rest) + m2 + multiset{rq}
  {
    assert pq2[0] == [] && pq2[1] == [];
    assert multiset(barrier) == multiset{rq} + multiset(local) + multiset(rest);
    calc {
      multiset(barrier) + m;
      multiset{rq} + (m + multiset(local)) + multiset(rest);
      multiset{rq} + (main + m2) + multiset(rest);
    }
  }

  lemma SomeBit(state: seq<bool>, pq: seq<seq<Request>>, dl: seq<seq<Group>>, bq: seq<seq<seq<Request>>>,
                bits: seq<seq<bool>>,
                barrier: seq<Request>)
    requires PqBits(state, pq) && TreeBits(state, dl) && PageBits(state, bq, bits) && BarrierBit(state, barrier)
             && TreesOk(dl)
    ensures state == [false, false, false, false, false, false, false] <==>
            QueuedIn(pq, MainIn(dl, bq), barrier) == multiset{}
  {
    hide Page, QueueBits, OnlyOf;
    TreeNotEmpty(dl[0]);
    TreeNotEmpty(dl[1]);
    var all := multiset(pq[0]) + multiset(pq[1]) + MainIn(dl, bq) + multiset(barrier);
    assert |all| == |pq[0]| + |pq[1]| + |InTree(dl[0])| + |InTree(dl[1])| + |Page(bq[0])| + |Page(bq[1])| + |barrier|;
    assert all == multiset{} <==> |all| == 0;
  }

  lemma TreeNotEmpty(t: seq<Group>)
    requires TreeOk(t)
    ensures t == [] <==> InTree(t) == []
  {
    TreeFacts(t);
  }

  // ----- barrier order -----

  /** Where a request stands between the barriers: 2k - 1 for the k-th barrier, 2k for a request with k
      barriers before it. `level` is the rank of the requests in the main queues. */
  datatype Order = Order(rank: map<Request, nat>, level: nat, barriers: nat)

  function Barriers(s: seq<Request>): nat {
    if s == [] then 0 else Barriers(s[..|s| - 1]) + if IsBarrier(s[|s| - 1]) then 1 else 0
  }

  function NewRank(barriers: nat, r: Request): nat {
    2 * barriers + if IsBarrier(r) then 1 else 0
  }

  predicate Distinct(s: seq<Request>) {
    forall i, j :: 0 <= i < j < |s| ==> s[i] != s[j]
  }

  /** The requests are inserted once each and ranked by the barriers before them. */
  ghost predicate RankSpec(o: Order, inserted: seq<Request>) {
    && o.barriers == Barriers(inserted) && Distinct(inserted)
    && (forall i :: 0 <= i < |inserted| ==>
        inserted[i] in o.rank && o.rank[inserted[i]] == NewRank(Barriers(inserted[..i]), inserted[i]))
  }

  ghost predicate At(o: Order, r: Request, rank: int) {
    r in o.rank && o.rank[r] == rank
  }

  /** The rank after x, for a barrier or for another request. */
  function NextRank(x: nat, r: Request): nat {
    NewRank((x + 1) / 2, r)
  }

  ghost predicate Chain(o: Order, barrier: seq<Request>) {
    && o.level % 2 == 0 && (barrier == [] ==> o.level == 2 * o.barriers)
    && (forall k :: 0 <= k < |barrier| ==> barrier[k] in o.rank)
    && (barrier != [] ==> o.rank[barrier[0]] == o.level + 1)
    && (forall k :: 1 <= k < |barrier| ==> o.rank[barrier[k]] == NextRank(o.rank[barrier[k - 1]], barrier[k]))
    && (barrier != [] ==> (o.rank[barrier[|barrier| - 1]] + 1) / 2 == o.barriers)
  }

  ghost predicate Trail(o: Order, sent: seq<Request>, top: int) {
    && (forall i :: 0 <= i < |sent| ==> sent[i] in o.rank && o.rank[sent[i]] <= top)
    && (forall i, j :: 0 <= i < j < |sent| ==> o.rank[sent[i]] <= o.rank[sent[j]])
  }

  ghost predicate OrderedIn(o: Order, pq: seq<seq<Request>>, main: multiset<Request>, barrier: seq<Request>,
                            sent: seq<Request>) {
    && |pq| == 2 && pq[0] == [] && (forall r :: r in pq[1] ==> At(o, r, o.level - 1))
    && (forall r :: r in main ==> At(o, r, o.level))
    && Chain(o, barrier) && Trail(o, sent, if pq[1] != [] then o.level - 1 else o.level)
  }

  lemma TrailMore(o: Order, sent: seq<Request>, top: int, rq: Request)
    requires Trail(o, sent, top) && At(o, rq, top)
    ensures Trail(o, sent + [rq], top) && Trail(o, sent + [rq], top + 1)
  {
  }

  lemma PqStep(o: Order, pq: seq<seq<Request>>, pq2: seq<seq<Request>>, main: multiset<Request>, barrier: seq<Request>,
               sent: seq<Request>, rq: Request)
    requires PqTaken(pq, pq2, rq)
    ensures OrderedIn(o, pq, main, barrier, sent) ==> OrderedIn(o, pq2, main, barrier, sent + [rq])
    ensures QueuedIn(pq, main, barrier) == QueuedIn(pq2, main, barrier) + multiset{rq}
  {
    hide Chain;
    var i := if pq[1] != [] then 1 else 0;
    assert pq[i] == [rq] + pq2[i];
    if OrderedIn(o, pq, main, barrier, sent) {
      assert i == 1 && rq in pq[1];
      TrailMore(o, sent, o.level - 1, rq);
      assert pq2[1] == [] ==> Trail(o, sent + [rq], o.level);
      forall r | r in pq2[1] ensures At(o, r, o.level - 1) {
        assert r in pq[1];
      }
    }
  }

  lemma MainStep(o: Order, pq: seq<seq<Request>>, main: multiset<Request>, main2: multiset<Request>,
                 barrier: seq<Request>,
                 sent: seq<Request>, rq: Request)
    requires |pq| == 2 && main == main2 + multiset{rq}
    ensures pq == [[], []] && OrderedIn(o, pq, main, barrier, sent) ==> OrderedIn(o, pq, main2, barrier, sent + [rq])
    ensures QueuedIn(pq, main, barrier) == QueuedIn(pq, main2, barrier) + multiset{rq}
  {
    hide Chain;
    assert rq in main;
    if OrderedIn(o, pq, main, barrier, sent) {
      TrailMore(o, sent, o.level, rq);
      forall r | r in main2 ensures At(o, r, o.level) {
        assert r in main;
      }
    }
  }

  /** What follows the head up to the next barrier has the next even rank. */
  lemma {:induction false} LocalRanks(o: Order, barrier: seq<Request>, n: nat)
    requires Chain(o, barrier) && n < |barrier| && forall k :: 1 <= k <= n ==> !IsBarrier(barrier[k])
    ensures forall k :: 1 <= k <= n ==> o.rank[barrier[k]] == o.level + 2
  {
    hide IsBarrier;
    if n > 0 {
      LocalRanks(o, barrier, n - 1);
      assert o.rank[barrier[n]] == NextRank(o.rank[barrier[n - 1]], barrier[n]);
    }
  }

  /** The chain from the next barrier on. */
  lemma {:induction false} ChainRest(o: Order, barrier: seq<Request>, n: nat)
    requires Chain(o, barrier) && n < |barrier| && forall k :: 1 <= k <= n ==> !IsBarrier(barrier[k])
    requires n + 1 < |barrier| ==> IsBarrier(barrier[n + 1])
    ensures Chain(o.(level := o.level + 2), barrier[n + 1..])
  {
    hide IsBarrier;
    LocalRanks(o, barrier, n);
    var rest := barrier[n + 1..];
    assert forall k :: 0 <= k < |rest| ==> rest[k] == barrier[n + 1 + k];
    if rest != [] {
      assert o.rank[barrier[n + 1]] == NextRank(o.rank[barrier[n]], barrier[n + 1]);
    }
  }

  /** With all active queues empty the next barrier and the requests up to the one after it move up. */
  lemma {:induction false} ReleaseStep(o: Order, barrier: seq<Request>, local: seq<Request>, rest: seq<Request>,
                                       main: multiset<Request>,
                                       sent: seq<Request>)
    requires barrier != [] && barrier == [barrier[0]] + local + rest && (forall r :: r in local ==> !IsBarrier(r))
    requires (rest != [] ==> IsBarrier(rest[0])) && main <= multiset(local)
    ensures OrderedIn(o, [[], []], multiset{}, barrier, sent) ==>
              OrderedIn(o.(level := o.level + 2), [[], [barrier[0]]], main, rest, sent)
  {
    hide IsBarrier, Chain;
    if OrderedIn(o, [[], []], multiset{}, barrier, sent) {
      var n := |local|;
      assert forall k :: 1 <= k <= n ==> barrier[k] == local[k - 1];
      assert rest == barrier[n + 1..];
      ChainRest(o, barrier, n);
      LocalRanks(o, barrier, n);
      ChainHead(o, barrier);
      forall r | r in main ensures At(o, r, o.level + 2) {
        assert r in multiset(local);
        var k :| 0 <= k < n && local[k] == r;
        assert barrier[k + 1] == r;
        ChainHas(o, barrier, k + 1);
      }
    }
  }

  lemma ChainHead(o: Order, barrier: seq<Request>)
    requires Chain(o, barrier) && barrier != []
    ensures At(o, barrier[0], o.level + 1)
  {
  }

  lemma ChainHas(o: Order, barrier: seq<Request>, k: nat)
    requires Chain(o, barrier) && k < |barrier|
    ensures barrier[k] in o.rank
  {
  }

  lemma RankLevel(o: Order, o2: Order, inserted: seq<Request>)
    requires o2.rank == o.rank && o2.barriers == o.barriers
    ensures RankSpec(o, inserted) ==> RankSpec(o2, inserted)
  {
  }

  /** The place of a new request between the barriers. */
  function Entered(o: Order, rq: Request): Order {
    Order(o.rank[rq := NewRank(o.barriers, rq)], o.level, o.barriers + if IsBarrier(rq) then 1 else 0)
  }

  lemma AccountsNewDriven(driven: seq<Request>, driven2: seq<Request>, inFlight: nat, rq: Request)
    requires Accounts(driven, inFlight) && OneMore(driven2, driven, rq)
    ensures Accounts(driven2, WordAdd(inFlight, Pack(1, rq.predLat)))
  {
    hide WordAdd, Pack, WordSub, Word, Lat;
    OneMoreFacts(driven2, driven, rq);
    InStep(|driven|, Lat(driven), 1, rq.predLat);
  }

  lemma BooksNewDriven(h: History, pq: seq<seq<Request>>, idx: nat, bq: seq<seq<seq<Request>>>, waiting: seq<Request>,
                       inFlight: nat,
                       rq: Request)
    requires |pq| == |bq| == 2 && idx < 2 && BooksIn(h, DrivenIn(pq, bq, h.device), waiting, inFlight)
    ensures BooksIn(h.(inserted := h.inserted + [rq]), DrivenIn(pq[idx := pq[idx] + [rq]], bq, h.device), waiting,
                    WordAdd(inFlight, Pack(1, rq.predLat)))
  {
    hide Page, WordAdd, Pack, Accounts, Lat, DrivenIn;
    var d, d2 := DrivenIn(pq, bq, h.device), DrivenIn(pq[idx := pq[idx] + [rq]], bq, h.device);
    DrivenMore(pq, idx, bq, h.device, rq);
    if h.kept { AccountsNewDriven(d, d2, inFlight, rq); }
  }

  lemma DrivenMore(pq: seq<seq<Request>>, idx: nat, bq: seq<seq<seq<Request>>>, device: seq<Request>, rq: Request)
    requires |pq| == |bq| == 2 && idx < 2
    ensures OneMore(DrivenIn(pq[idx := pq[idx] + [rq]], bq, device), DrivenIn(pq, bq, device), rq)
  {
    hide Page, DrivenIn;
    var pq2 := pq[idx := pq[idx] + [rq]];
    DrivenParts(pq, bq, device, 0);
    DrivenParts(pq2, bq, device, 0);
    assert multiset(pq2[0]) + multiset(pq2[1]) == multiset(pq[0]) + multiset(pq[1]) + multiset{rq};
  }

  lemma BooksNewWaiting(h: History, driven: seq<Request>, waiting: seq<Request>, waiting2: seq<Request>, inFlight: nat,
                        rq: Request)
    requires BooksIn(h, driven, waiting, inFlight) && OneMore(waiting2, waiting, rq)
    ensures BooksIn(h.(inserted := h.inserted + [rq]), driven, waiting2, inFlight)
  {
    hide Accounts;
  }

  lemma WaitingBehind(dl: seq<seq<Group>>, barrier: seq<Request>, rq: Request)
    requires |dl| == 2
    ensures OneMore(WaitingIn(dl, barrier + [rq]), WaitingIn(dl, barrier), rq)
  {
    hide WaitingIn;
    WaitingSplit(dl, barrier);
    WaitingSplit(dl, barrier + [rq]);
  }

  lemma BooksNewInTree(h: History, driven: seq<Request>, dl: seq<seq<Group>>, dl2: seq<seq<Group>>,
                       merged2: multiset<Request>,
                       barrier: seq<Request>, inFlight: nat, rq: Request, merge: bool)
    requires |dl| == |dl2| == 2 && BooksIn(h, driven, WaitingIn(dl, barrier), inFlight)
    requires if merge then merged2 == h.merged + multiset{rq} && dl2 == dl
             else merged2 == h.merged && OneMore(WaitingIn(dl2, []), WaitingIn(dl, []), rq)
    ensures BooksIn(h.(inserted := h.inserted + [rq], merged := merged2), driven, WaitingIn(dl2, barrier), inFlight)
  {
    hide WaitingIn, Accounts;
    if !merge {
      WaitingSplit(dl, barrier);
      WaitingSplit(dl2, barrier);
    }
  }

  lemma QueuedMore(pq: seq<seq<Request>>, idx: nat, main: multiset<Request>, barrier: seq<Request>, rq: Request)
    requires |pq| == 2 && idx < 2
    ensures QueuedIn(pq[idx := pq[idx] + [rq]], main, barrier) == QueuedIn(pq, main, barrier) + multiset{rq}
  {
  }

  lemma QueuedBehind(pq: seq<seq<Request>>, main: multiset<Request>, barrier: seq<Request>, rq: Request)
    requires |pq| == 2
    ensures QueuedIn(pq, main, barrier + [rq]) == QueuedIn(pq, main, barrier) + multiset{rq}
  {
  }

  lemma QueuedInMain(pq: seq<seq<Request>>, main: multiset<Request>, main2: multiset<Request>, barrier: seq<Request>,
                     x: multiset<Request>)
    requires |pq| == 2 && main2 == main + x
    ensures QueuedIn(pq, main2, barrier) == QueuedIn(pq, main, barrier) + x
  {
  }

  lemma MainMore(dl: seq<seq<Group>>, dl2: seq<seq<Group>>, bq: seq<seq<seq<Request>>>, rq: Request, merge: bool)
    requires |dl| == |dl2| == |bq| == 2
    requires if merge then dl2 == dl else OneMore(WaitingIn(dl2, []), WaitingIn(dl, []), rq)
    ensures MainIn(dl2, bq) == MainIn(dl, bq) + (if merge then multiset{} else multiset{rq})
  {
    hide Page, InTree;
    assert multiset(WaitingIn(dl, [])) == multiset(InTree(dl[0])) + multiset(InTree(dl[1]));
    assert multiset(WaitingIn(dl2, [])) == multiset(InTree(dl2[0])) + multiset(InTree(dl2[1]));
  }

  lemma BitsBelow(s: seq<bool>, s2: seq<bool>, pq: seq<seq<Request>>, dl: seq<seq<Group>>, bq: seq<seq<seq<Request>>>,
                  bits: seq<seq<bool>>)
    requires PqBits(s, pq) && TreeBits(s, dl) && PageBits(s, bq, bits) && |s2| == 7 && s2[..BP] == s[..BP]
    ensures PqBits(s2, pq) && TreeBits(s2, dl) && PageBits(s2, bq, bits)
  {
    hide Page, QueueBits;
    assert forall j :: 0 <= j < BP ==> s2[j] == s2[..BP][j] && s[j] == s[..BP][j];
  }

  lemma RankMore(o: Order, inserted: seq<Request>, rq: Request)
    requires rq !in inserted
    ensures RankSpec(o, inserted) ==> RankSpec(Entered(o, rq), inserted + [rq])
  {
    if RankSpec(o, inserted) {
      var s := inserted + [rq];
      assert s[..|inserted|] == inserted;
      forall i | 0 <= i < |s|
        ensures s[i] in Entered(o, rq).rank && Entered(o, rq).rank[s[i]] == NewRank(Barriers(s[..i]), s[i])
      {
        if i < |inserted| {
          assert s[..i] == inserted[..i];
        }
      }
    }
  }

  /** A request that was never inserted is nowhere. */
  lemma Unknown(h: History, pq: seq<seq<Request>>, dl: seq<seq<Group>>, bq: seq<seq<seq<Request>>>,
                barrier: seq<Request>,
                inFlight: nat, rq: Request)
    requires |pq| == |dl| == |bq| == 2 && BooksIn(h, DrivenIn(pq, bq, h.device), WaitingIn(dl, barrier), inFlight)
    requires rq !in h.inserted
    ensures rq !in QueuedIn(pq, MainIn(dl, bq), barrier) && rq !in h.dispatched
  {
    hide Page, InTree, Accounts;
    DrivenParts(pq, bq, h.device, 0);
    WaitingSplit(dl, barrier);
    assert multiset(WaitingIn(dl, [])) == multiset(InTree(dl[0])) + multiset(InTree(dl[1]));
    assert rq !in multiset(h.inserted);
    assert rq !in multiset(DrivenIn(pq, bq, h.device)) && rq !in multiset(WaitingIn(dl, barrier));
    assert rq !in multiset(h.dispatched);
  }

  lemma ChainMore(o: Order, barrier: seq<Request>, rq: Request)
    requires Chain(o, barrier) && rq !in barrier && (barrier != [] || IsBarrier(rq))
    ensures Chain(Entered(o, rq), barrier + [rq])
  {
  }

  /** A new request at the end of the chain of barriers. */
  lemma BarrierMore(o: Order, pq: seq<seq<Request>>, main: multiset<Request>, barrier: seq<Request>, sent: seq<Request>,
                    rq: Request)
    requires |pq| == 2 && rq !in QueuedIn(pq, main, barrier) && rq !in sent && (barrier != [] || IsBarrier(rq))
    ensures OrderedIn(o, pq, main, barrier, sent) ==> OrderedIn(Entered(o, rq), pq, main, barrier + [rq], sent)
  {
    hide Chain;
    NotIn(pq, main, barrier, rq);
    if OrderedIn(o, pq, main, barrier, sent) {
      ChainMore(o, barrier, rq);
    }
  }

  lemma NotIn(pq: seq<seq<Request>>, main: multiset<Request>, barrier: seq<Request>, rq: Request)
    requires |pq| == 2 && rq !in QueuedIn(pq, main, barrier)
    ensures rq !in pq[1] && rq !in main && rq !in barrier
  {
    assert rq !in multiset(pq[1]) && rq !in multiset(barrier);
  }

  lemma MainEntered(o: Order, pq: seq<seq<Request>>, main: multiset<Request>, main2: multiset<Request>,
                    sent: seq<Request>, rq: Request)
    requires |pq| == 2 && rq !in QueuedIn(pq, main, []) && rq !in sent && !IsBarrier(rq)
    requires main2 == main || main2 == main + multiset{rq}
    ensures OrderedIn(o, pq, main, [], sent) ==> OrderedIn(Entered(o, rq), pq, main2, [], sent)
  {
    NotIn(pq, main, [], rq);
    if OrderedIn(o, pq, main, [], sent) {
      forall r | r in main2 ensures At(Entered(o, rq), r, o.level) {
        assert r == rq || r in main;
      }
    }
  }

  lemma BooksMoved(h: History, driven: seq<Request>, dl: seq<seq<Group>>, dl1: seq<seq<Group>>, dl2: seq<seq<Group>>,
                   barrier: seq<Request>, inFlight: nat, rq: Request)
    requires |dl| == |dl1| == |dl2| == 2 && BooksIn(h, driven, WaitingIn(dl, barrier), inFlight)
    requires OneMore(WaitingIn(dl, barrier), WaitingIn(dl1, barrier), rq)
             && OneMore(WaitingIn(dl2, barrier), WaitingIn(dl1, barrier), rq)
    ensures BooksIn(h, driven, WaitingIn(dl2, barrier), inFlight)
  {
    hide WaitingIn, Accounts;
  }

  lemma MainLess(dl: seq<seq<Group>>, dl1: seq<seq<Group>>, bq: seq<seq<seq<Request>>>, barrier: seq<Request>,
                 rq: Request)
    requires |dl| == |dl1| == |bq| == 2 && OneMore(WaitingIn(dl, barrier), WaitingIn(dl1, barrier), rq)
    ensures MainIn(dl, bq) == MainIn(dl1, bq) + multiset{rq}
  {
    hide Page, InTree;
    Cancel(multiset(InTree(dl[0])) + multiset(InTree(dl[1])), multiset(InTree(dl1[0])) + multiset(InTree(dl1[1]))
           + multiset{rq},
           multiset(barrier));
  }

  lemma MainMovedInTree(dl: seq<seq<Group>>, dl1: seq<seq<Group>>, dl2: seq<seq<Group>>, bq: seq<seq<seq<Request>>>,
                        barrier: seq<Request>, rq: Request)
    requires |dl| == |dl1| == |dl2| == |bq| == 2
    requires OneMore(WaitingIn(dl, barrier), WaitingIn(dl1, barrier), rq)
             && OneMore(WaitingIn(dl2, barrier), WaitingIn(dl1, barrier), rq)
    ensures MainIn(dl2, bq) == MainIn(dl, bq)
  {
    hide WaitingIn;
    MainLess(dl, dl1, bq, barrier, rq);
    MainLess(dl2, dl1, bq, barrier, rq);
  }

  lemma BooksMerged(h: History, driven: seq<Request>, waiting: seq<Request>, waiting2: seq<Request>, inFlight: nat,
                    rq: Request)
    requires BooksIn(h, driven, waiting, inFlight) && OneMore(waiting, waiting2, rq)
    ensures BooksIn(h.(merged := h.merged + multiset{rq}), driven, waiting2, inFlight)
  {
    hide Accounts;
  }

  lemma SmallerMain(o: Order, pq: seq<seq<Request>>, main: multiset<Request>, main2: multiset<Request>,
                    barrier: seq<Request>,
                    sent: seq<Request>, rq: Request)
    requires main == main2 + multiset{rq}
    ensures OrderedIn(o, pq, main, barrier, sent) ==> OrderedIn(o, pq, main2, barrier, sent)
  {
    hide Chain, Trail;
    if OrderedIn(o, pq, main, barrier, sent) {
      forall r | r in main2 ensures At(o, r, o.level) {
        assert r in main;
      }
    }
  }

  lemma DrivenLess(pq: seq<seq<Request>>, bq: seq<seq<seq<Request>>>, device: seq<Request>, k: nat)
    requires |pq| == |bq| == 2 && k < |device|
    ensures OneMore(DrivenIn(pq, bq, device), DrivenIn(pq, bq, device[..k] + device[k + 1..]), device[k])
  {
    hide Page, DrivenIn;
    DrivenParts(pq, bq, device, 0);
    DrivenParts(pq, bq, device[..k] + device[k + 1..], 0);
    TakeOut(device, k);
  }

  lemma AccountsCompleted(driven: seq<Request>, driven2: seq<Request>, inFlight: nat, rq: Request)
    requires Accounts(driven, inFlight) && OneMore(driven, driven2, rq)
    ensures Accounts(driven2, WordSub(inFlight, Pack(1, rq.predLat)))
  {
    hide WordAdd, Pack, WordSub, Word, Lat;
    OneMoreFacts(driven, driven2, rq);
    InStep(|driven2|, Lat(driven2), 1, rq.predLat);
  }

  lemma BooksCompleted(h: History, pq: seq<seq<Request>>, bq: seq<seq<seq<Request>>>, waiting: seq<Request>,
                       inFlight: nat, k: nat)
    requires |pq| == |bq| == 2 && k < |h.device| && BooksIn(h, DrivenIn(pq, bq, h.device), waiting, inFlight)
    ensures var d := h.device[..k] + h.device[k + 1..];
            BooksIn(h.(device := d, completed := h.completed + multiset{h.device[k]}), DrivenIn(pq, bq, d), waiting,
                    WordSub(inFlight, Pack(1, h.device[k].predLat)))
  {
    hide DrivenIn, Accounts, WordSub, Pack;
    DrivenLess(pq, bq, h.device, k);
    TakeOut(h.device, k);
    if h.kept {
      AccountsCompleted(DrivenIn(pq, bq, h.device), DrivenIn(pq, bq, h.device[..k] + h.device[k + 1..]), inFlight,
                        h.device[k]);
    }
  }

  lemma BooksExact(h: History, driven: seq<Request>, waiting: seq<Request>, inFlight: nat)
    requires BooksIn(h, driven, waiting, inFlight) && h.kept && Fits(|driven|, Lat(driven))
    ensures CountOf(inFlight) == |driven| && TotalOf(inFlight) == Lat(driven)
  {
    hide Accounts;
    WordIsExact(driven, inFlight);
  }

  // ----- what the order of ranks means -----

  lemma {:induction false} BarriersGrow(s: seq<Request>, i: nat, j: nat)
    requires i <= j <= |s|
    ensures Barriers(s[..i]) <= Barriers(s[..j])
    decreases j
  {
    if i < j {
      assert s[..j][..j - 1] == s[..j - 1];
      BarriersGrow(s, i, j - 1);
    }
  }

  /** Of two requests, one of them a barrier, the one inserted first has the smaller rank. */
  lemma {:induction false} EarlierRank(o: Order, inserted: seq<Request>, i: nat, j: nat)
    requires RankSpec(o, inserted) && i < j < |inserted| && (IsBarrier(inserted[i]) || IsBarrier(inserted[j]))
    ensures inserted[i] in o.rank && inserted[j] in o.rank && o.rank[inserted[i]] < o.rank[inserted[j]]
  {
    hide IsBarrier;
    BarriersGrow(inserted, i + 1, j);
    assert inserted[..i + 1][..i] == inserted[..i];
  }

  /** Barrier order: a request inserted before a barrier, or a barrier inserted before a request, is never
      overtaken. If the later one has been dispatched the earlier one is no longer queued, and of two
      dispatched ones the earlier came first. */
  lemma {:induction false} BarrierOrder(o: Order, pq: seq<seq<Request>>, main: multiset<Request>, barrier: seq<Request>,
                                        inserted: seq<Request>, sent: seq<Request>, i: nat, j: nat, b: nat)
    requires RankSpec(o, inserted) && OrderedIn(o, pq, main, barrier, sent)
    requires i < j < |inserted| && (IsBarrier(inserted[i]) || IsBarrier(inserted[j]))
    requires b < |sent| && sent[b] == inserted[j]
    ensures inserted[i] !in QueuedIn(pq, main, barrier)
    ensures forall a :: 0 <= a < |sent| && sent[a] == inserted[i] ==> a < b
  {
    hide IsBarrier, RankSpec;
    EarlierRank(o, inserted, i, j);
    var r := inserted[i];
    if r in QueuedIn(pq, main, barrier) {
      assert r in pq[1] || r in main || r in barrier;
      if r in barrier {
        var k :| 0 <= k < |barrier| && barrier[k] == r;
        ChainAbove(o, barrier, k);
      }
      assert false;
    }
  }

  /** When only barriers and the device hold requests, all that was inserted before the head barrier has been
      completed or merged exactly when the device is empty. */
  lemma {:induction false} BarrierAndCompletion(h: History, o: Order, barrier: seq<Request>, inFlight: nat, k: nat)
    requires BooksIn(h, h.device, barrier, inFlight) && RankSpec(o, h.inserted)
    requires OrderedIn(o, [[], []], multiset{}, barrier, h.dispatched)
    requires barrier != [] && IsBarrier(barrier[0]) && k < |h.inserted| && h.inserted[k] == barrier[0]
    ensures (forall i :: 0 <= i < k ==> h.inserted[i] in h.completed + h.merged) <==> h.device == []
  {
    if h.device == [] {
      forall i | 0 <= i < k ensures h.inserted[i] in h.completed + h.merged {
        NotBehind(o, h.inserted, barrier, i, k);
        assert h.inserted[i] in multiset(h.inserted);
      }
    } else {
      var i := OnDevice(h, o, barrier, inFlight, k);
      assert h.inserted[i] !in h.completed + h.merged;
    }
  }

  /** What was inserted before the head barrier does not wait behind it. */
  lemma {:induction false} NotBehind(o: Order, inserted: seq<Request>, barrier: seq<Request>, i: nat, k: nat)
    requires RankSpec(o, inserted) && Chain(o, barrier) && barrier != [] && IsBarrier(barrier[0])
    requires i < k < |inserted| && inserted[k] == barrier[0]
    ensures inserted[i] !in barrier
  {
    hide RankSpec, IsBarrier;
    EarlierRank(o, inserted, i, k);
    if inserted[i] in barrier {
      var j :| 0 <= j < |barrier| && barrier[j] == inserted[i];
      ChainAbove(o, barrier, j);
      assert false;
    }
  }

  /** A request on the device is neither completed nor merged, and was inserted before the head barrier. */
  lemma {:induction false} OnDevice(h: History, o: Order, barrier: seq<Request>, inFlight: nat, k: nat) returns (i: nat)
    requires BooksIn(h, h.device, barrier, inFlight) && RankSpec(o, h.inserted) && h.device != []
    requires OrderedIn(o, [[], []], multiset{}, barrier, h.dispatched)
    requires barrier != [] && IsBarrier(barrier[0]) && k < |h.inserted| && h.inserted[k] == barrier[0]
    ensures i < k && h.inserted[i] == h.device[0] && h.device[0] !in h.completed + h.merged
  {
    hide IsBarrier, Accounts;
    var r := h.device[0];
    assert r in multiset(h.device) && r in multiset(h.inserted) && r in multiset(h.dispatched);
    Once(h.inserted, r);
    i :| 0 <= i < |h.inserted| && h.inserted[i] == r;
    if k < i {
      EarlierRank(o, h.inserted, k, i);
    }
  }

  lemma {:induction false} Once(s: seq<Request>, r: Request)
    requires Distinct(s)
    ensures multiset(s)[r] <= 1
  {
    if s != [] {
      var t := s[..|s| - 1];
      assert s == t + [s[|s| - 1]];
      Once(t, r);
      if s[|s| - 1] == r {
        assert r !in t;
      }
    }
  }

  /** Everything behind a barrier ranks above what is active. */
  lemma {:induction false} ChainAbove(o: Order, barrier: seq<Request>, k: nat)
    requires Chain(o, barrier) && k < |barrier|
    ensures o.rank[barrier[k]] > o.level
  {
    hide IsBarrier;
    if k > 0 { ChainAbove(o, barrier, k - 1); }
  }
}
