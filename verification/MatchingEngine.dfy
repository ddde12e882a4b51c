/** `MatchingEngine`: price-time matching over the order book with lazy-deletion queues.

    The engine's state is the book, two maps of queues and two counters; `State` reads the
    first three as a value of `Lazy`.  Every method is the corresponding function on that
    value, for every well-formed event, whatever ids it uses. */
module MatchingEngines {
  import opened Basics
  import opened OrderTypes
  import opened ReferenceBook
  import opened ReferenceTheorems
  import opened Conservation
  import opened OrderBook
  import opened LazyEngine
  import opened LazyRefinement
  import opened LazyTheorems
  import opened LazyEntries

  class MatchingEngine {
    const book: LimitOrderBook
    var bidQueue: Queues
    var askQueue: Queues
    var ordersProcessed: nat
    var fillsGenerated: nat

    function State(): Lazy
      reads this, book
    {
      Lazy(book.orders, bidQueue, askQueue)
    }

    ghost predicate Valid()
      reads this, book, book.book
    {
      book.Valid() && LazyOk(State())
    }

    constructor ()
      ensures Valid() && fresh(book) && fresh(book.book)
      ensures State() == EMPTY_ENGINE && ordersProcessed == 0 && fillsGenerated == 0
    {
      book := new LimitOrderBook();
      bidQueue, askQueue := map[], map[];
      ordersProcessed, fillsGenerated := 0, 0;
    }

    method SetQueue(side: Side, price: Price, queue: seq<OrderId>)
      modifies `bidQueue, `askQueue
      ensures State() == old(State()).WithEntries(side, price, queue)
    {
      if side == Buy {
        bidQueue := bidQueue[price := queue];
      } else {
        askQueue := askQueue[price := queue];
      }
    }

    /** The quoted best price is the best price among the live orders. */
    lemma BestIsBestOf(side: Side)
      requires Valid()
      ensures book.Best(side) == BestOf(book.orders, side)
    {
      BestUnique(book.orders, side, book.Best(side), BestOf(book.orders, side));
    }

    /** Skips a dead entry at the front of a queue. */
    method PopDeadFront(side: Side, price: Price)
      requires Valid()
      requires State().Entries(side, price) != [] && State().Entries(side, price)[0] !in book.orders
      modifies `bidQueue, `askQueue
      ensures Valid() && State() == PopFront(old(State()), side, price)
    {
      PopDeadOk(State(), side, price);
      SetQueue(side, price, State().Entries(side, price)[1..]);
    }

    /** Removes an order from the book only; its queue entry stays behind. */
    method DropOrder(id: OrderId)
      requires Valid()
      modifies book, book.book
      ensures Valid() && State() == Drop(old(State()), id)
    {
      DropOk(State(), id);
      var _ := book.CancelOrder(id);
    }

    /** `modify_order` on the book alone: a live order keeps its place in its queue. */
    method ResizeOrder(id: OrderId, qty: Qty)
      requires Valid()
      modifies book, book.book
      ensures Valid() && State() == Resize(old(State()), id, qty)
    {
      ResizeOk(State(), id, qty);
      var _ := book.ModifyOrder(id, qty);
    }

    /** Fills `qty` of the live order at the front of a queue: a full fill cancels it and pops
        its entry, a partial fill keeps its place. */
    method FillTop(side: Side, price: Price, qty: Qty)
      requires Valid()
      requires State().Entries(side, price) != [] && State().Entries(side, price)[0] in book.orders
      requires 0 < qty <= book.orders[State().Entries(side, price)[0]].qty
      modifies `bidQueue, `askQueue, book, book.book
      ensures Valid() && State() == FillFront(old(State()), side, price, qty)
    {
      var top := book.orders[State().Entries(side, price)[0]];
      if qty == top.qty {
        DropOrder(top.id);
        PopDeadFront(side, price);
      } else {
        ResizeOrder(top.id, top.qty - qty);
      }
    }

    /** The matching loop: serves the opposite side while its best price is within the limit.
        It ends, and never meets an empty queue, whatever ids have been used. */
    method Match(id: OrderId, side: Side, limit: Price, qty: Qty, fills: seq<Fill>)
      returns (left: Qty, all: seq<Fill>)
      requires Valid()
      modifies `bidQueue, `askQueue, book, book.book
      ensures Valid()
      ensures var m := LazyMatch(old(State()), id, side, limit, qty);
              State() == m.state && left == m.left && all == fills + m.fills
    {
      hide IsBestPrice, IndexAgrees, OrdersOk, Queued, LevelsOk, FillFront, Keyed;
      var far := Opposite(side);
      ghost var whole := LazyMatch(State(), id, side, limit, qty);
      left, all := qty, fills;
      BestIsBestOf(far);
      while left > 0 && book.Best(far) != NO_PRICE && Crosses(side, limit, book.Best(far))
        invariant Valid() && book.Best(far) == BestOf(book.orders, far)
        invariant var rest := LazyMatch(State(), id, side, limit, left);
                  && fills + whole.fills == all + rest.fills
                  && whole.left == rest.left
                  && whole.state == rest.state
        decreases if left > 0 then left else 0, |State().Entries(far, book.Best(far))|
      {
        var best := book.Best(far);
        BestHasFront(State(), far);
        var front := State().Entries(far, best)[0];
        var found := book.FindOrder(front);
        if found.None? {
          EntriesWith(State(), far, best, State().Entries(far, best)[1..], far, best);
          PopDeadFront(far, best);
        } else {
          var traded := Min(left, found.value.qty);
          PositiveQty(book.orders, front);
          FillTop(far, best, traded);
          all := all + [Fill(id, found.value.id, found.value.price, traded)];
          left := left - traded;
        }
        BestIsBestOf(far);
      }
    }

    lemma PositiveQty(orders: Orders, id: OrderId)
      requires LazyOk(State()) && orders == book.orders && id in orders
      ensures orders[id].qty > 0
    {
    }

    /** Rests the unfilled remainder of an order: book first, then the back of its queue.  The
        id of an order that is still live is refused by the book, and nothing is queued. */
    method RestRemainder(o: Order)
      requires Valid() && o.qty > 0 && o.price >= 0
      modifies `bidQueue, `askQueue, book, book.book
      ensures Valid() && State() == LazyRest(old(State()), o)
    {
      LazyRestOk(State(), o);
      var ok := book.AddOrder(o);
      if ok {
        SetQueue(o.side, o.price, State().Entries(o.side, o.price) + [o.id]);
      }
    }

    /** One event.  From a state that stands for a reference book, its fills are those of the
        reference whatever its id, and so is the state it leaves if an add rests cleanly. */
    method ProcessEvent(ev: Event, fills: seq<Fill>) returns (all: seq<Fill>)
      requires Valid() && EventOk(ev)
      modifies this, book, book.book
      ensures Valid()
      ensures var step := LazyStep(old(State()), ev);
              State() == step.state && all == fills + step.fills
      ensures forall reference :: Linked(old(State()), reference) ==>
                && all == fills + Step(reference, ev).fills
                && ((ev.AddOrder? ==> CleanAdd(old(State()), ev)) ==> Linked(State(), Step(reference, ev).book))
      ensures ordersProcessed == old(ordersProcessed) + 1
      ensures fillsGenerated == old(fillsGenerated) + |all| - |fills|
    {
      hide IndexAgrees, LazyOk, LazyMatch, Linked, CleanAdd, Step;
      forall reference | Linked(State(), reference)
        ensures LazyStep(State(), ev).fills == Step(reference, ev).fills
        ensures (ev.AddOrder? ==> CleanAdd(State(), ev)) ==>
                  Linked(LazyStep(State(), ev).state, Step(reference, ev).book)
      {
        StepRefines(State(), reference, ev);
      }
      ordersProcessed := ordersProcessed + 1;
      match ev {
        case AddOrder(id, side, price, qty) =>
          var left;
          left, all := Match(id, side, price, qty, fills);
          if left > 0 {
            RestRemainder(Order(id, side, price, left));
          }
        case CancelOrder(id) =>
          all := fills;
          DropOrder(id);
        case ModifyOrder(id, qty) =>
          all := fills;
          ResizeOrder(id, qty);
      }
      fillsGenerated := fillsGenerated + (|all| - |fills|);
    }

    /** A whole batch.  From a state that stands for a reference book, a stream whose adds rest
        cleanly has the fills of the reference and leaves a state that stands for its book. */
    method ProcessEvents(events: seq<Event>, fills: seq<Fill>) returns (all: seq<Fill>)
      requires Valid() && StreamOk(events)
      modifies this, book, book.book
      ensures Valid()
      ensures var run := LazyRun(old(State()), events);
              State() == run.state && all == fills + run.fills
      ensures forall reference :: Linked(old(State()), reference) && CleanRun(old(State()), events) ==>
                all == fills + Run(reference, events).fills && Linked(State(), Run(reference, events).book)
      ensures ordersProcessed == old(ordersProcessed) + |events|
      ensures fillsGenerated == old(fillsGenerated) + |all| - |fills|
    {
      hide IndexAgrees, LazyOk, LazyStep, Linked, CleanRun, Run;
      forall reference | Linked(State(), reference) && CleanRun(State(), events)
        ensures LazyRun(State(), events).fills == Run(reference, events).fills
        ensures Linked(LazyRun(State(), events).state, Run(reference, events).book)
      {
        RunRefines(State(), reference, events);
      }
      all := fills;
      for i := 0 to |events|
        invariant Valid()
        invariant var run := LazyRun(old(State()), events[..i]);
                  State() == run.state && all == fills + run.fills
        invariant ordersProcessed == old(ordersProcessed) + i
        invariant fillsGenerated == old(fillsGenerated) + |all| - |fills|
      {
        all := ProcessEvent(events[i], all);
        assert events[..i + 1][..i] == events[..i];
      }
      assert events[..|events|] == events;
    }

    /** What a user of a linked engine's book sees is the reference book: every level quantity,
        and every order by id. */
    lemma BookIsReference(reference: Book, side: Side, price: Price, id: OrderId)
      requires Valid() && Linked(State(), reference)
      ensures book.QtyAt(side, price) == QtyAtPrice(reference.On(side), price)
      ensures book.FindOrder(id).Some? <==> InBook(reference, id)
      ensures book.FindOrder(id).Some? ==> book.FindOrder(id).value in reference.bids + reference.asks
    {
      LinkedIds(State(), reference, id);
      LinkedLevels(State(), reference, side, price);
    }

    /** The best prices are those of the reference, and -1 means an empty side. */
    lemma QuotesAreReference(reference: Book, side: Side)
      requires Valid() && Linked(State(), reference)
      ensures book.Best(side) == if reference.On(side) == [] then NO_PRICE else reference.On(side)[0].price
    {
      BestIsBestOf(side);
      LinkedBest(State(), reference, side);
    }

    /** Quotes do not cross, whatever ids have been used. */
    lemma QuotesNeverCross()
      requires Valid() && UncrossedOrders(book.orders)
      ensures book.Best(Buy) != NO_PRICE && book.Best(Sell) != NO_PRICE ==> book.Best(Buy) < book.Best(Sell)
    {
      if book.Best(Buy) != NO_PRICE && book.Best(Sell) != NO_PRICE {
        var a :| RestsAt(book.orders, a, Buy, book.Best(Buy));
        var b :| RestsAt(book.orders, b, Sell, book.Best(Sell));
      }
    }
  }

  lemma LinkedLevels(st: Lazy, book: Book, side: Side, price: Price)
    requires Linked(st, book)
    ensures LiveQty(st.orders, side, price) == QtyAtPrice(book.On(side), price)
  {
    LevelsMatch(st.orders, side, book.On(side), price);
  }

  /** A stream fed to a fresh engine: the fills and quotes a user observes, stated without the
      engine.  The quotes never cross.  If no id is added twice, or each reuse rests cleanly,
      the fills and quotes are those of the eager reference, and each order's intake is what
      it traded plus what rests. */
  method Replay(events: seq<Event>) returns (fills: seq<Fill>, bid: Price, ask: Price)
    requires StreamOk(events)
    ensures LazyOk(EMPTY_ENGINE)
    ensures bid != NO_PRICE && ask != NO_PRICE ==> bid < ask
    ensures DistinctAdds(events) || CleanRun(EMPTY_ENGINE, events) ==>
              var run := Run(EMPTY_BOOK, events);
              && fills == run.fills
              && bid == (if run.book.bids == [] then NO_PRICE else run.book.bids[0].price)
              && ask == (if run.book.asks == [] then NO_PRICE else run.book.asks[0].price)
              && forall id :: TotalIntake(events, id) == Traded(fills, id) + BookQty(run.book, id)
  {
    hide IndexAgrees, Keyed, LazyOk, LazyRun, Run, Linked, CleanRun, DistinctAdds, TotalIntake, BookQty, Traded;
    hide UncrossedOrders, StreamOk;
    ReplayUncrossed(events);
    var engine := new MatchingEngine();
    fills := engine.ProcessEvents(events, []);
    assert [] + LazyRun(EMPTY_ENGINE, events).fills == LazyRun(EMPTY_ENGINE, events).fills;
    bid, ask := engine.book.Best(Buy), engine.book.Best(Sell);
    engine.QuotesNeverCross();
    if DistinctAdds(events) || CleanRun(EMPTY_ENGINE, events) {
      CleanReplay(events);
      engine.QuotesAreReference(Run(EMPTY_BOOK, events).book, Buy);
      engine.QuotesAreReference(Run(EMPTY_BOOK, events).book, Sell);
      StreamConserves(events);
    }
  }

  lemma ReplayUncrossed(events: seq<Event>)
    requires StreamOk(events)
    ensures LazyOk(EMPTY_ENGINE) && UncrossedOrders(LazyRun(EMPTY_ENGINE, events).state.orders)
  {
    RunUncrossed(EMPTY_ENGINE, events);
  }

  lemma StreamConserves(events: seq<Event>)
    requires StreamOk(events)
    ensures var run := Run(EMPTY_BOOK, events);
            forall id :: TotalIntake(events, id) == Traded(run.fills, id) + BookQty(run.book, id)
  {
    forall id: OrderId
      ensures TotalIntake(events, id)
              == Traded(Run(EMPTY_BOOK, events).fills, id) + BookQty(Run(EMPTY_BOOK, events).book, id)
    {
      RunConserves(events, id);
    }
  }

  lemma CleanReplay(events: seq<Event>)
    requires StreamOk(events) && (DistinctAdds(events) || CleanRun(EMPTY_ENGINE, events))
    ensures LazyRun(EMPTY_ENGINE, events).fills == Run(EMPTY_BOOK, events).fills
    ensures Linked(LazyRun(EMPTY_ENGINE, events).state, Run(EMPTY_BOOK, events).book)
  {
    if DistinctAdds(events) {
      FreshFromEmpty(events);
      FreshIsClean(EMPTY_ENGINE, events);
    }
    EmptyLinked();
    RunRefines(EMPTY_ENGINE, EMPTY_BOOK, events);
  }
}
