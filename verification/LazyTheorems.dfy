/** Lazy deletion refines eager deletion, event by event and over whole streams. */
module LazyTheorems {
  import opened Basics
  import opened OrderTypes
  import opened ReferenceBook
  import opened ReferenceTheorems
  import opened OrderBook
  import opened LazyEngine
  import opened LazyRefinement

  // ---------------------------------------------------------------- the actions on a linked state

  lemma PopDeadLinked(st: Lazy, book: Book, side: Side, price: Price)
    requires Linked(st, book) && st.Entries(side, price) != [] && st.Entries(side, price)[0] !in st.orders
    ensures Linked(PopFront(st, side, price), book)
  {
    hide Represents, BookOk;
    PopDeadOk(st, side, price);
    PopDeadRepresents(st, side, price, Buy, book.bids);
    PopDeadRepresents(st, side, price, Sell, book.asks);
  }

  lemma DropLinked(st: Lazy, book: Book, id: OrderId)
    requires Linked(st, book)
    ensures Linked(Drop(st, id), Cancel(book, id))
  {
    DropOk(st, id);
    CancelOk(book, id);
    hide Represents, BookOk;
    DropRepresents(st, Buy, book.bids, id);
    DropRepresents(st, Sell, book.asks, id);
  }

  lemma ResizeLinked(st: Lazy, book: Book, id: OrderId, qty: Qty)
    requires Linked(st, book)
    ensures Linked(Resize(st, id, qty), Modify(book, id, qty))
  {
    ResizeOk(st, id, qty);
    StepOk(book, ModifyOrder(id, qty));
    hide Represents, BookOk;
    ResizeRepresents(st, Buy, book.bids, id, qty);
    ResizeRepresents(st, Sell, book.asks, id, qty);
  }

  lemma LinkedIds(st: Lazy, book: Book, id: OrderId)
    requires Linked(st, book)
    ensures InBook(book, id) <==> id in st.orders
  {
    IdsAreLive(st.orders, Buy, book.bids, id);
    IdsAreLive(st.orders, Sell, book.asks, id);
  }

  lemma FillLinked(st: Lazy, book: Book, side: Side, traded: Qty)
    requires Linked(st, book) && book.On(side) != []
    requires var top := book.On(side)[0];
             && st.Entries(side, top.price) != []
             && st.Entries(side, top.price)[0] == top.id
             && 0 < traded <= top.qty
    ensures book.On(side)[0].id in st.orders
    ensures Linked(FillFront(st, side, book.On(side)[0].price, traded),
                   book.With(side, AfterFill(book.On(side), traded)))
  {
    hide Linked, Resize, HasId;
    TopIsLive(st, book, side);
    if traded == book.On(side)[0].qty {
      FullFillLinked(st, book, side);
    } else {
      PartialFillLinked(st, book, side, traded);
    }
  }

  lemma FullFillLinked(st: Lazy, book: Book, side: Side)
    requires Linked(st, book) && book.On(side) != []
    requires var top := book.On(side)[0];
             && top.id in st.orders && !HasId(book.On(Opposite(side)), top.id)
             && st.Entries(side, top.price) != [] && st.Entries(side, top.price)[0] == top.id
    ensures var top := book.On(side)[0];
            Linked(PopFront(Drop(st, top.id), side, top.price), book.With(side, book.On(side)[1..]))
  {
    hide Linked;
    var top := book.On(side)[0];
    UpdateTop(book, side, 0);
    DropLinked(st, book, top.id);
    PopDeadLinked(Drop(st, top.id), Cancel(book, top.id), side, top.price);
  }

  lemma PartialFillLinked(st: Lazy, book: Book, side: Side, traded: Qty)
    requires Linked(st, book) && book.On(side) != []
    requires var top := book.On(side)[0];
             top.id in st.orders && !HasId(book.On(Opposite(side)), top.id) && 0 < traded < top.qty
    ensures var top := book.On(side)[0];
            var left := top.qty - traded;
            Linked(Resize(st, top.id, left), book.With(side, [top.(qty := left)] + book.On(side)[1..]))
  {
    hide Linked, Resize;
    var top := book.On(side)[0];
    UpdateTop(book, side, top.qty - traded);
    ResizeLinked(st, book, top.id, top.qty - traded);
  }

  lemma TopIsLive(st: Lazy, book: Book, side: Side)
    requires Linked(st, book) && book.On(side) != []
    ensures var top := book.On(side)[0];
            && top.id in st.orders && st.orders[top.id] == top
            && !HasId(book.On(Opposite(side)), top.id)
  {
    hide Served, IdsAt, LazyOk;
    assert Represents(st, side, book.On(side));
    assert HasId(book.On(side), book.On(side)[0].id);
  }

  /** A remainder that rests cleanly, or is refused, keeps the link. */
  lemma RestLinked(st: Lazy, book: Book, o: Order)
    requires Linked(st, book) && o.price >= 0 && (o.qty > 0 ==> NothingCrosses(book, o))
    requires o.qty > 0 && o.id !in st.orders ==> RestsCleanly(st, o)
    ensures Linked(LazyRest(st, o), Rest(book, o))
  {
    LinkedIds(st, book, o.id);
    RestOk(book, o);
    LazyRestOk(st, o);
    if o.qty > 0 && o.id !in st.orders {
      hide Represents, BookOk, LazyRest, Insert, InBook;
      RestRepresents(st, Buy, book.bids, o);
      RestRepresents(st, Sell, book.asks, o);
    }
  }

  // ---------------------------------------------------------------- the matching loop

  /** From a linked state the loop serves exactly the greedy sweep of the reference. */
  lemma {:induction false} MatchRefines(st: Lazy, book: Book, id: OrderId, side: Side, limit: Price, qty: Qty)
    requires Linked(st, book)
    ensures var far := Opposite(side);
            var m := LazyMatch(st, id, side, limit, qty);
            var swept := Sweep(id, side, limit, qty, book.On(far));
            && m.fills == swept.fills
            && m.left == swept.left
            && Linked(m.state, book.With(far, swept.rest))
    decreases if qty > 0 then qty else 0, |st.Entries(Opposite(side), BestOf(st.orders, Opposite(side)))|
  {
    hide Represents, Sweep, AfterFill, FillFront;
    var far := Opposite(side);
    var best := BestOf(st.orders, far);
    LinkedBest(st, book, far);
    if qty <= 0 || best == NO_PRICE || !Crosses(side, limit, best) {
      SweepStops(id, side, limit, qty, book.On(far));
      assert book.With(far, book.On(far)) == book;
    } else {
      FrontOfBest(st, book, far);
      var front := st.Entries(far, best)[0];
      if front !in st.orders {
        PopDeadLinked(st, book, far, best);
        EntriesWith(st, far, best, st.Entries(far, best)[1..], far, best);
        MatchRefines(PopFront(st, far, best), book, id, side, limit, qty);
      } else {
        var top := book.On(far)[0];
        var traded := Min(qty, top.qty);
        FillLinked(st, book, far, traded);
        SweepStep(id, side, limit, qty, book.On(far));
        var rest := AfterFill(book.On(far), traded);
        MatchRefines(FillFront(st, far, best, traded), book.With(far, rest), id, side, limit, qty - traded);
      }
    }
  }

  lemma LinkedBest(st: Lazy, book: Book, side: Side)
    requires Linked(st, book)
    ensures BestOf(st.orders, side) == NO_PRICE <==> book.On(side) == []
    ensures book.On(side) != [] ==> BestOf(st.orders, side) == book.On(side)[0].price && book.On(side)[0].qty > 0
  {
    BestIsFront(st.orders, side, book.On(side), BestOf(st.orders, side));
  }

  // ---------------------------------------------------------------- one event

  /** What the add leaves to rest does so cleanly. */
  ghost predicate CleanAdd(st: Lazy, ev: Event)
    requires LazyOk(st) && ev.AddOrder? && EventOk(ev)
  {
    var m := LazyMatch(st, ev.id, ev.side, ev.price, ev.qty);
    m.left > 0 && ev.id !in m.state.orders ==> RestsCleanly(m.state, Order(ev.id, ev.side, ev.price, m.left))
  }

  /** The fills of an event agree with the reference whatever its id, and so does the state it
      leaves if an add rests cleanly. */
  lemma StepRefines(st: Lazy, book: Book, ev: Event)
    requires Linked(st, book) && EventOk(ev)
    ensures LazyStep(st, ev).fills == Step(book, ev).fills
    ensures (ev.AddOrder? ==> CleanAdd(st, ev)) ==> Linked(LazyStep(st, ev).state, Step(book, ev).book)
  {
    match ev
    case AddOrder(id, side, price, qty) =>
      MatchRefines(st, book, id, side, price, qty);
      AfterSweepOk(book, ev);
      var m := LazyMatch(st, id, side, price, qty);
      if CleanAdd(st, ev) {
        RestLinked(m.state, AfterSweep(book, ev), Remainder(book, ev));
      }
    case CancelOrder(id) => DropLinked(st, book, id);
    case ModifyOrder(id, qty) => ResizeLinked(st, book, id, qty);
  }

  // ---------------------------------------------------------------- whole streams

  /** Every add of the stream rests cleanly when its turn comes. */
  ghost predicate CleanRun(st: Lazy, events: seq<Event>)
    requires LazyOk(st) && StreamOk(events)
  {
    if events == [] then true
    else
      var n := |events| - 1;
      && CleanRun(st, events[..n])
      && (events[n].AddOrder? ==> CleanAdd(LazyRun(st, events[..n]).state, events[n]))
  }

  /** Refinement over whole streams: same fills, and a final state that stands for the same book. */
  lemma {:induction false} RunRefines(st: Lazy, book: Book, events: seq<Event>)
    requires Linked(st, book) && StreamOk(events) && CleanRun(st, events)
    ensures LazyRun(st, events).fills == Run(book, events).fills
    ensures Linked(LazyRun(st, events).state, Run(book, events).book)
  {
    if events == [] {
    } else {
      hide Linked, Step, LazyStep, CleanAdd;
      var n := |events| - 1;
      RunRefines(st, book, events[..n]);
      StepRefines(LazyRun(st, events[..n]).state, Run(book, events[..n]).book, events[n]);
    }
  }

  lemma EmptyLinked()
    ensures Linked(EMPTY_ENGINE, EMPTY_BOOK)
  {
  }
}
