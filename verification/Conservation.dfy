/** Conservation of quantity by the reference engine, order by order and in total. */
module Conservation {
  import opened OrderTypes
  import opened ReferenceBook
  import opened ReferenceTheorems

  function QtyOf(resting: seq<Order>, id: OrderId): Qty {
    if resting == [] then 0
    else if resting[0].id == id then resting[0].qty
    else QtyOf(resting[1..], id)
  }

  /** What rests in the book for `id`; 0 if it is not there. */
  function BookQty(book: Book, id: OrderId): Qty {
    QtyOf(book.bids, id) + QtyOf(book.asks, id)
  }

  function Share(f: Fill, id: OrderId): Qty {
    (if f.aggressor == id then f.qty else 0) + (if f.passive == id then f.qty else 0)
  }

  /** What `id` traded, as aggressor or as passive order. */
  function Traded(fills: seq<Fill>, id: OrderId): Qty {
    if fills == [] then 0 else Share(fills[0], id) + Traded(fills[1..], id)
  }

  /** The part of an incoming order that neither trades nor rests, because its id is still live. */
  function Refused(book: Book, ev: Event): Qty
    requires ev.AddOrder?
  {
    if InBook(AfterSweep(book, ev), ev.id) then Remainder(book, ev).qty else 0
  }

  /** What an event itself puts in or takes out for `id`, before any matching: an add brings
      its quantity less what is refused, a cancel withdraws what rests, a modify the difference. */
  function Intake(book: Book, ev: Event, id: OrderId): Qty {
    if ev.id != id then 0
    else match ev
      case AddOrder(_, _, _, qty) => qty - Refused(book, ev)
      case CancelOrder(_) => -BookQty(book, id)
      case ModifyOrder(_, qty) =>
        if !InBook(book, id) then 0
        else (if qty <= 0 then 0 else qty) - BookQty(book, id)
  }

  /** Intake of `id` over a whole stream. */
  function TotalIntake(events: seq<Event>, id: OrderId): Qty {
    if events == [] then 0
    else
      var n := |events| - 1;
      TotalIntake(events[..n], id) + Intake(Run(EMPTY_BOOK, events[..n]).book, events[n], id)
  }

  lemma {:induction false} TradedConcat(a: seq<Fill>, b: seq<Fill>, id: OrderId)
    ensures Traded(a + b, id) == Traded(a, id) + Traded(b, id)
  {
    if a == [] {
      assert a + b == b;
    } else {
      assert (a + b)[1..] == a[1..] + b;
      TradedConcat(a[1..], b, id);
    }
  }

  lemma {:induction false} QtyOfAbsent(resting: seq<Order>, id: OrderId)
    requires !HasId(resting, id)
    ensures QtyOf(resting, id) == 0
  {
    if resting == [] {
    } else {
      HasIdCons(resting, id);
      QtyOfAbsent(resting[1..], id);
    }
  }

  lemma {:induction false} QtyOfInsert(side: Side, resting: seq<Order>, o: Order, id: OrderId)
    requires !HasId(resting, o.id)
    ensures QtyOf(Insert(side, resting, o), id) == QtyOf(resting, id) + if o.id == id then o.qty else 0
  {
    if resting == [] || Better(side, o.price, resting[0].price) {
      assert ([o] + resting)[1..] == resting;
      if o.id == id { QtyOfAbsent(resting, id); }
    } else {
      HasIdCons(resting, o.id);
      QtyOfInsert(side, resting[1..], o, id);
      assert Insert(side, resting, o)[1..] == Insert(side, resting[1..], o);
    }
  }

  lemma {:induction false} QtyOfRemove(resting: seq<Order>, gone: OrderId, id: OrderId)
    requires DistinctIds(resting)
    ensures QtyOf(RemoveId(resting, gone), id) == if id == gone then 0 else QtyOf(resting, id)
  {
    if resting == [] {
    } else {
      QtyOfRemove(resting[1..], gone, id);
      if resting[0].id == gone && id == gone {
        assert !HasId(resting[1..], id);
        QtyOfAbsent(resting[1..], id);
      } else if resting[0].id != gone {
        assert RemoveId(resting, gone)[1..] == RemoveId(resting[1..], gone);
      }
    }
  }

  lemma {:induction false} QtyOfSet(resting: seq<Order>, changed: OrderId, qty: Qty, id: OrderId)
    ensures QtyOf(SetQty(resting, changed, qty), id)
            == if id == changed && HasId(resting, id) then qty else QtyOf(resting, id)
  {
    if resting == [] {
    } else {
      HasIdCons(resting, id);
      QtyOfSet(resting[1..], changed, qty, id);
      assert SetQty(resting, changed, qty)[1..] ==
             if resting[0].id == changed then resting[1..] else SetQty(resting[1..], changed, qty);
    }
  }

  /** The aggressor's quantity splits into its fills and its remainder, and every passive
      order falls by exactly the fills that name it, the aggressor's own id included. */
  lemma {:induction false} SweepConserves(agg: OrderId, side: Side, limit: Price, qty: Qty,
                                          resting: seq<Order>, id: OrderId)
    requires DistinctIds(resting)
    ensures var r := Sweep(agg, side, limit, qty, resting);
            Traded(r.fills, id) == (if id == agg then qty - r.left else 0) + QtyOf(resting, id) - QtyOf(r.rest, id)
    decreases |resting|
  {
    if qty <= 0 || resting == [] || !Crosses(side, limit, resting[0].price) {
    } else {
      var r := Sweep(agg, side, limit, qty, resting);
      if qty < resting[0].qty {
        assert r.rest[1..] == resting[1..];
        assert r.fills[1..] == [];
      } else {
        SweepConserves(agg, side, limit, qty - resting[0].qty, resting[1..], id);
        var more := Sweep(agg, side, limit, qty - resting[0].qty, resting[1..]);
        assert r.fills[1..] == more.fills;
        if resting[0].id == id {
          assert !HasId(resting[1..], id);
          SweepKeepsIds(agg, side, limit, qty - resting[0].qty, resting[1..], id);
          QtyOfAbsent(resting[1..], id);
          QtyOfAbsent(more.rest, id);
        }
      }
    }
  }

  lemma {:induction false} SweepKeepsIds(agg: OrderId, side: Side, limit: Price, qty: Qty,
                                         resting: seq<Order>, id: OrderId)
    requires !HasId(resting, id)
    ensures !HasId(Sweep(agg, side, limit, qty, resting).rest, id)
    decreases |resting|
  {
    if qty <= 0 || resting == [] || !Crosses(side, limit, resting[0].price) {
    } else {
      HasIdCons(resting, id);
      if qty < resting[0].qty {
        var r := Sweep(agg, side, limit, qty, resting).rest;
        assert r[1..] == resting[1..];
        HasIdCons(r, id);
      } else {
        SweepKeepsIds(agg, side, limit, qty - resting[0].qty, resting[1..], id);
      }
    }
  }

  lemma AddConserves(book: Book, ev: Event, id: OrderId)
    requires BookOk(book) && EventOk(ev) && ev.AddOrder?
    ensures BookQty(Step(book, ev).book, id)
            == BookQty(book, id) + Intake(book, ev, id) - Traded(Step(book, ev).fills, id)
  {
    SweepConserves(ev.id, ev.side, ev.price, ev.qty, book.On(Opposite(ev.side)), id);
    AfterSweepOk(book, ev);
    var mid, left := AfterSweep(book, ev), Remainder(book, ev);
    if left.qty > 0 && !InBook(mid, ev.id) {
      QtyOfInsert(ev.side, book.On(ev.side), left, id);
    }
  }

  lemma StepConserves(book: Book, ev: Event, id: OrderId)
    requires BookOk(book) && EventOk(ev)
    ensures BookQty(Step(book, ev).book, id)
            == BookQty(book, id) + Intake(book, ev, id) - Traded(Step(book, ev).fills, id)
  {
    if ev.AddOrder? {
      AddConserves(book, ev, id);
    } else {
      QtyOfRemove(book.bids, ev.id, id);
      QtyOfRemove(book.asks, ev.id, id);
      if !InBook(book, id) {
        QtyOfAbsent(book.bids, id);
        QtyOfAbsent(book.asks, id);
      }
      if ev.ModifyOrder? {
        QtyOfSet(book.bids, ev.id, ev.qty, id);
        QtyOfSet(book.asks, ev.id, ev.qty, id);
        if !HasId(book.bids, id) { QtyOfAbsent(book.bids, id); }
        if !HasId(book.asks, id) { QtyOfAbsent(book.asks, id); }
      }
    }
  }

  /** Over any stream and for every order: what the events brought in is what it has
      traded plus what still rests. */
  lemma {:induction false} RunConserves(events: seq<Event>, id: OrderId)
    requires StreamOk(events)
    ensures TotalIntake(events, id)
            == Traded(Run(EMPTY_BOOK, events).fills, id) + BookQty(Run(EMPTY_BOOK, events).book, id)
  {
    if events == [] {
    } else {
      var n := |events| - 1;
      StreamPrefixOk(events);
      RunOk(EMPTY_BOOK, events[..n]);
      RunConserves(events[..n], id);
      var before := Run(EMPTY_BOOK, events[..n]);
      StepConserves(before.book, events[n], id);
      TradedConcat(before.fills, Step(before.book, events[n]).fills, id);
    }
  }

  // ---------------------------------------------------------------- totals

  function SumQty(resting: seq<Order>): Qty {
    if resting == [] then 0 else resting[0].qty + SumQty(resting[1..])
  }

  function Resting(book: Book): Qty {
    SumQty(book.bids) + SumQty(book.asks)
  }

  function FilledQty(fills: seq<Fill>): Qty {
    if fills == [] then 0 else fills[0].qty + FilledQty(fills[1..])
  }

  /** Net quantity the stream's own adds, cancels and modifies brought in, over all orders. */
  function NetIntake(events: seq<Event>): Qty {
    if events == [] then 0
    else
      var n := |events| - 1;
      NetIntake(events[..n]) + Intake(Run(EMPTY_BOOK, events[..n]).book, events[n], events[n].id)
  }

  lemma {:induction false} FilledConcat(a: seq<Fill>, b: seq<Fill>)
    ensures FilledQty(a + b) == FilledQty(a) + FilledQty(b)
  {
    if a == [] {
      assert a + b == b;
    } else {
      assert (a + b)[1..] == a[1..] + b;
      FilledConcat(a[1..], b);
    }
  }

  lemma {:induction false} SumInsert(side: Side, resting: seq<Order>, o: Order)
    ensures SumQty(Insert(side, resting, o)) == SumQty(resting) + o.qty
  {
    if resting == [] || Better(side, o.price, resting[0].price) {
      assert ([o] + resting)[1..] == resting;
    } else {
      SumInsert(side, resting[1..], o);
      assert Insert(side, resting, o)[1..] == Insert(side, resting[1..], o);
    }
  }

  lemma {:induction false} SumRemove(resting: seq<Order>, id: OrderId)
    ensures SumQty(RemoveId(resting, id)) == SumQty(resting) - QtyOf(resting, id)
  {
    if resting == [] {
    } else {
      SumRemove(resting[1..], id);
      if resting[0].id != id {
        assert RemoveId(resting, id)[1..] == RemoveId(resting[1..], id);
      }
    }
  }

  lemma {:induction false} SumSet(resting: seq<Order>, id: OrderId, qty: Qty)
    ensures SumQty(SetQty(resting, id, qty))
            == SumQty(resting) + if HasId(resting, id) then qty - QtyOf(resting, id) else 0
  {
    if resting == [] {
    } else {
      HasIdCons(resting, id);
      SumSet(resting[1..], id, qty);
      assert SetQty(resting, id, qty)[1..] ==
             if resting[0].id == id then resting[1..] else SetQty(resting[1..], id, qty);
    }
  }

  lemma {:induction false} SumSweep(agg: OrderId, side: Side, limit: Price, qty: Qty, resting: seq<Order>)
    ensures var r := Sweep(agg, side, limit, qty, resting);
            && FilledQty(r.fills) == qty - r.left
            && SumQty(r.rest) == SumQty(resting) - FilledQty(r.fills)
    decreases |resting|
  {
    if qty <= 0 || resting == [] || !Crosses(side, limit, resting[0].price) {
    } else {
      var r := Sweep(agg, side, limit, qty, resting);
      if qty < resting[0].qty {
        assert r.rest[1..] == resting[1..];
        assert r.fills[1..] == [];
      } else {
        SumSweep(agg, side, limit, qty - resting[0].qty, resting[1..]);
        assert r.fills[1..] == Sweep(agg, side, limit, qty - resting[0].qty, resting[1..]).fills;
      }
    }
  }

  lemma StepConservesTotal(book: Book, ev: Event)
    requires BookOk(book) && EventOk(ev)
    ensures Resting(Step(book, ev).book)
            == Resting(book) + Intake(book, ev, ev.id) - 2 * FilledQty(Step(book, ev).fills)
  {
    match ev
    case AddOrder(id, side, price, qty) =>
      SumSweep(id, side, price, qty, book.On(Opposite(side)));
      AfterSweepOk(book, ev);
      SumInsert(side, book.On(side), Remainder(book, ev));
    case CancelOrder(id) =>
      SumRemove(book.bids, id);
      SumRemove(book.asks, id);
    case ModifyOrder(id, qty) =>
      SumRemove(book.bids, id);
      SumRemove(book.asks, id);
      SumSet(book.bids, id, qty);
      SumSet(book.asks, id, qty);
      if !HasId(book.bids, id) { QtyOfAbsent(book.bids, id); }
      if !HasId(book.asks, id) { QtyOfAbsent(book.asks, id); }
  }

  /** Every unit traded leaves the book twice, once on each side; nothing else is lost. */
  lemma {:induction false} RunConservesTotal(events: seq<Event>)
    requires StreamOk(events)
    ensures NetIntake(events)
            == 2 * FilledQty(Run(EMPTY_BOOK, events).fills) + Resting(Run(EMPTY_BOOK, events).book)
  {
    if events == [] {
    } else {
      var n := |events| - 1;
      StreamPrefixOk(events);
      RunOk(EMPTY_BOOK, events[..n]);
      RunConservesTotal(events[..n]);
      var before := Run(EMPTY_BOOK, events[..n]);
      StepConservesTotal(before.book, events[n]);
      FilledConcat(before.fills, Step(before.book, events[n]).fills);
    }
  }
}
