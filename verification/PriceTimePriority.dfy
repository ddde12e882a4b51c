/** Time priority over whole runs: the reference book always lists its orders by
    (price, position of the AddOrder event in the stream). */
module PriceTimePriority {
  import opened OrderTypes
  import opened ReferenceBook
  import opened ReferenceTheorems

  /** The event leaves a new order resting. */
  predicate Rests(book: Book, ev: Event) {
    ev.AddOrder? && Remainder(book, ev).qty > 0 && !InBook(AfterSweep(book, ev), ev.id)
  }

  /** Where in the stream the order now known as `id` came to rest; -1 if none did. */
  function Arrival(events: seq<Event>, id: OrderId): int {
    if events == [] then -1
    else
      var n := |events| - 1;
      if events[n].id == id && Rests(Run(EMPTY_BOOK, events[..n]).book, events[n]) then n
      else Arrival(events[..n], id)
  }

  /** `a` must trade before `b`: a better price, or the same price and an earlier arrival. */
  predicate Precedes(side: Side, events: seq<Event>, a: Order, b: Order) {
    || Better(side, a.price, b.price)
    || (a.price == b.price && Arrival(events, a.id) < Arrival(events, b.id))
  }

  ghost predicate PriceTimeSorted(side: Side, events: seq<Event>, resting: seq<Order>) {
    forall i, j :: 0 <= i < j < |resting| ==> Precedes(side, events, resting[i], resting[j])
  }

  lemma {:induction false} ArrivalBelow(events: seq<Event>, id: OrderId)
    ensures Arrival(events, id) < |events|
  {
    if events == [] {
    } else {
      ArrivalBelow(events[..|events| - 1], id);
    }
  }

  lemma {:induction false} InsertKeepsTime(side: Side, events: seq<Event>, resting: seq<Order>, o: Order)
    requires PriceTimeSorted(side, events, resting)
    requires forall i :: 0 <= i < |resting| ==> Arrival(events, resting[i].id) < Arrival(events, o.id)
    ensures PriceTimeSorted(side, events, Insert(side, resting, o))
    ensures forall x :: x in Insert(side, resting, o) <==> x == o || x in resting
  {
    var r := Insert(side, resting, o);
    if resting == [] || Better(side, o.price, resting[0].price) {
      assert forall i :: 0 < i < |r| ==> r[i] == resting[i - 1];
    } else {
      InsertKeepsTime(side, events, resting[1..], o);
      var t := Insert(side, resting[1..], o);
      forall i | 0 <= i < |t| ensures Precedes(side, events, resting[0], t[i]) {
        assert t[i] in t;
      }
    }
  }

  lemma {:induction false} RemoveKeepsTime(side: Side, events: seq<Event>, resting: seq<Order>, id: OrderId)
    requires PriceTimeSorted(side, events, resting)
    ensures PriceTimeSorted(side, events, RemoveId(resting, id))
    ensures forall x :: x in RemoveId(resting, id) ==> x in resting
  {
    if resting == [] {
    } else {
      RemoveKeepsTime(side, events, resting[1..], id);
      var t := RemoveId(resting[1..], id);
      forall i | 0 <= i < |t| ensures Precedes(side, events, resting[0], t[i]) {
        assert t[i] in t;
      }
    }
  }

  lemma {:induction false} SweepKeepsTime(id: OrderId, side: Side, limit: Price, qty: Qty,
                                          far: Side, events: seq<Event>, resting: seq<Order>)
    requires PriceTimeSorted(far, events, resting)
    ensures PriceTimeSorted(far, events, Sweep(id, side, limit, qty, resting).rest)
    decreases |resting|
  {
    if qty <= 0 || resting == [] || !Crosses(side, limit, resting[0].price) {
    } else if qty < resting[0].qty {
      var r := Sweep(id, side, limit, qty, resting).rest;
      assert forall i :: 0 <= i < |resting| ==> r[i].id == resting[i].id && r[i].price == resting[i].price;
    } else {
      SweepKeepsTime(id, side, limit, qty - resting[0].qty, far, events, resting[1..]);
    }
  }

  lemma StepKeepsTime(book: Book, ev: Event, events: seq<Event>, side: Side)
    requires BookOk(book) && EventOk(ev)
    requires PriceTimeSorted(side, events, Survivors(book, ev).On(side))
    requires Rests(book, ev) ==>
               forall k :: InBook(Survivors(book, ev), k) ==> Arrival(events, k) < Arrival(events, ev.id)
    ensures PriceTimeSorted(side, events, Step(book, ev).book.On(side))
  {
    if Rests(book, ev) && side == ev.side {
      var mid := Survivors(book, ev);
      forall i | 0 <= i < |mid.On(side)| ensures Arrival(events, mid.On(side)[i].id) < Arrival(events, ev.id) {
        assert HasId(mid.On(side), mid.On(side)[i].id);
        assert InBook(mid, mid.On(side)[i].id);
      }
      InsertKeepsTime(side, events, mid.On(side), Remainder(book, ev));
    }
  }

  /** The orders that were in the book before the event and still are. */
  function Survivors(book: Book, ev: Event): Book {
    if ev.AddOrder? then AfterSweep(book, ev) else Step(book, ev).book
  }

  /** Matching, cancelling and modifying never reorder what survives. */
  lemma SurvivorsKeepTime(book: Book, ev: Event, events: seq<Event>, side: Side)
    requires BookOk(book) && EventOk(ev)
    requires PriceTimeSorted(side, events, book.On(side))
    ensures PriceTimeSorted(side, events, Survivors(book, ev).On(side))
    ensures forall k :: InBook(Survivors(book, ev), k) ==> InBook(book, k)
  {
    match ev
    case AddOrder(id, near, price, qty) =>
      AfterSweepOk(book, ev);
      SweepKeepsTime(id, near, price, qty, side, events, book.On(side));
    case CancelOrder(id) =>
      CancelOk(book, id);
      RemoveKeepsTime(side, events, book.On(side), id);
    case ModifyOrder(id, qty) =>
      CancelOk(book, id);
      RemoveKeepsTime(side, events, book.On(side), id);
      if qty > 0 {
        SetQtyOk(side, book.On(side), id, qty);
        SetQtyOk(Opposite(side), book.On(Opposite(side)), id, qty);
      }
  }

  /** Only the id that came to rest changes its arrival. */
  lemma ArrivalStable(events: seq<Event>, k: OrderId)
    requires events != []
    requires var n := |events| - 1;
             Rests(Run(EMPTY_BOOK, events[..n]).book, events[n]) ==> k != events[n].id
    ensures Arrival(events, k) == Arrival(events[..|events| - 1], k) < |events| - 1
  {
    ArrivalBelow(events[..|events| - 1], k);
  }

  /** Price-time priority over whole runs: after any stream, both sides stand in strict
      (price, arrival) order, so the greedy sweep serves exactly that order. */
  lemma {:induction false} RunIsPriceTimeSorted(events: seq<Event>, side: Side)
    requires StreamOk(events)
    ensures PriceTimeSorted(side, events, Run(EMPTY_BOOK, events).book.On(side))
  {
    if events == [] {
    } else {
      hide Arrival, Survivors, Step;
      var n := |events| - 1;
      StreamPrefixOk(events);
      RunOk(EMPTY_BOOK, events[..n]);
      RunIsPriceTimeSorted(events[..n], side);
      var book, ev := Run(EMPTY_BOOK, events[..n]).book, events[n];
      SurvivorsKeepTime(book, ev, events[..n], side);
      SurvivorsLackNewId(book, ev);
      var mid := Survivors(book, ev);
      forall k | InBook(mid, k) ensures Arrival(events, k) == Arrival(events[..n], k) < n {
        ArrivalStable(events, k);
      }
      forall i | 0 <= i < |mid.On(side)|
        ensures Arrival(events, mid.On(side)[i].id) == Arrival(events[..n], mid.On(side)[i].id)
      {
        assert HasId(mid.On(side), mid.On(side)[i].id);
        assert InBook(mid, mid.On(side)[i].id);
      }
      if Rests(book, ev) {
        ArrivalOfNew(events);
      }
      StepKeepsTime(book, ev, events, side);
    }
  }

  lemma SurvivorsLackNewId(book: Book, ev: Event)
    ensures Rests(book, ev) ==> !InBook(Survivors(book, ev), ev.id)
  {
  }

  lemma ArrivalOfNew(events: seq<Event>)
    requires events != [] && Rests(Run(EMPTY_BOOK, events[..|events| - 1]).book, events[|events| - 1])
    ensures Arrival(events, events[|events| - 1].id) == |events| - 1
  {
  }
}
