/** The engine of the header as a function of its state: live orders, and per-level FIFO
    queues of ids whose dead entries are skipped when they reach the front, not removed.

    Nothing here asks for fresh ids.  `LazyRun` is defined, and its loop ends, for every
    well-formed stream. */
module LazyEngine {
  import opened Basics
  import opened OrderTypes
  import opened PriceLevels
  import opened OrderBook

  type Queues = map<Price, seq<OrderId>>

  function QueueAt(queues: Queues, price: Price): seq<OrderId> {
    if price in queues then queues[price] else []
  }

  datatype Lazy = Lazy(orders: Orders, bidQueue: Queues, askQueue: Queues) {
    function Queue(side: Side): Queues {
      if side == Buy then bidQueue else askQueue
    }

    function Entries(side: Side, price: Price): seq<OrderId> {
      QueueAt(Queue(side), price)
    }

    function WithEntries(side: Side, price: Price, entries: seq<OrderId>): Lazy {
      if side == Buy then this.(bidQueue := bidQueue[price := entries])
      else this.(askQueue := askQueue[price := entries])
    }
  }

  const EMPTY_ENGINE := Lazy(map[], map[], map[])

  /** Every live order has an entry in the queue of its own level. */
  ghost predicate Queued(st: Lazy) {
    forall id :: id in st.orders ==> id in st.Entries(st.orders[id].side, st.orders[id].price)
  }

  ghost predicate LevelsOk(st: Lazy) {
    forall side, price :: st.Entries(side, price) != [] ==> price >= 0
  }

  ghost predicate LazyOk(st: Lazy) {
    OrdersOk(st.orders) && Queued(st) && LevelsOk(st)
  }

  // ---------------------------------------------------------------- best price

  lemma BestExists(orders: Orders, side: Side)
    requires OrdersOk(orders)
    ensures exists p :: IsBestPrice(orders, side, p)
  {
    var prices := set id | id in orders && orders[id].side == side :: orders[id].price;
    if id :| id in orders && orders[id].side == side {
      assert orders[id].price in prices;
      var top := TopOfSet(side, prices);
      var k :| k in orders && orders[k].side == side && orders[k].price == top;
      assert RestsAt(orders, k, side, top);
      assert IsBestPrice(orders, side, top);
    } else {
      assert IsBestPrice(orders, side, NO_PRICE);
    }
  }

  ghost function BestOf(orders: Orders, side: Side): (p: Price)
    requires OrdersOk(orders)
    ensures IsBestPrice(orders, side, p)
  {
    BestExists(orders, side);
    var p :| IsBestPrice(orders, side, p);
    p
  }

  lemma BestUnique(orders: Orders, side: Side, one: Price, two: Price)
    requires OrdersOk(orders) && IsBestPrice(orders, side, one) && IsBestPrice(orders, side, two)
    ensures one == two
  {
    if one != NO_PRICE {
      var id :| RestsAt(orders, id, side, one);
    }
    if two != NO_PRICE {
      var k :| RestsAt(orders, k, side, two);
    }
  }

  // ---------------------------------------------------------------- elementary actions

  function PopFront(st: Lazy, side: Side, price: Price): Lazy
    requires st.Entries(side, price) != []
  {
    st.WithEntries(side, price, st.Entries(side, price)[1..])
  }

  function Drop(st: Lazy, id: OrderId): Lazy {
    st.(orders := st.orders - {id})
  }

  function Modified(orders: Orders, id: OrderId, qty: Qty): Orders {
    if id !in orders then orders
    else if qty <= 0 then orders - {id}
    else orders[id := orders[id].(qty := qty)]
  }

  function Resize(st: Lazy, id: OrderId, qty: Qty): Lazy {
    st.(orders := Modified(st.orders, id, qty))
  }

  /** Fills `traded` of the order named by the front entry: a full fill cancels it and pops
      the entry, a partial fill leaves the entry in front. */
  function FillFront(st: Lazy, side: Side, price: Price, traded: Qty): Lazy
    requires st.Entries(side, price) != [] && st.Entries(side, price)[0] in st.orders
  {
    var o := st.orders[st.Entries(side, price)[0]];
    if traded == o.qty then PopFront(Drop(st, o.id), side, price)
    else Resize(st, o.id, o.qty - traded)
  }

  /** The order goes into the book and its id to the back of its queue; the id of an order
      that is still live is refused, and then nothing is queued. */
  function LazyRest(st: Lazy, o: Order): Lazy {
    if o.qty <= 0 || o.id in st.orders then st
    else st.(orders := st.orders[o.id := o]).WithEntries(o.side, o.price, st.Entries(o.side, o.price) + [o.id])
  }

  lemma EntriesWith(st: Lazy, side: Side, price: Price, entries: seq<OrderId>, s: Side, p: Price)
    ensures st.WithEntries(side, price, entries).Entries(s, p)
            == if s == side && p == price then entries else st.Entries(s, p)
  {
  }

  lemma PopDeadOk(st: Lazy, side: Side, price: Price)
    requires LazyOk(st) && st.Entries(side, price) != [] && st.Entries(side, price)[0] !in st.orders
    ensures LazyOk(PopFront(st, side, price))
    ensures PopFront(st, side, price).orders == st.orders
  {
    var q := st.Entries(side, price);
    assert q == [q[0]] + q[1..];
    var after := PopFront(st, side, price);
    forall s, p ensures after.Entries(s, p) == if s == side && p == price then q[1..] else st.Entries(s, p) {
      EntriesWith(st, side, price, q[1..], s, p);
    }
  }

  lemma DropOk(st: Lazy, id: OrderId)
    requires LazyOk(st)
    ensures LazyOk(Drop(st, id))
  {
    assert forall s, p :: Drop(st, id).Entries(s, p) == st.Entries(s, p);
  }

  lemma ResizeOk(st: Lazy, id: OrderId, qty: Qty)
    requires LazyOk(st)
    ensures LazyOk(Resize(st, id, qty))
  {
    assert forall s, p :: Resize(st, id, qty).Entries(s, p) == st.Entries(s, p);
  }

  lemma FillFrontOk(st: Lazy, side: Side, price: Price, traded: Qty)
    requires LazyOk(st) && st.Entries(side, price) != [] && st.Entries(side, price)[0] in st.orders
    requires 0 < traded <= st.orders[st.Entries(side, price)[0]].qty
    ensures LazyOk(FillFront(st, side, price, traded))
  {
    var o := st.orders[st.Entries(side, price)[0]];
    if traded == o.qty {
      DropOk(st, o.id);
      PopDeadOk(Drop(st, o.id), side, price);
    } else {
      ResizeOk(st, o.id, o.qty - traded);
    }
  }

  lemma LazyRestOk(st: Lazy, o: Order)
    requires LazyOk(st) && o.price >= 0
    ensures LazyOk(LazyRest(st, o))
  {
    if o.qty > 0 && o.id !in st.orders {
      var after := LazyRest(st, o);
      forall s, p ensures after.Entries(s, p)
                          == st.Entries(s, p) + if s == o.side && p == o.price then [o.id] else []
      {
        EntriesWith(st.(orders := st.orders[o.id := o]), o.side, o.price, st.Entries(o.side, o.price) + [o.id], s, p);
      }
    }
  }

  /** The loop never sticks: the queue of a non-empty side's best price has a front. */
  lemma BestHasFront(st: Lazy, side: Side)
    requires LazyOk(st) && BestOf(st.orders, side) != NO_PRICE
    ensures st.Entries(side, BestOf(st.orders, side)) != []
  {
    var id :| RestsAt(st.orders, id, side, BestOf(st.orders, side));
    assert id in st.Entries(side, BestOf(st.orders, side));
  }

  // ---------------------------------------------------------------- the engine

  datatype Matched = Matched(state: Lazy, left: Qty, fills: seq<Fill>)

  /** The matching loop. */
  ghost function LazyMatch(st: Lazy, id: OrderId, side: Side, limit: Price, qty: Qty): (m: Matched)
    requires LazyOk(st)
    ensures LazyOk(m.state)
    decreases if qty > 0 then qty else 0, |st.Entries(Opposite(side), BestOf(st.orders, Opposite(side)))|
  {
    var far := Opposite(side);
    var best := BestOf(st.orders, far);
    if qty <= 0 || best == NO_PRICE || !Crosses(side, limit, best) then Matched(st, qty, [])
    else
      BestHasFront(st, far);
      var front := st.Entries(far, best)[0];
      if front !in st.orders then
        PopDeadOk(st, far, best);
        EntriesWith(st, far, best, st.Entries(far, best)[1..], far, best);
        LazyMatch(PopFront(st, far, best), id, side, limit, qty)
      else
        var o := st.orders[front];
        var traded := Min(qty, o.qty);
        FillFrontOk(st, far, best, traded);
        var more := LazyMatch(FillFront(st, far, best, traded), id, side, limit, qty - traded);
        Matched(more.state, more.left, [Fill(id, o.id, o.price, traded)] + more.fills)
  }

  datatype LazyOutcome = LazyOutcome(state: Lazy, fills: seq<Fill>)

  ghost function LazyStep(st: Lazy, ev: Event): (r: LazyOutcome)
    requires LazyOk(st) && EventOk(ev)
    ensures LazyOk(r.state)
  {
    match ev
    case AddOrder(id, side, price, qty) =>
      var m := LazyMatch(st, id, side, price, qty);
      LazyRestOk(m.state, Order(id, side, price, m.left));
      LazyOutcome(LazyRest(m.state, Order(id, side, price, m.left)), m.fills)
    case CancelOrder(id) => DropOk(st, id); LazyOutcome(Drop(st, id), [])
    case ModifyOrder(id, qty) => ResizeOk(st, id, qty); LazyOutcome(Resize(st, id, qty), [])
  }

  /** A whole stream. */
  ghost function LazyRun(st: Lazy, events: seq<Event>): (r: LazyOutcome)
    requires LazyOk(st) && StreamOk(events)
    ensures LazyOk(r.state)
  {
    if events == [] then LazyOutcome(st, [])
    else
      var n := |events| - 1;
      var before := LazyRun(st, events[..n]);
      var last := LazyStep(before.state, events[n]);
      LazyOutcome(last.state, before.fills + last.fills)
  }

  // ---------------------------------------------------------------- no crossed quotes, on any stream

  /** Every live bid is below every live ask. */
  ghost predicate UncrossedOrders(orders: Orders) {
    forall a, b :: a in orders && b in orders && orders[a].side == Buy && orders[b].side == Sell
                   ==> orders[a].price < orders[b].price
  }

  /** `after` has some of the orders of `before`, at their sides and prices. */
  ghost predicate Fewer(after: Orders, before: Orders) {
    forall id :: id in after ==>
      id in before && after[id].side == before[id].side && after[id].price == before[id].price
  }

  /** The loop only removes and reduces, and stops once nothing is left or nothing crosses. */
  lemma {:induction false} MatchExhausts(st: Lazy, id: OrderId, side: Side, limit: Price, qty: Qty)
    requires LazyOk(st)
    ensures var m := LazyMatch(st, id, side, limit, qty);
            && Fewer(m.state.orders, st.orders)
            && (m.left > 0 ==> forall k :: k in m.state.orders && m.state.orders[k].side == Opposite(side)
                                           ==> !Crosses(side, limit, m.state.orders[k].price))
    decreases if qty > 0 then qty else 0, |st.Entries(Opposite(side), BestOf(st.orders, Opposite(side)))|
  {
    hide Queued, LevelsOk;
    var far := Opposite(side);
    var best := BestOf(st.orders, far);
    if qty <= 0 || best == NO_PRICE || !Crosses(side, limit, best) {
    } else {
      BestHasFront(st, far);
      hide IsBestPrice;
      var front := st.Entries(far, best)[0];
      if front !in st.orders {
        PopDeadOk(st, far, best);
        EntriesWith(st, far, best, st.Entries(far, best)[1..], far, best);
        MatchExhausts(PopFront(st, far, best), id, side, limit, qty);
      } else {
        var traded := Min(qty, st.orders[front].qty);
        FillFrontOk(st, far, best, traded);
        MatchExhausts(FillFront(st, far, best, traded), id, side, limit, qty - traded);
      }
    }
  }

  lemma RestUncrossed(st: Lazy, o: Order)
    requires UncrossedOrders(st.orders)
    requires o.qty > 0 ==> forall k :: k in st.orders && st.orders[k].side == Opposite(o.side)
                                       ==> !Crosses(o.side, o.price, st.orders[k].price)
    ensures UncrossedOrders(LazyRest(st, o).orders)
  {
  }

  /** Whatever ids an event uses, it never leaves a crossed book. */
  lemma StepUncrossed(st: Lazy, ev: Event)
    requires LazyOk(st) && EventOk(ev) && UncrossedOrders(st.orders)
    ensures UncrossedOrders(LazyStep(st, ev).state.orders)
  {
    if ev.AddOrder? {
      MatchExhausts(st, ev.id, ev.side, ev.price, ev.qty);
      var m := LazyMatch(st, ev.id, ev.side, ev.price, ev.qty);
      hide LazyMatch, LazyRest, LazyOk;
      assert UncrossedOrders(m.state.orders);
      RestUncrossed(m.state, Order(ev.id, ev.side, ev.price, m.left));
    }
  }

  lemma {:induction false} RunUncrossed(st: Lazy, events: seq<Event>)
    requires LazyOk(st) && StreamOk(events) && UncrossedOrders(st.orders)
    ensures UncrossedOrders(LazyRun(st, events).state.orders)
  {
    if events == [] {
    } else {
      hide LazyStep, LazyOk, UncrossedOrders;
      RunUncrossed(st, events[..|events| - 1]);
      StepUncrossed(LazyRun(st, events[..|events| - 1]).state, events[|events| - 1]);
    }
  }
}
