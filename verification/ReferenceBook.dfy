/** The eager reference engine: what the matching rule means, with no queues, no
    index and no stale entries.

    Each side is one sequence of live orders in priority order (best price first,
    earliest arrival first within a price).  Cancelling removes an order at once. */
module ReferenceBook {
  import opened OrderTypes

  datatype Book = Book(bids: seq<Order>, asks: seq<Order>) {
    function On(side: Side): seq<Order> {
      if side == Buy then bids else asks
    }

    function With(side: Side, resting: seq<Order>): Book {
      if side == Buy then this.(bids := resting) else this.(asks := resting)
    }
  }

  const EMPTY_BOOK := Book([], [])

  /** Places `o` behind every order at an equal or better price. */
  function Insert(side: Side, resting: seq<Order>, o: Order): seq<Order> {
    if resting == [] || Better(side, o.price, resting[0].price) then [o] + resting
    else [resting[0]] + Insert(side, resting[1..], o)
  }

  function RemoveId(resting: seq<Order>, id: OrderId): seq<Order> {
    if resting == [] then []
    else if resting[0].id == id then resting[1..]
    else [resting[0]] + RemoveId(resting[1..], id)
  }

  /** Changes the quantity of `id` where it stands: its time priority is kept. */
  function SetQty(resting: seq<Order>, id: OrderId, qty: Qty): seq<Order> {
    if resting == [] then []
    else if resting[0].id == id then [resting[0].(qty := qty)] + resting[1..]
    else [resting[0]] + SetQty(resting[1..], id, qty)
  }

  datatype Swept = Swept(fills: seq<Fill>, left: Qty, rest: seq<Order>)

  /** Greedy consumption of one side from its front, best price first. */
  function Sweep(id: OrderId, side: Side, limit: Price, qty: Qty, resting: seq<Order>): Swept
    decreases |resting|
  {
    if qty <= 0 || resting == [] || !Crosses(side, limit, resting[0].price) then
      Swept([], qty, resting)
    else
      var top := resting[0];
      var fill := Fill(id, top.id, top.price, Min(qty, top.qty));
      if qty < top.qty then
        Swept([fill], 0, [top.(qty := top.qty - qty)] + resting[1..])
      else
        var more := Sweep(id, side, limit, qty - top.qty, resting[1..]);
        Swept([fill] + more.fills, more.left, more.rest)
  }

  predicate HasId(resting: seq<Order>, id: OrderId) {
    exists i :: 0 <= i < |resting| && resting[i].id == id
  }

  predicate InBook(book: Book, id: OrderId) {
    HasId(book.bids, id) || HasId(book.asks, id)
  }

  datatype Outcome = Outcome(book: Book, fills: seq<Fill>)

  /** Rests an order; the id of an order that is still live is refused. */
  function Rest(book: Book, o: Order): Book {
    if o.qty <= 0 || InBook(book, o.id) then book
    else book.With(o.side, Insert(o.side, book.On(o.side), o))
  }

  function Cancel(book: Book, id: OrderId): Book {
    Book(RemoveId(book.bids, id), RemoveId(book.asks, id))
  }

  function Modify(book: Book, id: OrderId, qty: Qty): Book {
    if qty <= 0 then Cancel(book, id)
    else Book(SetQty(book.bids, id, qty), SetQty(book.asks, id, qty))
  }

  /** One event: match an incoming order and rest its remainder, cancel, or modify. */
  function Step(book: Book, ev: Event): Outcome {
    match ev
    case AddOrder(id, side, price, qty) =>
      var far := Opposite(side);
      var swept := Sweep(id, side, price, qty, book.On(far));
      Outcome(Rest(book.With(far, swept.rest), Order(id, side, price, swept.left)), swept.fills)
    case CancelOrder(id) => Outcome(Cancel(book, id), [])
    case ModifyOrder(id, qty) => Outcome(Modify(book, id, qty), [])
  }

  /** A whole stream of events, in order. */
  function Run(book: Book, events: seq<Event>): Outcome {
    if events == [] then Outcome(book, [])
    else
      var n := |events| - 1;
      var before := Run(book, events[..n]);
      var last := Step(before.book, events[n]);
      Outcome(last.book, before.fills + last.fills)
  }
}
