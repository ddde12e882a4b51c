/** Vocabulary of the order book: sides, orders, events and fills.

    Prices and quantities are mathematical integers; an OrderEvent is a datatype whose
    constructor plays the part of the event-type tag. */
module OrderTypes {
  import opened Basics

  datatype Side = Buy | Sell

  type Price = int
  type Qty = int
  type OrderId = nat

  datatype Order = Order(id: OrderId, side: Side, price: Price, qty: Qty)

  datatype Event =
    | AddOrder(id: OrderId, side: Side, price: Price, qty: Qty)
    | CancelOrder(id: OrderId)
    | ModifyOrder(id: OrderId, qty: Qty)

  /** A completed match of an incoming (aggressor) order against a resting (passive) one. */
  datatype Fill = Fill(aggressor: OrderId, passive: OrderId, price: Price, qty: Qty)

  /** What `best_bid` and `best_ask` return when their side is empty. */
  const NO_PRICE: Price := -1

  function Opposite(side: Side): Side {
    if side == Buy then Sell else Buy
  }

  /** `p` is strictly closer to the top of `side` than `q`: bids rank high to low, asks low to high. */
  predicate Better(side: Side, p: Price, q: Price) {
    if side == Buy then p > q else p < q
  }

  /** An order on `side` with limit price `limit` may trade against a resting order priced `price`. */
  predicate Crosses(side: Side, limit: Price, price: Price) {
    if side == Buy then price <= limit else price >= limit
  }

  function Min(a: int, b: int): int {
    if a < b then a else b
  }

  /** Events the engine is meant to receive: positive quantities, non-negative prices. */
  predicate EventOk(ev: Event) {
    ev.AddOrder? ==> ev.qty > 0 && ev.price >= 0
  }

  /** The ids offered by the AddOrder events of a stream. */
  function AddedIds(events: seq<Event>): set<OrderId> {
    set i | 0 <= i < |events| && events[i].AddOrder? :: events[i].id
  }

  /** A well-formed stream.  Ids may be used again. */
  ghost predicate StreamOk(events: seq<Event>) {
    forall i :: 0 <= i < |events| ==> EventOk(events[i])
  }

  /** No id is added twice. */
  ghost predicate DistinctAdds(events: seq<Event>) {
    forall i, j :: 0 <= i < j < |events| && events[i].AddOrder? && events[j].AddOrder?
                   ==> events[i].id != events[j].id
  }
}
