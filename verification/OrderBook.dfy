/** `LimitOrderBook`: a map of live orders with a price-level index over it.

    The map `orders` is the state; the theorem carried by `Valid` is that the index
    `book` always agrees with it, level by level. */
module OrderBook {
  import opened Basics
  import opened OrderTypes
  import opened PriceLevels

  type Orders = map<OrderId, Order>

  function QtyIn(o: Order, side: Side, price: Price): Qty {
    if o.side == side && o.price == price then o.qty else 0
  }

  /** Sum of the live quantities at (side, price), straight from the map of orders. */
  ghost function LiveQty(orders: Orders, side: Side, price: Price): Qty
    decreases |orders|
  {
    if orders == map[] then 0
    else
      var id :| id in orders;
      Shrinks(orders, id);
      QtyIn(orders[id], side, price) + LiveQty(orders - {id}, side, price)
  }

  lemma Shrinks(orders: Orders, id: OrderId)
    requires id in orders
    ensures |orders - {id}| < |orders|
  {
    assert (orders - {id}).Keys == orders.Keys - {id};
    assert |(orders - {id}).Keys| < |orders.Keys|;
  }

  /** The sum does not depend on the order in which the map is visited. */
  lemma {:induction false} LiveQtySplit(orders: Orders, id: OrderId, side: Side, price: Price)
    requires id in orders
    ensures LiveQty(orders, side, price) == QtyIn(orders[id], side, price) + LiveQty(orders - {id}, side, price)
    decreases |orders|
  {
    var first :| first in orders && LiveQty(orders, side, price)
                                    == QtyIn(orders[first], side, price) + LiveQty(orders - {first}, side, price);
    if first == id {
    } else {
      Shrinks(orders, id);
      Shrinks(orders, first);
      LiveQtySplit(orders - {first}, id, side, price);
      LiveQtySplit(orders - {id}, first, side, price);
      assert orders - {first} - {id} == orders - {id} - {first};
    }
  }

  lemma LiveQtyAdd(orders: Orders, o: Order, side: Side, price: Price)
    requires o.id !in orders
    ensures LiveQty(orders[o.id := o], side, price) == LiveQty(orders, side, price) + QtyIn(o, side, price)
  {
    LiveQtySplit(orders[o.id := o], o.id, side, price);
    assert orders[o.id := o] - {o.id} == orders;
  }

  lemma LiveQtyReplace(orders: Orders, o: Order, side: Side, price: Price)
    requires o.id in orders
    ensures LiveQty(orders[o.id := o], side, price)
            == LiveQty(orders, side, price) - QtyIn(orders[o.id], side, price) + QtyIn(o, side, price)
  {
    LiveQtySplit(orders, o.id, side, price);
    LiveQtySplit(orders[o.id := o], o.id, side, price);
    assert orders[o.id := o] - {o.id} == orders - {o.id};
  }

  ghost predicate Keyed(orders: Orders) {
    forall id :: id in orders ==> orders[id].id == id
  }

  /** Orders as the engine makes them: positive quantities, non-negative prices. */
  ghost predicate OrdersOk(orders: Orders) {
    forall id :: id in orders ==> orders[id].id == id && orders[id].qty > 0 && orders[id].price >= 0
  }

  predicate RestsAt(orders: Orders, id: OrderId, side: Side, price: Price) {
    id in orders && orders[id].side == side && orders[id].price == price
  }

  lemma {:induction false} LiveQtyPositive(orders: Orders, side: Side, price: Price)
    requires OrdersOk(orders)
    ensures LiveQty(orders, side, price) >= 0
    ensures LiveQty(orders, side, price) > 0 <==> exists id :: RestsAt(orders, id, side, price)
    decreases |orders|
  {
    if orders == map[] {
    } else {
      var id :| id in orders;
      Shrinks(orders, id);
      LiveQtySplit(orders, id, side, price);
      LiveQtyPositive(orders - {id}, side, price);
      if k :| RestsAt(orders, k, side, price) {
        if k != id {
          assert RestsAt(orders - {id}, k, side, price);
        }
      }
      if k :| RestsAt(orders - {id}, k, side, price) {
        assert RestsAt(orders, k, side, price);
      }
      if QtyIn(orders[id], side, price) > 0 {
        assert RestsAt(orders, id, side, price);
      }
    }
  }

  /** The index agrees with the orders: each level holds the sum of the live quantities
      there, and a level exists exactly when that sum is not 0. */
  ghost predicate IndexAgrees(levels: map<Price, Qty>, orders: Orders, side: Side) {
    forall p :: (p in levels <==> LiveQty(orders, side, p) != 0)
                && LevelQty(levels, p) == LiveQty(orders, side, p)
  }

  /** Best price read off the live orders themselves. */
  ghost predicate IsBestPrice(orders: Orders, side: Side, best: Price) {
    if best == NO_PRICE then forall id :: id in orders ==> orders[id].side != side
    else
      && (exists id :: RestsAt(orders, id, side, best))
      && (forall id :: id in orders && orders[id].side == side ==> !Better(side, orders[id].price, best))
  }

  /** The top of an agreeing index is the best live price, and -1 means the side is empty. */
  lemma TopIsBestPrice(levels: map<Price, Qty>, orders: Orders, side: Side)
    requires OrdersOk(orders) && IndexAgrees(levels, orders, side)
    ensures IsBestPrice(orders, side, TopPrice(side, levels))
  {
    var top := TopPrice(side, levels);
    forall id | id in orders && orders[id].side == side ensures orders[id].price in levels {
      assert RestsAt(orders, id, side, orders[id].price);
      LiveQtyPositive(orders, side, orders[id].price);
    }
    if levels != map[] {
      LiveQtyPositive(orders, side, top);
      var id :| RestsAt(orders, id, side, top);
      assert top != NO_PRICE;
    }
  }

  class LimitOrderBook {
    const book: PriceLevelBook
    var orders: Orders

    ghost predicate Valid()
      reads this, book
    {
      && Keyed(orders)
      && IndexAgrees(book.bids, orders, Buy)
      && IndexAgrees(book.asks, orders, Sell)
    }

    constructor ()
      ensures Valid() && fresh(book) && orders == map[]
    {
      book := new PriceLevelBook();
      orders := map[];
    }

    /** Re-establishes agreement on both sides after `orders` changed by `delta` at one level. */
    method MoveLevel(side: Side, price: Price, delta: Qty, ghost was: Orders)
      requires Keyed(orders)
      requires IndexAgrees(book.bids, was, Buy) && IndexAgrees(book.asks, was, Sell)
      requires forall s, p :: LiveQty(orders, s, p)
                              == LiveQty(was, s, p) + if s == side && p == price then delta else 0
      modifies book
      ensures Valid() && orders == old(orders)
    {
      book.Update(side, price, book.QtyAt(side, price) + delta);
    }

    /** Adds an order and raises its level; refuses a duplicate id and then changes nothing. */
    method AddOrder(order: Order) returns (ok: bool)
      requires Valid()
      modifies this, book
      ensures Valid()
      ensures ok <==> order.id !in old(orders)
      ensures orders == if ok then old(orders)[order.id := order] else old(orders)
    {
      if order.id in orders {
        return false;
      }
      ghost var was := orders;
      orders := orders[order.id := order];
      forall s, p ensures LiveQty(orders, s, p) == LiveQty(was, s, p) + QtyIn(order, s, p) {
        LiveQtyAdd(was, order, s, p);
      }
      MoveLevel(order.side, order.price, order.qty, was);
      return true;
    }

    /** Removes an order and lowers its level. */
    method CancelOrder(id: OrderId) returns (ok: bool)
      requires Valid()
      modifies this, book
      ensures Valid()
      ensures ok <==> id in old(orders)
      ensures orders == old(orders) - {id}
    {
      if id !in orders {
        return false;
      }
      var gone := orders[id];
      ghost var was := orders;
      orders := orders - {id};
      forall s, p ensures LiveQty(orders, s, p) == LiveQty(was, s, p) - QtyIn(gone, s, p) {
        LiveQtySplit(was, id, s, p);
      }
      MoveLevel(gone.side, gone.price, -gone.qty, was);
      return true;
    }

    /** Changes an order's quantity in place; a quantity of 0 or less cancels it. */
    method ModifyOrder(id: OrderId, qty: Qty) returns (ok: bool)
      requires Valid()
      modifies this, book
      ensures Valid()
      ensures ok <==> id in old(orders)
      ensures orders == if !ok then old(orders)
                        else if qty <= 0 then old(orders) - {id}
                        else old(orders)[id := old(orders)[id].(qty := qty)]
    {
      if id !in orders {
        return false;
      }
      if qty <= 0 {
        ok := CancelOrder(id);
        return;
      }
      var before := orders[id];
      var after := before.(qty := qty);
      ghost var was := orders;
      orders := orders[id := after];
      forall s, p ensures LiveQty(orders, s, p) == LiveQty(was, s, p) - QtyIn(before, s, p) + QtyIn(after, s, p) {
        LiveQtyReplace(was, after, s, p);
      }
      MoveLevel(before.side, before.price, qty - before.qty, was);
      return true;
    }

    /** The live order with this id, if any. */
    function FindOrder(id: OrderId): (found: Option<Order>)
      reads this
      ensures found.Some? <==> id in orders
      ensures found.Some? ==> found.value == orders[id]
    {
      if id in orders then Some(orders[id]) else None
    }

    /** Quantity at a level, as the sum of the live orders resting there. */
    function QtyAt(side: Side, price: Price): (qty: Qty)
      requires Valid()
      reads this, book
      ensures qty == LiveQty(orders, side, price)
    {
      book.QtyAt(side, price)
    }

    /** A level exists exactly when some live order rests there, quantities being positive. */
    lemma LevelExistsIff(side: Side, price: Price)
      requires Valid() && OrdersOk(orders)
      ensures price in book.Levels(side) <==> exists id :: RestsAt(orders, id, side, price)
    {
      LiveQtyPositive(orders, side, price);
      assert IndexAgrees(book.Levels(side), orders, side);
    }

    /** Best price of a side: the top level, which is the best price among the live orders
        when quantities are positive and prices non-negative; -1 if there is none. */
    function Best(side: Side): (p: Price)
      requires Valid()
      reads this, book
      ensures OrdersOk(orders) ==> IsBestPrice(orders, side, p)
    {
      var p := if side == Buy then book.BestBid() else book.BestAsk();
      assert OrdersOk(orders) ==> IsBestPrice(orders, side, p) by {
        if OrdersOk(orders) {
          TopIsBestPrice(book.Levels(side), orders, side);
        }
      }
      p
    }
  }
}
