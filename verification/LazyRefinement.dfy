/** When the lazy engine is the eager one.

    An entry of a queue is shown when its order is live and could be served from that level
    at all: a live order hides at a worse level of its own side, which is not served before
    it is gone, and at a level of the other side that it crosses, which is empty while it
    rests.  A queue stands for the shown ids in the order of their first entries. */
module LazyRefinement {
  import opened Basics
  import opened OrderTypes
  import opened ReferenceBook
  import opened ReferenceTheorems
  import opened OrderBook
  import opened LazyEngine

  /** Live order `o` cannot be reached through the queue of (side, price). */
  predicate Hides(o: Order, side: Side, price: Price) {
    if o.side == side then Better(side, o.price, price) else Crosses(o.side, o.price, price)
  }

  predicate Shown(orders: Orders, side: Side, price: Price, id: OrderId) {
    id in orders && !Hides(orders[id], side, price)
  }

  function Without(ids: seq<OrderId>, id: OrderId): seq<OrderId> {
    if ids == [] then []
    else if ids[0] == id then Without(ids[1..], id)
    else [ids[0]] + Without(ids[1..], id)
  }

  /** The order in which a level is served: shown ids by their first entry. */
  function Served(queue: seq<OrderId>, orders: Orders, side: Side, price: Price): seq<OrderId> {
    if queue == [] then []
    else
      var later := Served(queue[1..], orders, side, price);
      if Shown(orders, side, price, queue[0]) then [queue[0]] + Without(later, queue[0]) else later
  }

  /** The ids resting at one price, in priority order. */
  function IdsAt(resting: seq<Order>, price: Price): seq<OrderId> {
    if resting == [] then []
    else if resting[0].price == price then [resting[0].id] + IdsAt(resting[1..], price)
    else IdsAt(resting[1..], price)
  }

  /** `resting` lists each live order of `side` exactly once. */
  ghost predicate Lists(orders: Orders, side: Side, resting: seq<Order>) {
    && SideOk(side, resting)
    && (forall i :: 0 <= i < |resting| ==> resting[i].id in orders && orders[resting[i].id] == resting[i])
    && (forall id :: id in orders && orders[id].side == side ==> orders[id] in resting)
  }

  ghost predicate Represents(st: Lazy, side: Side, resting: seq<Order>) {
    && Lists(st.orders, side, resting)
    && forall p :: Served(st.Entries(side, p), st.orders, side, p) == IdsAt(resting, p)
  }

  /** The lazy state stands for the reference book. */
  ghost predicate Linked(st: Lazy, book: Book) {
    && LazyOk(st)
    && BookOk(book)
    && Represents(st, Buy, book.bids)
    && Represents(st, Sell, book.asks)
  }

  // ---------------------------------------------------------------- removing an id from a list

  lemma {:induction false} WithoutAbsent(ids: seq<OrderId>, id: OrderId)
    requires id !in ids
    ensures Without(ids, id) == ids
  {
    if ids == [] {
    } else {
      WithoutAbsent(ids[1..], id);
    }
  }

  lemma {:induction false} WithoutMembers(ids: seq<OrderId>, id: OrderId, k: OrderId)
    ensures k in Without(ids, id) <==> k in ids && k != id
  {
    if ids == [] {
    } else {
      WithoutMembers(ids[1..], id, k);
      assert ids == [ids[0]] + ids[1..];
    }
  }

  lemma {:induction false} WithoutConcat(a: seq<OrderId>, b: seq<OrderId>, id: OrderId)
    ensures Without(a + b, id) == Without(a, id) + Without(b, id)
  {
    if a == [] {
      assert a + b == b;
    } else {
      assert (a + b)[1..] == a[1..] + b;
      WithoutConcat(a[1..], b, id);
    }
  }

  lemma WithoutCons(x: OrderId, ids: seq<OrderId>, id: OrderId)
    ensures Without([x] + ids, id) == (if x == id then [] else [x]) + Without(ids, id)
  {
    assert ([x] + ids)[1..] == ids;
  }

  lemma {:induction false} WithoutSwap(ids: seq<OrderId>, a: OrderId, b: OrderId)
    ensures Without(Without(ids, a), b) == Without(Without(ids, b), a)
  {
    if ids == [] {
    } else {
      var tail := ids[1..];
      WithoutSwap(tail, a, b);
      WithoutCons(ids[0], Without(tail, a), b);
      WithoutCons(ids[0], Without(tail, b), a);
    }
  }

  // ---------------------------------------------------------------- Served

  lemma {:induction false} ServedMembers(queue: seq<OrderId>, orders: Orders, side: Side, price: Price, id: OrderId)
    ensures id in Served(queue, orders, side, price) <==> id in queue && Shown(orders, side, price, id)
  {
    if queue == [] {
    } else {
      ServedMembers(queue[1..], orders, side, price, id);
      WithoutMembers(Served(queue[1..], orders, side, price), queue[0], id);
      assert queue == [queue[0]] + queue[1..];
    }
  }

  /** Only which entries are shown matters. */
  lemma {:induction false} ServedSame(queue: seq<OrderId>, one: Orders, two: Orders, side: Side, price: Price)
    requires forall i :: 0 <= i < |queue| ==> Shown(one, side, price, queue[i]) == Shown(two, side, price, queue[i])
    ensures Served(queue, one, side, price) == Served(queue, two, side, price)
  {
    if queue == [] {
    } else {
      ServedSame(queue[1..], one, two, side, price);
    }
  }

  /** Deleting an order from the map removes it from every level, whatever entries it has. */
  lemma {:induction false} ServedDrop(queue: seq<OrderId>, orders: Orders, side: Side, price: Price, id: OrderId)
    ensures Served(queue, orders - {id}, side, price) == Without(Served(queue, orders, side, price), id)
  {
    if queue == [] {
    } else {
      ServedDrop(queue[1..], orders, side, price, id);
      var later := Served(queue[1..], orders, side, price);
      assert Shown(orders - {id}, side, price, queue[0]) <==> queue[0] != id && Shown(orders, side, price, queue[0]);
      if Shown(orders, side, price, queue[0]) {
        WithoutCons(queue[0], Without(later, queue[0]), id);
        WithoutSwap(later, queue[0], id);
        if queue[0] == id {
          WithoutMembers(later, id, id);
          WithoutAbsent(Without(later, id), id);
        }
      }
    }
  }

  function WithoutAll(ids: seq<OrderId>, gone: seq<OrderId>): seq<OrderId> {
    if ids == [] then []
    else if ids[0] in gone then WithoutAll(ids[1..], gone)
    else [ids[0]] + WithoutAll(ids[1..], gone)
  }

  lemma {:induction false} WithoutAllCons(ids: seq<OrderId>, x: OrderId, gone: seq<OrderId>)
    ensures WithoutAll(ids, [x] + gone) == Without(WithoutAll(ids, gone), x)
  {
    if ids == [] {
    } else {
      WithoutAllCons(ids[1..], x, gone);
      WithoutCons(ids[0], WithoutAll(ids[1..], gone), x);
    }
  }

  lemma {:induction false} WithoutAllMembers(ids: seq<OrderId>, gone: seq<OrderId>, k: OrderId)
    ensures k in WithoutAll(ids, gone) <==> k in ids && k !in gone
  {
    if ids == [] {
    } else {
      WithoutAllMembers(ids[1..], gone, k);
      assert ids == [ids[0]] + ids[1..];
    }
  }

  lemma {:induction false} WithoutAllGone(ids: seq<OrderId>, gone: seq<OrderId>)
    requires forall i :: 0 <= i < |ids| ==> ids[i] in gone
    ensures WithoutAll(ids, gone) == []
  {
    if ids == [] {
    } else {
      WithoutAllGone(ids[1..], gone);
    }
  }

  lemma {:induction false} WithoutAllNone(ids: seq<OrderId>)
    ensures WithoutAll(ids, []) == ids
  {
    if ids == [] {
    } else {
      WithoutAllNone(ids[1..]);
    }
  }

  /** A later part of a queue adds only the ids that have no earlier entry. */
  lemma {:induction false} ServedConcat(a: seq<OrderId>, b: seq<OrderId>, orders: Orders, side: Side, price: Price)
    ensures Served(a + b, orders, side, price)
            == Served(a, orders, side, price) + WithoutAll(Served(b, orders, side, price), a)
  {
    var tail := Served(b, orders, side, price);
    if a == [] {
      assert a + b == b;
      WithoutAllNone(tail);
    } else {
      assert (a + b)[1..] == a[1..] + b;
      assert a == [a[0]] + a[1..];
      ServedConcat(a[1..], b, orders, side, price);
      WithoutAllCons(tail, a[0], a[1..]);
      if Shown(orders, side, price, a[0]) {
        WithoutConcat(Served(a[1..], orders, side, price), WithoutAll(tail, a[1..]), a[0]);
      } else {
        ServedMembers(b, orders, side, price, a[0]);
        WithoutAllMembers(tail, a[1..], a[0]);
        WithoutAbsent(WithoutAll(tail, a[1..]), a[0]);
      }
    }
  }

  // ---------------------------------------------------------------- IdsAt

  lemma {:induction false} IdsAtMembers(resting: seq<Order>, price: Price, id: OrderId)
    ensures id in IdsAt(resting, price)
            <==> exists i :: 0 <= i < |resting| && resting[i].id == id && resting[i].price == price
  {
    if resting == [] {
    } else {
      var tail := resting[1..];
      IdsAtMembers(tail, price, id);
      if i :| 0 <= i < |resting| && resting[i].id == id && resting[i].price == price {
        if i > 0 { assert tail[i - 1].id == id; }
      }
      if i :| 0 <= i < |tail| && tail[i].id == id && tail[i].price == price {
        assert resting[i + 1].id == id;
      }
    }
  }

  lemma {:induction false} IdsAtRemove(resting: seq<Order>, id: OrderId, price: Price)
    requires DistinctIds(resting)
    ensures IdsAt(RemoveId(resting, id), price) == Without(IdsAt(resting, price), id)
  {
    if resting == [] {
    } else {
      var tail := resting[1..];
      IdsAtRemove(tail, id, price);
      WithoutCons(resting[0].id, IdsAt(tail, price), id);
      if resting[0].id == id {
        IdsAtMembers(tail, price, id);
        WithoutAbsent(IdsAt(tail, price), id);
      } else {
        assert RemoveId(resting, id)[1..] == RemoveId(tail, id);
      }
    }
  }

  lemma {:induction false} IdsAtSame(one: seq<Order>, two: seq<Order>, price: Price)
    requires |one| == |two|
    requires forall i :: 0 <= i < |one| ==> one[i].id == two[i].id && one[i].price == two[i].price
    ensures IdsAt(one, price) == IdsAt(two, price)
  {
    if one == [] {
    } else {
      IdsAtSame(one[1..], two[1..], price);
    }
  }

  lemma {:induction false} IdsAtNone(resting: seq<Order>, price: Price)
    requires forall i :: 0 <= i < |resting| ==> resting[i].price != price
    ensures IdsAt(resting, price) == []
  {
    if resting == [] {
    } else {
      IdsAtNone(resting[1..], price);
    }
  }

  /** Inserting by priority appends to the level of the new order: FIFO within a price. */
  lemma {:induction false} IdsAtInsert(side: Side, resting: seq<Order>, o: Order, price: Price)
    requires PrioritySorted(side, resting)
    ensures IdsAt(Insert(side, resting, o), price)
            == IdsAt(resting, price) + if o.price == price then [o.id] else []
  {
    if resting == [] {
    } else if Better(side, o.price, resting[0].price) {
      assert ([o] + resting)[1..] == resting;
      if o.price == price {
        IdsAtNone(resting, price);
      }
    } else {
      IdsAtInsert(side, resting[1..], o, price);
      assert Insert(side, resting, o)[1..] == Insert(side, resting[1..], o);
    }
  }

  // ---------------------------------------------------------------- the actions, one side at a time

  /** Popping a dead entry changes nothing that can be observed. */
  lemma PopDeadRepresents(st: Lazy, side: Side, price: Price, s: Side, resting: seq<Order>)
    requires Represents(st, s, resting)
    requires st.Entries(side, price) != [] && st.Entries(side, price)[0] !in st.orders
    ensures Represents(PopFront(st, side, price), s, resting)
  {
    hide Lists;
    var after := PopFront(st, side, price);
    forall p ensures Served(after.Entries(s, p), st.orders, s, p) == IdsAt(resting, p) {
      EntriesWith(st, side, price, st.Entries(side, price)[1..], s, p);
      assert Served(st.Entries(s, p), st.orders, s, p) == IdsAt(resting, p);
    }
  }

  lemma DropLists(orders: Orders, side: Side, resting: seq<Order>, id: OrderId)
    requires Lists(orders, side, resting) && OrdersOk(orders)
    ensures Lists(orders - {id}, side, RemoveId(resting, id))
  {
    var left := RemoveId(resting, id);
    RemoveOk(side, resting, id);
    forall i | 0 <= i < |left| ensures left[i].id in orders - {id} && (orders - {id})[left[i].id] == left[i] {
      assert left[i] in left;
    }
  }

  /** Deleting an order from the map alone, its entries left behind, is an eager removal. */
  lemma DropRepresents(st: Lazy, side: Side, resting: seq<Order>, id: OrderId)
    requires Represents(st, side, resting) && OrdersOk(st.orders)
    ensures Represents(Drop(st, id), side, RemoveId(resting, id))
  {
    DropLists(st.orders, side, resting, id);
    forall p ensures Served(st.Entries(side, p), st.orders - {id}, side, p) == IdsAt(RemoveId(resting, id), p) {
      ServedDrop(st.Entries(side, p), st.orders, side, p, id);
      IdsAtRemove(resting, id, p);
      assert Served(st.Entries(side, p), st.orders, side, p) == IdsAt(resting, p);
    }
    assert forall p :: Drop(st, id).Entries(side, p) == st.Entries(side, p);
  }

  lemma ResizeLists(orders: Orders, side: Side, resting: seq<Order>, id: OrderId, qty: Qty)
    requires Lists(orders, side, resting) && OrdersOk(orders) && id in orders && qty > 0
    ensures Lists(orders[id := orders[id].(qty := qty)], side, SetQty(resting, id, qty))
    ensures |SetQty(resting, id, qty)| == |resting|
    ensures forall i :: 0 <= i < |resting| ==>
              SetQty(resting, id, qty)[i].id == resting[i].id && SetQty(resting, id, qty)[i].price == resting[i].price
  {
    var resized := SetQty(resting, id, qty);
    SetQtyOk(side, resting, id, qty);
    hide SetQty, SideOk;
    ResizeMembers(orders, side, resting, id, qty, resized);
  }

  lemma ResizeMembers(orders: Orders, side: Side, resting: seq<Order>, id: OrderId, qty: Qty, resized: seq<Order>)
    requires OrdersOk(orders) && id in orders && |resized| == |resting|
    requires forall i :: 0 <= i < |resting| ==> resting[i].id in orders && orders[resting[i].id] == resting[i]
    requires forall k :: k in orders && orders[k].side == side ==> orders[k] in resting
    requires forall i :: 0 <= i < |resting| ==>
               resized[i] == if resting[i].id == id then resting[i].(qty := qty) else resting[i]
    ensures var after := orders[id := orders[id].(qty := qty)];
            && (forall i :: 0 <= i < |resized| ==> resized[i].id in after && after[resized[i].id] == resized[i])
            && (forall k :: k in after && after[k].side == side ==> after[k] in resized)
  {
    var after := orders[id := orders[id].(qty := qty)];
    forall i | 0 <= i < |resized| ensures resized[i].id in after && after[resized[i].id] == resized[i] {
      assert orders[resting[i].id] == resting[i];
    }
    forall k | k in after && after[k].side == side ensures after[k] in resized {
      var i :| 0 <= i < |resting| && resting[i] == orders[k];
      assert resized[i] == after[k];
    }
  }

  /** Every outcome of `modify_order`: unknown id, quantity of 0 or less, or a new quantity. */
  lemma ResizeRepresents(st: Lazy, side: Side, resting: seq<Order>, id: OrderId, qty: Qty)
    requires Represents(st, side, resting) && OrdersOk(st.orders)
    ensures Represents(Resize(st, id, qty), side, if qty <= 0 then RemoveId(resting, id) else SetQty(resting, id, qty))
  {
    if id !in st.orders {
      assert !HasId(resting, id);
      AbsentUntouched(resting, id, qty);
    } else if qty <= 0 {
      DropRepresents(st, side, resting, id);
    } else {
      ResizeLists(st.orders, side, resting, id, qty);
      var after := Resize(st, id, qty).orders;
      forall p ensures Served(st.Entries(side, p), after, side, p) == IdsAt(SetQty(resting, id, qty), p) {
        ServedSame(st.Entries(side, p), st.orders, after, side, p);
        IdsAtSame(resting, SetQty(resting, id, qty), p);
        assert Served(st.Entries(side, p), st.orders, side, p) == IdsAt(resting, p);
      }
      assert forall p :: Resize(st, id, qty).Entries(side, p) == st.Entries(side, p);
    }
  }

  // ---------------------------------------------------------------- resting a new order

  /** No shown order of the level has its first entry behind an entry of `id`. */
  ghost predicate NobodyOvertaken(queue: seq<OrderId>, orders: Orders, side: Side, price: Price, id: OrderId) {
    forall i, j :: 0 <= i < j < |queue| && queue[i] == id && Shown(orders, side, price, queue[j])
                   ==> queue[j] in queue[..i]
  }

  /** The leftover entries of an id that `o` is about to use again can do no harm: none lets
      it overtake a resting order of its own level, none lies at a better level of its own
      side, and none at a level of the other side that it does not cross. */
  ghost predicate RestsCleanly(st: Lazy, o: Order) {
    && NobodyOvertaken(st.Entries(o.side, o.price), st.orders, o.side, o.price, o.id)
    && (forall p :: Better(o.side, p, o.price) ==> o.id !in st.Entries(o.side, p))
    && (forall p :: !Crosses(o.side, o.price, p) ==> o.id !in st.Entries(Opposite(o.side), p))
  }

  /** An id with no entry at all rests cleanly. */
  ghost predicate NoEntry(st: Lazy, id: OrderId) {
    forall side, price :: id !in st.Entries(side, price)
  }

  lemma NoEntryIsClean(st: Lazy, o: Order)
    requires NoEntry(st, o.id)
    ensures RestsCleanly(st, o)
  {
    assert forall i :: 0 <= i < |st.Entries(o.side, o.price)| ==> st.Entries(o.side, o.price)[i] != o.id;
  }

  lemma FirstEntry(queue: seq<OrderId>, id: OrderId) returns (i: nat)
    requires id in queue
    ensures i < |queue| && queue[i] == id && id !in queue[..i]
  {
    i := 0;
    while queue[i] != id
      invariant i < |queue| && id !in queue[..i]
      invariant id in queue
      decreases |queue| - i
    {
      assert queue == queue[..i] + queue[i..];
      assert queue[i..] == [queue[i]] + queue[i + 1..];
      assert queue[..i + 1] == queue[..i] + [queue[i]];
      assert id in queue[i + 1..];
      i := i + 1;
    }
  }

  /** At its own level a cleanly resting order is served last. */
  lemma ServedPush(queue: seq<OrderId>, orders: Orders, o: Order)
    requires o.id !in orders && NobodyOvertaken(queue, orders, o.side, o.price, o.id)
    ensures Served(queue + [o.id], orders[o.id := o], o.side, o.price)
            == Served(queue, orders, o.side, o.price) + [o.id]
  {
    hide Served, WithoutAll;
    var side, price, id, after := o.side, o.price, o.id, orders[o.id := o];
    if id !in queue {
      ServedSame(queue, orders, after, side, price);
      ServedConcat(queue, [id], after, side, price);
      ServedAgain([], queue, id, after, side, price);
      assert [id] + [] == [id];
    } else {
      ServedPushAgain(queue, orders, o);
    }
  }

  lemma ServedPushAgain(queue: seq<OrderId>, orders: Orders, o: Order)
    requires o.id !in orders && o.id in queue && NobodyOvertaken(queue, orders, o.side, o.price, o.id)
    ensures Served(queue + [o.id], orders[o.id := o], o.side, o.price)
            == Served(queue, orders, o.side, o.price) + [o.id]
  {
    hide Served, WithoutAll;
    var side, price, id, after := o.side, o.price, o.id, orders[o.id := o];
    var i := FirstEntry(queue, id);
    var a, c := queue[..i], queue[i + 1..];
    assert queue == a + ([id] + c) && queue + [id] == a + ([id] + (c + [id]));
    assert forall j :: 0 <= j < |c| && Shown(orders, side, price, c[j]) ==> c[j] in a by {
      assert forall j :: 0 <= j < |c| ==> c[j] == queue[i + 1 + j];
    }
    ServedSame(a, orders, after, side, price);
    ServedConcat(a, [id] + c, orders, side, price);
    ServedNothingNew([id] + c, a, orders, side, price);
    ServedConcat(a, [id] + (c + [id]), after, side, price);
    ServedAgain(c + [id], a, id, after, side, price);
  }

  lemma ServedNothingNew(c: seq<OrderId>, a: seq<OrderId>, orders: Orders, side: Side, price: Price)
    requires forall i :: 0 <= i < |c| && Shown(orders, side, price, c[i]) ==> c[i] in a
    ensures WithoutAll(Served(c, orders, side, price), a) == []
  {
    hide Served, WithoutAll;
    var ids := Served(c, orders, side, price);
    forall i | 0 <= i < |ids| ensures ids[i] in a {
      ServedMembers(c, orders, side, price, ids[i]);
      assert ids[i] in ids;
    }
    WithoutAllGone(ids, a);
  }

  /** Behind `a` and an entry of `id`, a queue whose other shown ids are in `a` adds nothing. */
  lemma ServedAgain(c: seq<OrderId>, a: seq<OrderId>, id: OrderId, orders: Orders, side: Side, price: Price)
    requires id !in a && Shown(orders, side, price, id)
    requires forall i :: 0 <= i < |c| && c[i] != id && Shown(orders, side, price, c[i]) ==> c[i] in a
    ensures WithoutAll(Served([id] + c, orders, side, price), a) == [id]
  {
    assert ([id] + c)[1..] == c;
    var later := Without(Served(c, orders, side, price), id);
    forall i | 0 <= i < |later| ensures later[i] in a {
      WithoutMembers(Served(c, orders, side, price), id, later[i]);
      ServedMembers(c, orders, side, price, later[i]);
      assert later[i] in later;
    }
    WithoutAllGone(later, a);
    assert ([id] + later)[1..] == later;
  }

  lemma RestLists(orders: Orders, side: Side, resting: seq<Order>, o: Order)
    requires Lists(orders, side, resting) && Live(o.side, o) && o.id !in orders
    ensures Lists(orders[o.id := o], side, if o.side == side then Insert(side, resting, o) else resting)
  {
    if o.side == side {
      var after, ranked := orders[o.id := o], Insert(side, resting, o);
      assert !HasId(resting, o.id);
      InsertOk(side, resting, o);
      InsertMembers(side, resting, o);
      hide Insert, SideOk;
      forall i | 0 <= i < |ranked| ensures ranked[i].id in after && after[ranked[i].id] == ranked[i] {
        assert ranked[i] in ranked;
      }
    }
  }

  /** One level before and after a cleanly resting order is queued. */
  lemma LevelAfterRest(st: Lazy, o: Order, side: Side, price: Price)
    requires o.qty > 0 && o.id !in st.orders && RestsCleanly(st, o)
    ensures Served(LazyRest(st, o).Entries(side, price), LazyRest(st, o).orders, side, price)
            == Served(st.Entries(side, price), st.orders, side, price)
               + if o.side == side && o.price == price then [o.id] else []
  {
    hide Served;
    var after := st.orders[o.id := o];
    var q := st.Entries(side, price);
    EntriesWith(st.(orders := after), o.side, o.price, st.Entries(o.side, o.price) + [o.id], side, price);
    if o.side == side && o.price == price {
      ServedPush(q, st.orders, o);
    } else {
      forall i | 0 <= i < |q| ensures Shown(st.orders, side, price, q[i]) == Shown(after, side, price, q[i]) {
        if q[i] == o.id {
          assert q[i] in q;
          assert Hides(o, side, price);
        }
      }
      ServedSame(q, st.orders, after, side, price);
    }
  }

  /** Resting cleanly: queued at the back, inserted by priority in the reference. */
  lemma RestRepresents(st: Lazy, side: Side, resting: seq<Order>, o: Order)
    requires Represents(st, side, resting) && Live(o.side, o) && o.id !in st.orders && RestsCleanly(st, o)
    ensures Represents(LazyRest(st, o), side, if o.side == side then Insert(side, resting, o) else resting)
  {
    RestLists(st.orders, side, resting, o);
    assert PrioritySorted(side, resting);
    hide Served, Lists, IdsAt, Insert, PrioritySorted;
    forall p ensures Served(LazyRest(st, o).Entries(side, p), LazyRest(st, o).orders, side, p)
                     == IdsAt(if o.side == side then Insert(side, resting, o) else resting, p)
    {
      LevelAfterRest(st, o, side, p);
      assert Served(st.Entries(side, p), st.orders, side, p) == IdsAt(resting, p);
      IdsAtInsert(side, resting, o, p);
    }
  }

  // ---------------------------------------------------------------- the front of the best queue

  /** A side of the reference mentions exactly the live ids of that side. */
  lemma IdsAreLive(orders: Orders, side: Side, resting: seq<Order>, id: OrderId)
    requires Lists(orders, side, resting) && OrdersOk(orders)
    ensures HasId(resting, id) <==> id in orders && orders[id].side == side
  {
  }

  /** The best live price is the price of the first order in priority order. */
  lemma BestIsFront(orders: Orders, side: Side, resting: seq<Order>, best: Price)
    requires Lists(orders, side, resting) && OrdersOk(orders) && IsBestPrice(orders, side, best)
    ensures best == NO_PRICE <==> resting == []
    ensures resting != [] ==> best == resting[0].price
  {
    if resting != [] {
      assert orders[resting[0].id] == resting[0];
      assert best != NO_PRICE;
      var id :| RestsAt(orders, id, side, best);
      assert orders[id] in resting;
    }
  }

  /** Nothing live hides at the best level of a side: it is the one about to be served. */
  lemma NothingHidesAtBest(st: Lazy, book: Book, side: Side, id: OrderId)
    requires Linked(st, book) && book.On(side) != [] && id in st.orders
    ensures Shown(st.orders, side, book.On(side)[0].price, id)
  {
    hide Served, IdsAt, LazyOk;
    var o, best := st.orders[id], book.On(side)[0].price;
    assert o in book.On(o.side);
    var i :| 0 <= i < |book.On(o.side)| && book.On(o.side)[i] == o;
    assert !Better(o.side, o.price, book.On(o.side)[0].price);
  }

  /** The front of the best queue is dead, or is the very order the reference serves next. */
  lemma FrontOfBest(st: Lazy, book: Book, side: Side)
    requires Linked(st, book) && book.On(side) != []
    ensures var top := book.On(side)[0];
            var queue := st.Entries(side, top.price);
            && queue != []
            && (queue[0] in st.orders ==> queue[0] == top.id && st.orders[queue[0]] == top)
  {
    var top := book.On(side)[0];
    var queue := st.Entries(side, top.price);
    assert Represents(st, side, book.On(side));
    assert Served(queue, st.orders, side, top.price) == IdsAt(book.On(side), top.price);
    assert IdsAt(book.On(side), top.price)[0] == top.id;
    if queue[0] in st.orders {
      NothingHidesAtBest(st, book, side, queue[0]);
    }
  }

  // ---------------------------------------------------------------- the reading is unique

  /** The relation fixes the reference book: there is no second reading of the state. */
  lemma LinkedUnique(st: Lazy, one: Book, two: Book)
    requires Linked(st, one) && Linked(st, two)
    ensures one == two
  {
    hide Linked;
    RepresentsUnique(st, one, two, Buy);
    RepresentsUnique(st, one, two, Sell);
  }

  lemma RepresentsUnique(st: Lazy, one: Book, two: Book, side: Side)
    requires Linked(st, one) && Linked(st, two)
    ensures one.On(side) == two.On(side)
  {
    hide Served, IdsAt, LazyOk, BookOk;
    assert Represents(st, side, one.On(side)) && Represents(st, side, two.On(side));
    forall p ensures IdsAt(one.On(side), p) == IdsAt(two.On(side), p) {
      assert Served(st.Entries(side, p), st.orders, side, p) == IdsAt(one.On(side), p);
      assert Served(st.Entries(side, p), st.orders, side, p) == IdsAt(two.On(side), p);
    }
    SamePriorityOrder(side, one.On(side), two.On(side));
  }

  lemma {:induction false} SamePriorityOrder(side: Side, one: seq<Order>, two: seq<Order>)
    requires PrioritySorted(side, one) && PrioritySorted(side, two)
    requires forall p :: IdsAt(one, p) == IdsAt(two, p)
    requires forall i, j :: 0 <= i < |one| && 0 <= j < |two| && one[i].id == two[j].id ==> one[i] == two[j]
    ensures one == two
  {
    if two != [] {
      assert IdsAt(one, two[0].price) == IdsAt(two, two[0].price) != [];
    }
    if one == [] {
    } else {
      var top := one[0].price;
      assert IdsAt(one, top) == IdsAt(two, top) && one[0].id in IdsAt(one, top);
      IdsAtMembers(two, top, one[0].id);
      var next := two[0].price;
      assert IdsAt(one, next) == IdsAt(two, next) && two[0].id in IdsAt(two, next);
      IdsAtMembers(one, next, two[0].id);
      assert top == next;
      assert IdsAt(one, top)[0] == one[0].id && IdsAt(two, top)[0] == two[0].id;
      forall p ensures IdsAt(one[1..], p) == IdsAt(two[1..], p) {
        assert IdsAt(one, p) == IdsAt(two, p);
        if p == top {
          assert IdsAt(one[1..], p) == IdsAt(one, p)[1..];
          assert IdsAt(two[1..], p) == IdsAt(two, p)[1..];
        }
      }
      SamePriorityOrder(side, one[1..], two[1..]);
    }
  }

  // ---------------------------------------------------------------- level quantities

  /** Quantity at a price, read off the priority order. */
  function QtyAtPrice(resting: seq<Order>, price: Price): Qty {
    if resting == [] then 0
    else (if resting[0].price == price then resting[0].qty else 0) + QtyAtPrice(resting[1..], price)
  }

  /** The level sums over the map of orders are the level sums over the reference side. */
  lemma {:induction false} LevelsMatch(orders: Orders, side: Side, resting: seq<Order>, price: Price)
    requires OrdersOk(orders) && Lists(orders, side, resting)
    ensures LiveQty(orders, side, price) == QtyAtPrice(resting, price)
    decreases |resting|
  {
    if resting == [] {
      LiveQtyPositive(orders, side, price);
    } else {
      var top, tail := resting[0], resting[1..];
      var fewer := orders - {top.id};
      LiveQtySplit(orders, top.id, side, price);
      forall id | id in fewer && fewer[id].side == side ensures fewer[id] in tail {
        assert orders[id] in resting && orders[id].id == id;
      }
      LevelsMatch(fewer, side, tail, price);
    }
  }
}
