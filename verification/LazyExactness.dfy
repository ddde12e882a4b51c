/** Exactly when an id may be used again.

    Resting an order keeps the lazy engine in agreement with the eager one, for ever, if and
    only if its leftover entries are harmless in the sense of `RestsCleanly`.  Otherwise some
    continuation with fresh ids makes the two engines trade different orders. */
module LazyExactness {
  import opened Basics
  import opened OrderTypes
  import opened PriceLevels
  import opened ReferenceBook
  import opened ReferenceTheorems
  import opened OrderBook
  import opened LazyEngine
  import opened LazyRefinement
  import opened LazyTheorems
  import opened LazyEntries

  // ---------------------------------------------------------------- agreement

  /** The live orders are exactly the orders of the book. */
  ghost predicate SameBook(orders: Orders, book: Book) {
    && (forall id :: id in orders <==> InBook(book, id))
    && (forall o :: o in book.bids || o in book.asks ==> o.id in orders && orders[o.id] == o)
  }

  /** Over this continuation both engines emit the same fills and reach the same book. */
  ghost predicate Agrees(st: Lazy, book: Book, events: seq<Event>)
    requires LazyOk(st) && StreamOk(events)
  {
    && LazyRun(st, events).fills == Run(book, events).fills
    && SameBook(LazyRun(st, events).state.orders, Run(book, events).book)
  }

  /** So do all continuations with fresh ids. */
  ghost predicate AlwaysAgrees(st: Lazy, book: Book)
    requires LazyOk(st)
  {
    forall events :: FreshStream(st, events) ==> Agrees(st, book, events)
  }

  lemma LinkedSameBook(st: Lazy, book: Book)
    requires Linked(st, book)
    ensures SameBook(st.orders, book)
  {
    forall id ensures id in st.orders <==> InBook(book, id) {
      LinkedIds(st, book, id);
    }
  }

  /** A linked state agrees with its book over every fresh continuation. */
  lemma LinkedAgrees(st: Lazy, book: Book, events: seq<Event>)
    requires Linked(st, book) && FreshStream(st, events)
    ensures Agrees(st, book, events)
  {
    FreshIsClean(st, events);
    RunRefines(st, book, events);
    LinkedSameBook(LazyRun(st, events).state, Run(book, events).book);
  }

  // ---------------------------------------------------------------- a fresh id exists

  lemma {:induction false} AboveAll(s: set<nat>) returns (f: nat)
    ensures forall x :: x in s ==> x < f
  {
    if s == {} {
      f := 0;
    } else {
      var x :| x in s;
      f := AboveAll(s - {x});
      assert forall y :: y in s ==> y == x || y in s - {x};
      if f <= x {
        f := x + 1;
      }
    }
  }

  lemma FreshId(st: Lazy, avoid: set<OrderId>) returns (f: OrderId)
    ensures NoEntry(st, f) && f !in avoid
  {
    var bids := set p, i | p in st.bidQueue && 0 <= i < |st.bidQueue[p]| :: st.bidQueue[p][i];
    var asks := set p, i | p in st.askQueue && 0 <= i < |st.askQueue[p]| :: st.askQueue[p][i];
    f := AboveAll(bids + asks + avoid);
    forall side, price ensures f !in st.Entries(side, price) {
      var q := st.Entries(side, price);
      forall i | 0 <= i < |q| ensures q[i] < f {
        assert q[i] in if side == Buy then bids else asks;
      }
    }
  }

  // ---------------------------------------------------------------- cancelling a list of orders

  function Cancels(ids: seq<OrderId>): seq<Event> {
    seq(|ids|, i requires 0 <= i < |ids| => CancelOrder(ids[i]))
  }

  function Keep(orders: Orders, ids: seq<OrderId>): Orders {
    map k | k in orders && k !in ids :: orders[k]
  }

  lemma LazyRunSnoc(st: Lazy, prefix: seq<Event>, ev: Event)
    requires LazyOk(st) && StreamOk(prefix) && EventOk(ev)
    ensures StreamOk(prefix + [ev])
    ensures var before := LazyRun(st, prefix);
            var last := LazyStep(before.state, ev);
            LazyRun(st, prefix + [ev]) == LazyOutcome(last.state, before.fills + last.fills)
  {
    hide LazyStep, LazyOk;
    assert (prefix + [ev])[..|prefix|] == prefix;
  }

  /** One more event after a prefix without fills. */
  lemma LazySnoc(st: Lazy, prefix: seq<Event>, mid: Lazy, ev: Event, after: Lazy)
    requires LazyOk(st) && StreamOk(prefix) && EventOk(ev) && LazyOk(mid)
    requires LazyRun(st, prefix) == LazyOutcome(mid, []) && LazyStep(mid, ev) == LazyOutcome(after, [])
    ensures StreamOk(prefix + [ev]) && LazyRun(st, prefix + [ev]) == LazyOutcome(after, [])
  {
    hide LazyStep, LazyRun, LazyOk;
    LazyRunSnoc(st, prefix, ev);
  }

  lemma EagerSnoc(book: Book, prefix: seq<Event>, mid: Book, ev: Event, after: Book)
    requires Run(book, prefix) == Outcome(mid, []) && Step(mid, ev) == Outcome(after, [])
    ensures Run(book, prefix + [ev]) == Outcome(after, [])
  {
    hide Step;
    assert (prefix + [ev])[..|prefix|] == prefix;
  }

  lemma {:induction false} LazyCancels(st: Lazy, ids: seq<OrderId>)
    requires LazyOk(st)
    ensures StreamOk(Cancels(ids)) && LazyRun(st, Cancels(ids)) == LazyOutcome(st.(orders := Keep(st.orders, ids)), [])
  {
    if ids == [] {
      assert Keep(st.orders, ids) == st.orders;
    } else {
      hide LazyOk, LazyRun, Keep;
      var n := |ids| - 1;
      var left := ids[..n];
      LazyCancels(st, left);
      var mid := st.(orders := Keep(st.orders, left));
      KeepSnoc(st.orders, left, ids[n]);
      assert ids == left + [ids[n]];
      assert Cancels(ids) == Cancels(left) + [CancelOrder(ids[n])];
      LazySnoc(st, Cancels(left), mid, CancelOrder(ids[n]), st.(orders := Keep(st.orders, ids)));
    }
  }

  lemma KeepSnoc(orders: Orders, ids: seq<OrderId>, id: OrderId)
    ensures Keep(orders, ids + [id]) == Keep(orders, ids) - {id}
  {
  }

  lemma {:induction false} WithoutAllSnoc(ids: seq<OrderId>, gone: seq<OrderId>, x: OrderId)
    ensures WithoutAll(ids, gone + [x]) == Without(WithoutAll(ids, gone), x)
  {
    if ids == [] {
    } else {
      WithoutAllSnoc(ids[1..], gone, x);
      WithoutCons(ids[0], WithoutAll(ids[1..], gone), x);
    }
  }

  ghost predicate Thinned(book: Book, ids: seq<OrderId>, left: Book) {
    && BookOk(left)
    && (forall side, x :: x in left.On(side) <==> x in book.On(side) && x.id !in ids)
    && (forall side, p :: IdsAt(left.On(side), p) == WithoutAll(IdsAt(book.On(side), p), ids))
  }

  lemma {:induction false} ReferenceCancels(book: Book, ids: seq<OrderId>)
    requires BookOk(book)
    ensures Run(book, Cancels(ids)).fills == [] && Thinned(book, ids, Run(book, Cancels(ids)).book)
  {
    if ids == [] {
      forall side, p ensures WithoutAll(IdsAt(book.On(side), p), []) == IdsAt(book.On(side), p) {
        WithoutAllNone(IdsAt(book.On(side), p));
      }
    } else {
      var n := |ids| - 1;
      assert Cancels(ids)[..n] == Cancels(ids[..n]);
      ReferenceCancels(book, ids[..n]);
      assert ids == ids[..n] + [ids[n]];
      ThinOneMore(book, ids[..n], Run(book, Cancels(ids[..n])).book, ids[n]);
    }
  }

  lemma ThinOneMore(book: Book, ids: seq<OrderId>, left: Book, id: OrderId)
    requires Thinned(book, ids, left)
    ensures Thinned(book, ids + [id], Cancel(left, id))
  {
    CancelOk(left, id);
    forall side ensures Cancel(left, id).On(side) == RemoveId(left.On(side), id) && SideOk(side, left.On(side)) {}
    forall side, x ensures x in Cancel(left, id).On(side) <==> x in book.On(side) && x.id !in ids + [id] {
      RemoveOk(side, left.On(side), id);
    }
    forall side, p ensures IdsAt(Cancel(left, id).On(side), p) == WithoutAll(IdsAt(book.On(side), p), ids + [id]) {
      IdsAtRemove(left.On(side), id, p);
      WithoutAllSnoc(IdsAt(book.On(side), p), ids, id);
    }
  }

  // ---------------------------------------------------------------- first fills

  /** The loop's first fill is against the first live entry of the best queue. */
  lemma {:induction false} FirstFill(st: Lazy, id: OrderId, side: Side, limit: Price, qty: Qty, best: Price, k: nat)
    requires LazyOk(st) && qty > 0
    requires IsBestPrice(st.orders, Opposite(side), best) && best != NO_PRICE && Crosses(side, limit, best)
    requires k < |st.Entries(Opposite(side), best)| && st.Entries(Opposite(side), best)[k] in st.orders
    requires forall i :: 0 <= i < k ==> st.Entries(Opposite(side), best)[i] !in st.orders
    ensures var m := LazyMatch(st, id, side, limit, qty);
            m.fills != [] && m.fills[0].passive == st.Entries(Opposite(side), best)[k]
    decreases k
  {
    hide FillFront, IsBestPrice;
    var far := Opposite(side);
    BestUnique(st.orders, far, best, BestOf(st.orders, far));
    if k == 0 {
    } else {
      PopDeadOk(st, far, best);
      EntriesWith(st, far, best, st.Entries(far, best)[1..], far, best);
      FirstFill(PopFront(st, far, best), id, side, limit, qty, best, k - 1);
    }
  }

  // ---------------------------------------------------------------- the two ways to go wrong

  function Ids(resting: seq<Order>): seq<OrderId> {
    seq(|resting|, i requires 0 <= i < |resting| => resting[i].id)
  }

  lemma IdsMembers(resting: seq<Order>, id: OrderId)
    ensures id in Ids(resting) <==> HasId(resting, id)
  {
    if HasId(resting, id) {
      var i :| 0 <= i < |resting| && resting[i].id == id;
      assert Ids(resting)[i] == id;
    }
  }

  /** Every live id except `spare`. */
  function Others(book: Book, spare: set<OrderId>): seq<OrderId> {
    OnlyOutside(Ids(book.bids) + Ids(book.asks), spare)
  }

  function OnlyOutside(ids: seq<OrderId>, spare: set<OrderId>): seq<OrderId> {
    if ids == [] then []
    else (if ids[0] in spare then [] else [ids[0]]) + OnlyOutside(ids[1..], spare)
  }

  lemma {:induction false} OnlyOutsideMembers(ids: seq<OrderId>, spare: set<OrderId>, k: OrderId)
    ensures k in OnlyOutside(ids, spare) <==> k in ids && k !in spare
  {
    if ids == [] {
    } else {
      OnlyOutsideMembers(ids[1..], spare, k);
      assert ids == [ids[0]] + ids[1..];
    }
  }

  lemma OthersMembers(book: Book, spare: set<OrderId>, k: OrderId)
    ensures k in Others(book, spare) <==> InBook(book, k) && k !in spare
  {
    OnlyOutsideMembers(Ids(book.bids) + Ids(book.asks), spare, k);
    IdsMembers(book.bids, k);
    IdsMembers(book.asks, k);
  }

  lemma AddedByCancels(ids: seq<OrderId>, more: seq<Event>)
    ensures AddedIds(Cancels(ids) + more) == AddedIds(more)
  {
    var events := Cancels(ids) + more;
    forall k | k in AddedIds(events) ensures k in AddedIds(more) {
      var i :| 0 <= i < |events| && events[i].AddOrder? && events[i].id == k;
      assert more[i - |ids|].id == k;
    }
    forall k | k in AddedIds(more) ensures k in AddedIds(events) {
      var i :| 0 <= i < |more| && more[i].AddOrder? && more[i].id == k;
      assert events[|ids| + i].id == k;
    }
  }

  /** What is left of a linked state and its book, with `o` resting cleanly or not, once every
      other order but `spare` has been cancelled. */
  lemma Isolate(st: Lazy, book: Book, o: Order, spare: set<OrderId>)
    returns (ids: seq<OrderId>, st2: Lazy, book2: Book)
    requires Linked(st, book) && Live(o.side, o) && o.id !in st.orders && NothingCrosses(book, o)
    requires spare <= st.orders.Keys
    ensures LazyOk(LazyRest(st, o)) && StreamOk(Cancels(ids))
    ensures LazyRun(LazyRest(st, o), Cancels(ids)) == LazyOutcome(st2, [])
    ensures Run(Rest(book, o), Cancels(ids)) == Outcome(book2, [])
    ensures LazyOk(st2) && st2 == LazyRest(st, o).(orders := st2.orders)
    ensures st2.orders.Keys == spare + {o.id} && st2.orders[o.id] == o
    ensures forall k :: k in spare ==> st2.orders[k] == st.orders[k]
    ensures forall k :: k in ids <==> InBook(book, k) && k !in spare
    ensures Thinned(Rest(book, o), ids, book2)
  {
    hide Represents, BookOk, Thinned, LazyOk, Others, InBook, LazyRun, Run, Keep, LazyRest, Rest, NothingCrosses;
    ids := Others(book, spare);
    LazyRestOk(st, o);
    RestOk(book, o);
    LazyCancels(LazyRest(st, o), ids);
    ReferenceCancels(Rest(book, o), ids);
    st2 := LazyRun(LazyRest(st, o), Cancels(ids)).state;
    book2 := Run(Rest(book, o), Cancels(ids)).book;
    IsolatedOrders(st, book, o, spare);
  }

  lemma IsolatedOrders(st: Lazy, book: Book, o: Order, spare: set<OrderId>)
    requires Linked(st, book) && o.qty > 0 && o.id !in st.orders && spare <= st.orders.Keys
    ensures var left := Keep(LazyRest(st, o).orders, Others(book, spare));
            && left.Keys == spare + {o.id} && left[o.id] == o
            && (forall k :: k in spare ==> left[k] == st.orders[k])
    ensures forall k :: k in Others(book, spare) <==> InBook(book, k) && k !in spare
  {
    hide Linked, InBook, Others;
    assert LazyRest(st, o).orders == st.orders[o.id := o];
    forall k ensures k in Others(book, spare) <==> InBook(book, k) && k !in spare
             ensures InBook(book, k) <==> k in st.orders
    {
      OthersMembers(book, spare, k);
      LinkedIds(st, book, k);
    }
  }

  /** Two engines that have emitted nothing so far and now trade with different orders disagree. */
  lemma DifferentFirstFill(st: Lazy, book: Book, prefix: seq<Event>, probe: Event)
    requires LazyOk(st) && StreamOk(prefix) && EventOk(probe)
    requires LazyRun(st, prefix).fills == [] == Run(book, prefix).fills
    requires LazyStep(LazyRun(st, prefix).state, probe).fills != []
    requires Step(Run(book, prefix).book, probe).fills != []
    requires LazyStep(LazyRun(st, prefix).state, probe).fills[0].passive
             != Step(Run(book, prefix).book, probe).fills[0].passive
    ensures StreamOk(prefix + [probe]) && !Agrees(st, book, prefix + [probe])
  {
    hide LazyStep, Step, LazyOk, SameBook;
    assert (prefix + [probe])[..|prefix|] == prefix;
    var lazy := LazyStep(LazyRun(st, prefix).state, probe).fills;
    var eager := Step(Run(book, prefix).book, probe).fills;
    assert [] + lazy == lazy && [] + eager == eager;
  }

  lemma EagerFirstFill(book: Book, f: OrderId, side: Side, limit: Price)
    requires book.On(Opposite(side)) != []
    requires Crosses(side, limit, book.On(Opposite(side))[0].price)
    ensures var fills := Step(book, AddOrder(f, side, limit, 1)).fills;
            fills != [] && fills[0].passive == book.On(Opposite(side))[0].id
  {
  }

  /** A shown entry belongs to an order that rests at that very level. */
  lemma ShownRestsThere(st: Lazy, book: Book, side: Side, price: Price, j: nat)
    requires Linked(st, book) && j < |st.Entries(side, price)|
    requires Shown(st.orders, side, price, st.Entries(side, price)[j])
    ensures var x := st.Entries(side, price)[j];
            RestsAt(st.orders, x, side, price) && x in IdsAt(book.On(side), price)
  {
    var q := st.Entries(side, price);
    assert Represents(st, side, book.On(side));
    ServedMembers(q, st.orders, side, price, q[j]);
    assert Served(q, st.orders, side, price) == IdsAt(book.On(side), price);
    IdsAtMembers(book.On(side), price, q[j]);
  }

  /** Someone is overtaken: with only the two left, one unit traded at the level goes to the
      wrong one. */
  lemma OvertakenDisagrees(st: Lazy, book: Book, o: Order, i: nat, j: nat) returns (events: seq<Event>)
    requires Linked(st, book) && Live(o.side, o) && o.id !in st.orders && NothingCrosses(book, o)
    requires var q := st.Entries(o.side, o.price);
             && i < j < |q| && q[i] == o.id && q[j] !in q[..i]
             && Shown(st.orders, o.side, o.price, q[j])
    ensures LazyOk(LazyRest(st, o)) && FreshStream(LazyRest(st, o), events)
    ensures !Agrees(LazyRest(st, o), Rest(book, o), events)
  {
    hide Linked, RestsCleanly, Agrees, LazyOk, LazyRest, Rest, NoEntry, Thinned;
    var q := st.Entries(o.side, o.price);
    var x := q[j];
    ShownRestsThere(st, book, o.side, o.price, j);
    var ids, st2, book2 := Isolate(st, book, o, {x});
    var f := FreshId(LazyRest(st, o), {});
    var probe := AddOrder(f, Opposite(o.side), o.price, 1);
    OvertakenLazy(st, o, i, j, st2, f);
    OvertakenEager(st, book, o, x, ids, book2);
    EagerFirstFill(book2, f, Opposite(o.side), o.price);
    DifferentFirstFill(LazyRest(st, o), Rest(book, o), Cancels(ids), probe);
    events := Cancels(ids) + [probe];
    FreshProbe(LazyRest(st, o), ids, probe);
  }

  lemma FreshProbe(st: Lazy, ids: seq<OrderId>, probe: Event)
    requires EventOk(probe) && probe.AddOrder? && NoEntry(st, probe.id)
    ensures FreshStream(st, Cancels(ids) + [probe])
  {
    AddedByCancels(ids, [probe]);
    forall k | k in AddedIds([probe]) ensures k == probe.id {}
  }

  lemma OvertakenLazy(st: Lazy, o: Order, i: nat, j: nat, st2: Lazy, f: OrderId)
    requires Live(o.side, o) && o.id !in st.orders
    requires var q := st.Entries(o.side, o.price);
             i < j < |q| && q[i] == o.id && q[j] !in q[..i] && RestsAt(st.orders, q[j], o.side, o.price)
    requires LazyOk(st2) && st2 == LazyRest(st, o).(orders := st2.orders)
    requires var x := st.Entries(o.side, o.price)[j];
             st2.orders.Keys == {x, o.id} && st2.orders[o.id] == o && st2.orders[x] == st.orders[x]
    ensures var fills := LazyStep(st2, AddOrder(f, Opposite(o.side), o.price, 1)).fills;
            fills != [] && fills[0].passive == o.id
  {
    hide LazyOk;
    var q := st.Entries(o.side, o.price);
    EntriesWith(st.(orders := st.orders[o.id := o]), o.side, o.price, q + [o.id], o.side, o.price);
    assert st2.Entries(o.side, o.price) == q + [o.id];
    var k := FirstEntry(q[..i + 1], o.id);
    assert q[..i + 1][..k] == q[..k];
    forall h | 0 <= h < k ensures (q + [o.id])[h] !in st2.orders {
      assert q[h] in q[..k] && q[h] in q[..i];
    }
    assert RestsAt(st2.orders, o.id, o.side, o.price);
    assert IsBestPrice(st2.orders, o.side, o.price);
    FirstFillOk(st2, f, Opposite(o.side), o.price, 1, o.price, k);
  }

  /** FirstFill, as a fact about an add event. */
  lemma FirstFillOk(st: Lazy, f: OrderId, side: Side, limit: Price, qty: Qty, best: Price, k: nat)
    requires LazyOk(st) && qty > 0 && limit >= 0
    requires IsBestPrice(st.orders, Opposite(side), best) && best != NO_PRICE && Crosses(side, limit, best)
    requires k < |st.Entries(Opposite(side), best)| && st.Entries(Opposite(side), best)[k] in st.orders
    requires forall i :: 0 <= i < k ==> st.Entries(Opposite(side), best)[i] !in st.orders
    ensures var fills := LazyStep(st, AddOrder(f, side, limit, qty)).fills;
            fills != [] && fills[0].passive == st.Entries(Opposite(side), best)[k]
  {
    hide LazyOk, LazyMatch, IsBestPrice, LazyRest;
    FirstFill(st, f, side, limit, qty, best, k);
  }

  lemma {:induction false} WithoutAllConcat(a: seq<OrderId>, b: seq<OrderId>, gone: seq<OrderId>)
    ensures WithoutAll(a + b, gone) == WithoutAll(a, gone) + WithoutAll(b, gone)
  {
    if a == [] {
      assert a + b == b;
    } else {
      assert (a + b)[1..] == a[1..] + b;
      WithoutAllConcat(a[1..], b, gone);
    }
  }

  /** In the reference the earlier of the two stands in front. */
  lemma OvertakenEager(st: Lazy, book: Book, o: Order, x: OrderId, ids: seq<OrderId>, book2: Book)
    requires Linked(st, book) && Live(o.side, o) && o.id !in st.orders
    requires RestsAt(st.orders, x, o.side, o.price) && x in IdsAt(book.On(o.side), o.price)
    requires forall k :: k in ids <==> InBook(book, k) && k != x
    requires Thinned(Rest(book, o), ids, book2)
    ensures book2.On(o.side) != [] && book2.On(o.side)[0].id == x && book2.On(o.side)[0].price == o.price
  {
    hide Represents, LazyOk;
    LinkedIds(st, book, o.id);
    var before := IdsAt(book.On(o.side), o.price);
    IdsAtInsert(o.side, book.On(o.side), o, o.price);
    WithoutAllConcat(before, [o.id], ids);
    WithoutAllMembers(before, ids, x);
    var kept := WithoutAll(before, ids);
    forall h | 0 <= h < |kept| ensures kept[h] == x {
      WithoutAllMembers(before, ids, kept[h]);
      assert kept[h] in kept;
      IdsAtMembers(book.On(o.side), o.price, kept[h]);
    }
    var left := book2.On(o.side);
    assert IdsAt(left, o.price) == WithoutAll(before + [o.id], ids);
    assert IdsAt(left, o.price)[0] == x;
    OnlyTwoLeft(st, book, o, x, ids, book2);
  }

  lemma OnlyTwoLeft(st: Lazy, book: Book, o: Order, x: OrderId, ids: seq<OrderId>, book2: Book)
    requires Linked(st, book) && Live(o.side, o) && o.id !in st.orders
    requires RestsAt(st.orders, x, o.side, o.price)
    requires forall k :: k in ids <==> InBook(book, k) && k != x
    requires Thinned(Rest(book, o), ids, book2)
    ensures forall h :: 0 <= h < |book2.On(o.side)| ==> book2.On(o.side)[h].price == o.price
  {
    var left := book2.On(o.side);
    forall h | 0 <= h < |left| ensures left[h].price == o.price {
      assert left[h] in left;
      SurvivorIs(st, book, o, ids, book2, o.side, left[h]);
    }
  }

  lemma RestMembers(book: Book, o: Order, side: Side, x: Order)
    requires !InBook(book, o.id) && o.qty > 0
    ensures x in Rest(book, o).On(side) <==> x in book.On(side) || (side == o.side && x == o)
  {
    InsertMembers(o.side, book.On(o.side), o);
  }

  lemma LinkedMember(st: Lazy, book: Book, side: Side, x: Order)
    requires Linked(st, book) && x in book.On(side)
    ensures InBook(book, x.id) && x.id in st.orders && st.orders[x.id] == x
  {
    hide LazyOk, BookOk, Served, IdsAt, SideOk;
    assert Represents(st, side, book.On(side));
    var i :| 0 <= i < |book.On(side)| && book.On(side)[i] == x;
    assert HasId(book.On(side), x.id);
  }

  /** An order that survived the cancels is `o` or one that was not cancelled. */
  lemma SurvivorIs(st: Lazy, book: Book, o: Order, ids: seq<OrderId>, book2: Book, side: Side, x: Order)
    requires Linked(st, book) && Live(o.side, o) && o.id !in st.orders
    requires Thinned(Rest(book, o), ids, book2) && x in book2.On(side)
    ensures (x == o && side == o.side)
            || (x.id !in ids && InBook(book, x.id) && x.id in st.orders && st.orders[x.id] == x)
  {
    LinkedIds(st, book, o.id);
    RestMembers(book, o, side, x);
    hide Linked, BookOk, IdsAt, Rest, WithoutAll;
    if !(x == o && side == o.side) {
      LinkedMember(st, book, side, x);
    }
  }

  // ---------------------------------------------------------------- an entry at a level not one's own

  /** A leftover entry through which `o` could be reached although it does not rest there. */
  predicate Foreign(o: Order, side: Side, price: Price) {
    if side == o.side then Better(side, price, o.price) else !Crosses(o.side, o.price, price)
  }

  /** With `o` alone in the book, a new order at the foreign level should trade first, and the
      lazy engine trades `o` instead. */
  lemma ForeignDisagrees(st: Lazy, book: Book, o: Order, side: Side, price: Price) returns (events: seq<Event>)
    requires Linked(st, book) && Live(o.side, o) && o.id !in st.orders && NothingCrosses(book, o)
    requires Foreign(o, side, price) && o.id in st.Entries(side, price)
    ensures LazyOk(LazyRest(st, o)) && FreshStream(LazyRest(st, o), events)
    ensures !Agrees(LazyRest(st, o), Rest(book, o), events)
  {
    hide Linked, Agrees, LazyRest, Rest, Thinned, LazyStep, Step, LazyRun, Run, FreshStream, LazyOk, NoEntry, InBook;
    hide Foreign, RestsCleanly, NothingCrosses;
    LevelOfEntry(st, book, side, price);
    var ids, st2, book2 := Isolate(st, book, o, {});
    var y := FreshId(LazyRest(st, o), {o.id});
    var f := FreshId(LazyRest(st, o), {y});
    var bait, probe := AddOrder(y, side, price, 1), AddOrder(f, Opposite(side), price, 1);
    ForeignLazyRun(st, o, ids, st2, side, price, y, f);
    ForeignEagerRun(st, book, o, ids, book2, side, price, y, f);
    DifferentFirstFill(LazyRest(st, o), Rest(book, o), Cancels(ids) + [bait], probe);
    events := Cancels(ids) + [bait] + [probe];
    assert events == Cancels(ids) + [bait, probe];
    FreshPair(LazyRest(st, o), ids, bait, probe);
  }

  lemma LevelOfEntry(st: Lazy, book: Book, side: Side, price: Price)
    requires Linked(st, book) && st.Entries(side, price) != []
    ensures price >= 0
  {
  }

  lemma ForeignLazyRun(st: Lazy, o: Order, ids: seq<OrderId>, st2: Lazy, side: Side, price: Price,
                       y: OrderId, f: OrderId)
    requires Live(o.side, o) && o.id !in st.orders && Foreign(o, side, price) && o.id in st.Entries(side, price)
    requires price >= 0 && LazyOk(LazyRest(st, o)) && StreamOk(Cancels(ids))
    requires LazyRun(LazyRest(st, o), Cancels(ids)) == LazyOutcome(st2, [])
    requires LazyOk(st2) && st2 == LazyRest(st, o).(orders := st2.orders)
    requires st2.orders.Keys == {o.id} && st2.orders[o.id] == o
    requires NoEntry(LazyRest(st, o), y) && y != o.id
    ensures StreamOk(Cancels(ids) + [AddOrder(y, side, price, 1)])
    ensures var r := LazyRun(LazyRest(st, o), Cancels(ids) + [AddOrder(y, side, price, 1)]);
            var fills := LazyStep(r.state, AddOrder(f, Opposite(side), price, 1)).fills;
            r.fills == [] && fills != [] && fills[0].passive == o.id
  {
    hide LazyOk, LazyRest, NoEntry, Foreign, LazyStep, LazyRun;
    var bait := AddOrder(y, side, price, 1);
    ForeignLazy(st, o, side, price, st2, y, f);
    LazySnoc(LazyRest(st, o), Cancels(ids), st2, bait, LazyStep(st2, bait).state);
  }

  lemma ForeignEagerRun(st: Lazy, book: Book, o: Order, ids: seq<OrderId>, book2: Book, side: Side, price: Price,
                        y: OrderId, f: OrderId)
    requires Linked(st, book) && Live(o.side, o) && o.id !in st.orders && Foreign(o, side, price) && y != o.id
    requires forall k :: k in ids <==> InBook(book, k) && k !in {}
    requires Run(Rest(book, o), Cancels(ids)) == Outcome(book2, []) && Thinned(Rest(book, o), ids, book2)
    ensures var r := Run(Rest(book, o), Cancels(ids) + [AddOrder(y, side, price, 1)]);
            var fills := Step(r.book, AddOrder(f, Opposite(side), price, 1)).fills;
            r.fills == [] && fills != [] && fills[0].passive == y
  {
    hide Linked, Rest, Thinned, Foreign, Step, Run;
    var bait := AddOrder(y, side, price, 1);
    assert forall k :: k in ids <==> InBook(book, k);
    AloneInBook(st, book, o, ids, book2);
    ForeignEager(o, side, price, book2, y);
    var book3 := Step(book2, bait).book;
    EagerSnoc(Rest(book, o), Cancels(ids), book2, bait, book3);
    EagerFirstFill(book3, f, Opposite(side), price);
  }

  lemma FreshPair(st: Lazy, ids: seq<OrderId>, one: Event, two: Event)
    requires EventOk(one) && one.AddOrder? && NoEntry(st, one.id)
    requires EventOk(two) && two.AddOrder? && NoEntry(st, two.id) && one.id != two.id
    ensures FreshStream(st, Cancels(ids) + [one, two])
  {
    AddedByCancels(ids, [one, two]);
    forall k | k in AddedIds([one, two]) ensures k == one.id || k == two.id {}
  }

  lemma ForeignLazy(st: Lazy, o: Order, side: Side, price: Price, st2: Lazy, y: OrderId, f: OrderId)
    requires Live(o.side, o) && o.id !in st.orders && Foreign(o, side, price) && o.id in st.Entries(side, price)
    requires price >= 0
    requires LazyOk(st2) && st2 == LazyRest(st, o).(orders := st2.orders)
    requires st2.orders.Keys == {o.id} && st2.orders[o.id] == o
    requires NoEntry(LazyRest(st, o), y) && y != o.id
    ensures LazyStep(st2, AddOrder(y, side, price, 1)).fills == []
    ensures var st3 := LazyStep(st2, AddOrder(y, side, price, 1)).state;
            var fills := LazyStep(st3, AddOrder(f, Opposite(side), price, 1)).fills;
            fills != [] && fills[0].passive == o.id
  {
    var bait := AddOrder(y, side, price, 1);
    var q := st.Entries(side, price);
    EntriesWith(st.(orders := st.orders[o.id := o]), o.side, o.price,
                st.Entries(o.side, o.price) + [o.id], side, price);
    assert st2.Entries(side, price) == q;
    assert y !in q by {
      assert y !in LazyRest(st, o).Entries(side, price);
    }
    hide LazyOk, LazyStep, LazyRest, NoEntry;
    BaitRests(o, side, price, st2, y);
    BaitNotFirst(o, side, price, LazyStep(st2, bait).state, q, y, f);
  }

  lemma BaitNotFirst(o: Order, side: Side, price: Price, st3: Lazy, q: seq<OrderId>, y: OrderId, f: OrderId)
    requires LazyOk(st3) && Live(o.side, o) && Foreign(o, side, price) && price >= 0
    requires st3.orders == map[o.id := o, y := Order(y, side, price, 1)] && y != o.id
    requires st3.Entries(side, price) == q + [y] && o.id in q && y !in q
    ensures var fills := LazyStep(st3, AddOrder(f, Opposite(side), price, 1)).fills;
            fills != [] && fills[0].passive == o.id
  {
    hide LazyOk, LazyStep;
    var k := FirstEntry(q, o.id);
    forall h | 0 <= h < k ensures (q + [y])[h] !in st3.orders {
      assert q[h] in q[..k] && q[h] in q;
    }
    assert RestsAt(st3.orders, y, side, price);
    assert IsBestPrice(st3.orders, side, price);
    FirstFillOk(st3, f, Opposite(side), price, 1, price, k);
  }

  /** The bait meets nothing it crosses and rests behind the leftover entry. */
  lemma BaitRests(o: Order, side: Side, price: Price, st2: Lazy, y: OrderId)
    requires Live(o.side, o) && Foreign(o, side, price) && price >= 0
    requires LazyOk(st2) && st2.orders.Keys == {o.id} && st2.orders[o.id] == o && y != o.id
    ensures var r := LazyStep(st2, AddOrder(y, side, price, 1));
            && r.fills == []
            && r.state.orders == map[o.id := o, y := Order(y, side, price, 1)]
            && r.state.Entries(side, price) == st2.Entries(side, price) + [y]
  {
    var far := Opposite(side);
    var best := BestOf(st2.orders, far);
    if best != NO_PRICE {
      var id :| RestsAt(st2.orders, id, far, best);
      assert id == o.id;
    }
    assert LazyMatch(st2, y, side, price, 1) == Matched(st2, 1, []);
    var bait := Order(y, side, price, 1);
    EntriesWith(st2.(orders := st2.orders[y := bait]), side, price, st2.Entries(side, price) + [y], side, price);
    hide LazyMatch, LazyOk;
    assert st2.orders[y := bait] == map[o.id := o, y := bait];
  }

  lemma AloneInBook(st: Lazy, book: Book, o: Order, ids: seq<OrderId>, book2: Book)
    requires Linked(st, book) && Live(o.side, o) && o.id !in st.orders
    requires forall k :: k in ids <==> InBook(book, k)
    requires Thinned(Rest(book, o), ids, book2)
    ensures book2.On(o.side) == [o] && book2.On(Opposite(o.side)) == []
  {
    LinkedIds(st, book, o.id);
    RestMembers(book, o, o.side, o);
    hide Linked, Rest, IdsAt, WithoutAll, InBook;
    var near, far := book2.On(o.side), book2.On(Opposite(o.side));
    if far != [] {
      assert far[0] in far;
      SurvivorIs(st, book, o, ids, book2, Opposite(o.side), far[0]);
    }
    forall i | 0 <= i < |near| ensures near[i] == o {
      assert near[i] in near;
      SurvivorIs(st, book, o, ids, book2, o.side, near[i]);
    }
    assert o in near;
    assert |near| > 1 ==> near[0].id != near[1].id;
  }

  lemma ForeignEager(o: Order, side: Side, price: Price, book2: Book, y: OrderId)
    requires Foreign(o, side, price) && y != o.id
    requires book2.On(o.side) == [o] && book2.On(Opposite(o.side)) == []
    ensures var r := Step(book2, AddOrder(y, side, price, 1));
            r.fills == [] && r.book.On(side) != [] && r.book.On(side)[0] == Order(y, side, price, 1)
  {
  }

  // ---------------------------------------------------------------- the theorem

  lemma UncleanDisagrees(st: Lazy, book: Book, o: Order) returns (events: seq<Event>)
    requires Linked(st, book) && Live(o.side, o) && o.id !in st.orders && NothingCrosses(book, o)
    requires !RestsCleanly(st, o)
    ensures LazyOk(LazyRest(st, o)) && FreshStream(LazyRest(st, o), events)
    ensures !Agrees(LazyRest(st, o), Rest(book, o), events)
  {
    hide Linked, Agrees, LazyOk, LazyRest, Rest, FreshStream;
    var q := st.Entries(o.side, o.price);
    if p :| Better(o.side, p, o.price) && o.id in st.Entries(o.side, p) {
      events := ForeignDisagrees(st, book, o, o.side, p);
    } else if p :| !Crosses(o.side, o.price, p) && o.id in st.Entries(Opposite(o.side), p) {
      events := ForeignDisagrees(st, book, o, Opposite(o.side), p);
    } else {
      var i, j :| 0 <= i < j < |q| && q[i] == o.id && Shown(st.orders, o.side, o.price, q[j]) && q[j] !in q[..i];
      events := OvertakenDisagrees(st, book, o, i, j);
    }
  }

  lemma LinkedAlwaysAgrees(st: Lazy, book: Book)
    requires Linked(st, book)
    ensures AlwaysAgrees(st, book)
  {
    forall events | FreshStream(st, events) ensures Agrees(st, book, events) {
      LinkedAgrees(st, book, events);
    }
  }

  /** A remainder may take over a used id exactly when it rests cleanly: then, and only then,
      both engines agree over every continuation with fresh ids. */
  lemma CleanIffAgrees(st: Lazy, book: Book, o: Order)
    requires Linked(st, book) && Live(o.side, o) && o.id !in st.orders && NothingCrosses(book, o)
    ensures LazyOk(LazyRest(st, o))
    ensures RestsCleanly(st, o) <==> AlwaysAgrees(LazyRest(st, o), Rest(book, o))
  {
    LazyRestOk(st, o);
    if RestsCleanly(st, o) {
      RestLinked(st, book, o);
      LinkedAlwaysAgrees(LazyRest(st, o), Rest(book, o));
    } else {
      var events := UncleanDisagrees(st, book, o);
    }
  }

  /** The same for an incoming add, whatever its id: its own fills always agree with the
      reference, and the future does exactly when what it leaves rests cleanly. */
  lemma AddAgreesIffClean(st: Lazy, book: Book, ev: Event)
    requires Linked(st, book) && EventOk(ev) && ev.AddOrder?
    ensures LazyStep(st, ev).fills == Step(book, ev).fills
    ensures CleanAdd(st, ev) <==> AlwaysAgrees(LazyStep(st, ev).state, Step(book, ev).book)
  {
    StepRefines(st, book, ev);
    var m := LazyMatch(st, ev.id, ev.side, ev.price, ev.qty);
    var o := Order(ev.id, ev.side, ev.price, m.left);
    MatchRefines(st, book, ev.id, ev.side, ev.price, ev.qty);
    AfterSweepOk(book, ev);
    hide Linked, AlwaysAgrees, RestsCleanly;
    if m.left > 0 && ev.id !in m.state.orders {
      CleanIffAgrees(m.state, AfterSweep(book, ev), o);
    } else {
      LinkedAlwaysAgrees(LazyStep(st, ev).state, Step(book, ev).book);
    }
  }

  /** The two engines have emitted the same fills and will agree over all fresh continuations. */
  ghost predicate AgreesAfter(st: Lazy, book: Book, events: seq<Event>)
    requires LazyOk(st) && StreamOk(events)
  {
    && LazyRun(st, events).fills == Run(book, events).fills
    && AlwaysAgrees(LazyRun(st, events).state, Run(book, events).book)
  }

  ghost predicate AgreesThroughout(st: Lazy, book: Book, events: seq<Event>)
    requires LazyOk(st) && StreamOk(events)
  {
    forall n :: 0 <= n <= |events| ==> AgreesAfter(st, book, events[..n])
  }

  /** Whole streams, ids reused or not: after every prefix the engines agree on the past and on
      every fresh future, if and only if each add rests cleanly when its turn comes. */
  lemma {:induction false} RunAgreesIffClean(st: Lazy, book: Book, events: seq<Event>)
    requires Linked(st, book) && StreamOk(events)
    ensures CleanRun(st, events) <==> AgreesThroughout(st, book, events)
  {
    assert LazyOk(st);
    hide Linked, LazyStep, Step, AlwaysAgrees, CleanAdd;
    if events == [] {
      LinkedAlwaysAgrees(st, book);
      assert forall n :: 0 <= n <= |events| ==> events[..n] == [];
    } else {
      var n := |events| - 1;
      var init := events[..n];
      RunAgreesIffClean(st, book, init);
      ThroughoutSnoc(st, book, events);
      if CleanRun(st, init) {
        RunRefines(st, book, init);
        LastAgreesIffClean(st, book, events);
      }
    }
  }

  lemma ThroughoutSnoc(st: Lazy, book: Book, events: seq<Event>)
    requires LazyOk(st) && StreamOk(events) && events != []
    ensures var init := events[..|events| - 1];
            AgreesThroughout(st, book, events) <==> AgreesThroughout(st, book, init) && AgreesAfter(st, book, events)
  {
    hide AgreesAfter, LazyOk;
    var m := |events| - 1;
    var init := events[..m];
    assert forall n :: 0 <= n <= m ==> init[..n] == events[..n];
    assert events[..m + 1] == events;
    if AgreesThroughout(st, book, init) && AgreesAfter(st, book, events) {
      forall n | 0 <= n <= |events| ensures AgreesAfter(st, book, events[..n]) {
        if n <= m {
          assert AgreesAfter(st, book, init[..n]);
        }
      }
    }
    if AgreesThroughout(st, book, events) {
      forall n | 0 <= n <= m ensures AgreesAfter(st, book, init[..n]) {
        assert AgreesAfter(st, book, events[..n]);
      }
      assert AgreesAfter(st, book, events[..m + 1]);
    }
  }

  lemma LastAgreesIffClean(st: Lazy, book: Book, events: seq<Event>)
    requires LazyOk(st) && StreamOk(events) && events != []
    requires var init := events[..|events| - 1];
             && CleanRun(st, init)
             && LazyRun(st, init).fills == Run(book, init).fills
             && Linked(LazyRun(st, init).state, Run(book, init).book)
    ensures CleanRun(st, events) <==> AgreesAfter(st, book, events)
  {
    hide Linked, LazyStep, Step, AlwaysAgrees, CleanAdd;
    var n := |events| - 1;
    var before, reference := LazyRun(st, events[..n]).state, Run(book, events[..n]).book;
    StepRefines(before, reference, events[n]);
    if events[n].AddOrder? {
      AddAgreesIffClean(before, reference, events[n]);
    } else {
      LinkedAlwaysAgrees(LazyStep(before, events[n]).state, Step(reference, events[n]).book);
    }
  }
}
