/** What the reference engine guarantees over every stream: a well-formed, uncrossed
    book, price-time priority, and conservation of quantity order by order. */
module ReferenceTheorems {
  import opened OrderTypes
  import opened ReferenceBook

  // ---------------------------------------------------------------- well-formed sides

  ghost predicate PrioritySorted(side: Side, resting: seq<Order>) {
    forall i, j :: 0 <= i < j < |resting| ==> !Better(side, resting[j].price, resting[i].price)
  }

  ghost predicate DistinctIds(resting: seq<Order>) {
    forall i, j :: 0 <= i < j < |resting| ==> resting[i].id != resting[j].id
  }

  predicate Live(side: Side, o: Order) {
    o.side == side && o.qty > 0 && o.price >= 0
  }

  ghost predicate SideOk(side: Side, resting: seq<Order>) {
    && PrioritySorted(side, resting)
    && DistinctIds(resting)
    && forall i :: 0 <= i < |resting| ==> Live(side, resting[i])
  }

  /** Best bid below best ask whenever both sides are non-empty. */
  predicate Uncrossed(book: Book) {
    book.bids != [] && book.asks != [] ==> book.bids[0].price < book.asks[0].price
  }

  ghost predicate BookOk(book: Book) {
    && SideOk(Buy, book.bids)
    && SideOk(Sell, book.asks)
    && (forall id :: !(HasId(book.bids, id) && HasId(book.asks, id)))
    && Uncrossed(book)
  }

  lemma HasIdCons(resting: seq<Order>, id: OrderId)
    requires resting != []
    ensures HasId(resting, id) <==> resting[0].id == id || HasId(resting[1..], id)
  {
    if HasId(resting, id) && resting[0].id != id {
      var i :| 0 <= i < |resting| && resting[i].id == id;
      assert resting[1..][i - 1].id == id;
    }
  }

  // ---------------------------------------------------------------- the four updates keep a side well formed

  lemma {:induction false} InsertMembers(side: Side, resting: seq<Order>, o: Order)
    ensures var r := Insert(side, resting, o);
            && (r[0] == o || (resting != [] && r[0] == resting[0]))
            && (forall x :: x in r <==> x == o || x in resting)
            && (forall id :: HasId(r, id) <==> id == o.id || HasId(resting, id))
  {
    var r := Insert(side, resting, o);
    if resting == [] || Better(side, o.price, resting[0].price) {
      assert r[1..] == resting;
      forall id ensures HasId(r, id) <==> id == o.id || HasId(resting, id) { HasIdCons(r, id); }
    } else {
      InsertMembers(side, resting[1..], o);
      assert r[1..] == Insert(side, resting[1..], o);
      forall id ensures HasId(r, id) <==> id == o.id || HasId(resting, id) {
        HasIdCons(r, id);
        HasIdCons(resting, id);
      }
    }
  }

  lemma {:induction false} InsertOk(side: Side, resting: seq<Order>, o: Order)
    requires SideOk(side, resting) && Live(side, o) && !HasId(resting, o.id)
    ensures SideOk(side, Insert(side, resting, o))
  {
    var r := Insert(side, resting, o);
    if resting == [] || Better(side, o.price, resting[0].price) {
      assert forall i :: 0 < i < |r| ==> r[i] == resting[i - 1];
    } else {
      var tail := resting[1..];
      HasIdCons(resting, o.id);
      InsertOk(side, tail, o);
      InsertMembers(side, tail, o);
      var t := Insert(side, tail, o);
      forall i | 0 <= i < |t|
        ensures !Better(side, t[i].price, resting[0].price) && t[i].id != resting[0].id
      {
        assert t[i] in t;
      }
    }
  }

  lemma {:induction false} RemoveOk(side: Side, resting: seq<Order>, id: OrderId)
    requires SideOk(side, resting)
    ensures SideOk(side, RemoveId(resting, id))
    ensures forall k :: HasId(RemoveId(resting, id), k) <==> k != id && HasId(resting, k)
    ensures forall x :: x in RemoveId(resting, id) <==> x in resting && x.id != id
  {
    if resting == [] {
    } else {
      var tail := resting[1..];
      RemoveOk(side, tail, id);
      var r := RemoveId(resting, id);
      forall k ensures HasId(r, k) <==> k != id && HasId(resting, k) {
        HasIdCons(resting, k);
        if resting[0].id != id {
          assert r[1..] == RemoveId(tail, id);
          HasIdCons(r, k);
        } else {
          assert r == tail;
        }
      }
    }
  }

  lemma {:induction false} SetQtyShape(resting: seq<Order>, id: OrderId, qty: Qty)
    requires DistinctIds(resting)
    ensures |SetQty(resting, id, qty)| == |resting|
    ensures forall i :: 0 <= i < |resting| ==>
              SetQty(resting, id, qty)[i] == if resting[i].id == id then resting[i].(qty := qty) else resting[i]
  {
    if resting == [] {
    } else {
      SetQtyShape(resting[1..], id, qty);
    }
  }

  lemma SetQtyOk(side: Side, resting: seq<Order>, id: OrderId, qty: Qty)
    requires SideOk(side, resting) && qty > 0
    ensures SideOk(side, SetQty(resting, id, qty))
    ensures |SetQty(resting, id, qty)| == |resting|
    ensures forall i :: 0 <= i < |resting| ==>
              SetQty(resting, id, qty)[i] == if resting[i].id == id then resting[i].(qty := qty) else resting[i]
    ensures forall k :: HasId(SetQty(resting, id, qty), k) <==> HasId(resting, k)
  {
    hide SetQty;
    SetQtyShape(resting, id, qty);
    forall k | HasId(resting, k) ensures HasId(SetQty(resting, id, qty), k) {
      var i :| 0 <= i < |resting| && resting[i].id == k;
      assert SetQty(resting, id, qty)[i].id == k;
    }
  }

  lemma {:induction false} AbsentUntouched(resting: seq<Order>, id: OrderId, qty: Qty)
    requires !HasId(resting, id)
    ensures RemoveId(resting, id) == resting && SetQty(resting, id, qty) == resting
  {
    if resting == [] {
    } else {
      HasIdCons(resting, id);
      AbsentUntouched(resting[1..], id, qty);
    }
  }

  /** Cancelling or resizing the front order of one side touches nothing else. */
  lemma UpdateTop(book: Book, side: Side, qty: Qty)
    requires book.On(side) != [] && !HasId(book.On(Opposite(side)), book.On(side)[0].id)
    ensures var resting := book.On(side);
            && Cancel(book, resting[0].id) == book.With(side, resting[1..])
            && (qty > 0 ==> Modify(book, resting[0].id, qty)
                            == book.With(side, [resting[0].(qty := qty)] + resting[1..]))
  {
    AbsentUntouched(book.On(Opposite(side)), book.On(side)[0].id, qty);
  }

  // ---------------------------------------------------------------- price-time priority of one incoming order

  /** Quantity standing in front of position `k`. */
  function Ahead(resting: seq<Order>, k: nat): Qty
    requires k <= |resting|
  {
    if k == 0 then 0 else Ahead(resting, k - 1) + resting[k - 1].qty
  }

  lemma {:induction false} AheadOfTail(resting: seq<Order>, k: nat)
    requires 0 < k <= |resting|
    ensures Ahead(resting, k) == resting[0].qty + Ahead(resting[1..], k - 1)
  {
    if k == 1 {
    } else {
      AheadOfTail(resting, k - 1);
    }
  }

  lemma {:induction false} AheadNonNegative(side: Side, resting: seq<Order>, k: nat)
    requires k <= |resting| && SideOk(side, resting)
    ensures Ahead(resting, k) >= 0
  {
    if k == 0 {
    } else {
      AheadNonNegative(side, resting, k - 1);
    }
  }

  /** Closed form of the greedy sweep, stated on positions in the priority order:
      position `k` trades exactly when the limit reaches its price and the incoming
      quantity exceeds what stands ahead of it; it trades at its own price, for the
      smaller of its quantity and what the aggressor has left by then. */
  predicate GreedyAt(id: OrderId, side: Side, limit: Price, qty: Qty, resting: seq<Order>, fills: seq<Fill>, k: nat)
    requires k < |resting|
  {
    var o := resting[k];
    && (k < |fills| <==> Crosses(side, limit, o.price) && Ahead(resting, k) < qty)
    && (k < |fills| ==> fills[k] == Fill(id, o.id, o.price, Min(o.qty, qty - Ahead(resting, k))))
  }

  ghost predicate GreedyFills(id: OrderId, side: Side, limit: Price, qty: Qty, resting: seq<Order>, fills: seq<Fill>) {
    |fills| <= |resting| && forall k :: 0 <= k < |resting| ==> GreedyAt(id, side, limit, qty, resting, fills, k)
  }

  lemma GreedyInTop(id: OrderId, side: Side, limit: Price, qty: Qty, resting: seq<Order>)
    requires SideOk(Opposite(side), resting) && resting != [] && 0 < qty <= resting[0].qty
    requires Crosses(side, limit, resting[0].price)
    ensures GreedyFills(id, side, limit, qty, resting, [Fill(id, resting[0].id, resting[0].price, qty)])
  {
    forall k | 0 < k < |resting| ensures Ahead(resting, k) >= qty {
      AheadOfTail(resting, k);
      AheadNonNegative(Opposite(side), resting[1..], k - 1);
    }
  }

  lemma GreedyPastTop(id: OrderId, side: Side, limit: Price, qty: Qty, resting: seq<Order>, more: seq<Fill>)
    requires resting != [] && resting[0].qty < qty && 0 < resting[0].qty
    requires Crosses(side, limit, resting[0].price)
    requires GreedyFills(id, side, limit, qty - resting[0].qty, resting[1..], more)
    ensures GreedyFills(id, side, limit, qty, resting,
                        [Fill(id, resting[0].id, resting[0].price, resting[0].qty)] + more)
  {
    var tail := resting[1..];
    var fills := [Fill(id, resting[0].id, resting[0].price, resting[0].qty)] + more;
    forall k | 0 <= k < |resting| ensures GreedyAt(id, side, limit, qty, resting, fills, k) {
      if k > 0 {
        AheadOfTail(resting, k);
        assert GreedyAt(id, side, limit, qty - resting[0].qty, tail, more, k - 1);
        assert k < |fills| ==> fills[k] == more[k - 1];
      }
    }
  }

  lemma {:induction false} SweepIsGreedy(id: OrderId, side: Side, limit: Price, qty: Qty, resting: seq<Order>)
    requires SideOk(Opposite(side), resting) && qty > 0
    ensures GreedyFills(id, side, limit, qty, resting, Sweep(id, side, limit, qty, resting).fills)
    decreases |resting|
  {
    if resting == [] || !Crosses(side, limit, resting[0].price) {
    } else if qty <= resting[0].qty {
      GreedyInTop(id, side, limit, qty, resting);
      if qty == resting[0].qty {
        SweepStops(id, side, limit, 0, resting[1..]);
      }
      assert Sweep(id, side, limit, qty, resting).fills == [Fill(id, resting[0].id, resting[0].price, qty)];
    } else {
      var rest := qty - resting[0].qty;
      SweepIsGreedy(id, side, limit, rest, resting[1..]);
      GreedyPastTop(id, side, limit, qty, resting, Sweep(id, side, limit, rest, resting[1..]).fills);
    }
  }

  /** The closed form leaves no freedom: any other list of fills that meets it is the same list. */
  lemma GreedyFillsUnique(id: OrderId, side: Side, limit: Price, qty: Qty, resting: seq<Order>,
                          one: seq<Fill>, two: seq<Fill>)
    requires GreedyFills(id, side, limit, qty, resting, one)
    requires GreedyFills(id, side, limit, qty, resting, two)
    ensures one == two
  {
    if one != [] {
      var k := |one| - 1;
      assert GreedyAt(id, side, limit, qty, resting, one, k) && GreedyAt(id, side, limit, qty, resting, two, k);
    }
    if two != [] {
      var k := |two| - 1;
      assert GreedyAt(id, side, limit, qty, resting, one, k) && GreedyAt(id, side, limit, qty, resting, two, k);
    }
    assert |one| == |two|;
    forall k | 0 <= k < |one| ensures one[k] == two[k] {
      assert GreedyAt(id, side, limit, qty, resting, one, k) && GreedyAt(id, side, limit, qty, resting, two, k);
    }
  }

  /** The side after `traded` of its front order has been filled. */
  function AfterFill(resting: seq<Order>, traded: Qty): seq<Order>
    requires resting != []
  {
    var top := resting[0];
    if traded == top.qty then resting[1..] else [top.(qty := top.qty - traded)] + resting[1..]
  }

  /** One fill of the front order, then the rest of the sweep. */
  lemma SweepStep(id: OrderId, side: Side, limit: Price, qty: Qty, resting: seq<Order>)
    requires qty > 0 && resting != [] && resting[0].qty > 0 && Crosses(side, limit, resting[0].price)
    ensures var top := resting[0];
            var traded := Min(qty, top.qty);
            var more := Sweep(id, side, limit, qty - traded, AfterFill(resting, traded));
            Sweep(id, side, limit, qty, resting)
            == Swept([Fill(id, top.id, top.price, traded)] + more.fills, more.left, more.rest)
  {
  }

  lemma SweepStops(id: OrderId, side: Side, limit: Price, qty: Qty, resting: seq<Order>)
    requires qty <= 0 || resting == [] || !Crosses(side, limit, resting[0].price)
    ensures Sweep(id, side, limit, qty, resting) == Swept([], qty, resting)
  {
  }

  // ---------------------------------------------------------------- what a sweep leaves behind

  /** The sides after a sweep: still well formed, made of the same ids, and either the
      aggressor is exhausted or nothing left crosses its limit. */
  lemma {:induction false} SweepRestOk(id: OrderId, side: Side, limit: Price, qty: Qty, resting: seq<Order>)
    requires SideOk(Opposite(side), resting) && qty >= 0
    ensures var r := Sweep(id, side, limit, qty, resting);
            && SideOk(Opposite(side), r.rest)
            && 0 <= r.left <= qty
            && (r.left > 0 && r.rest != [] ==> !Crosses(side, limit, r.rest[0].price))
            && (forall k :: HasId(r.rest, k) ==> HasId(resting, k))
            && (r.rest != [] ==> resting != [] && !Better(Opposite(side), r.rest[0].price, resting[0].price))
    decreases |resting|
  {
    var r := Sweep(id, side, limit, qty, resting);
    if qty <= 0 || resting == [] || !Crosses(side, limit, resting[0].price) {
    } else if qty < resting[0].qty {
      assert forall i :: 0 <= i < |resting| ==> r.rest[i].id == resting[i].id && r.rest[i].price == resting[i].price;
      assert |r.rest| == |resting|;
    } else {
      SweepRestOk(id, side, limit, qty - resting[0].qty, resting[1..]);
      forall k | HasId(r.rest, k) ensures HasId(resting, k) {
        HasIdCons(resting, k);
      }
      if r.rest != [] {
        assert !Better(Opposite(side), resting[1].price, resting[0].price);
      }
    }
  }

  // ---------------------------------------------------------------- every event keeps the book well formed

  lemma RemoveKeepsTop(side: Side, resting: seq<Order>, id: OrderId)
    requires SideOk(side, resting)
    ensures RemoveId(resting, id) != [] ==>
              resting != [] && !Better(side, RemoveId(resting, id)[0].price, resting[0].price)
  {
  }

  lemma CancelOk(book: Book, id: OrderId)
    requires BookOk(book)
    ensures BookOk(Cancel(book, id))
    ensures forall k :: InBook(Cancel(book, id), k) <==> k != id && InBook(book, k)
  {
    RemoveOk(Buy, book.bids, id);
    RemoveOk(Sell, book.asks, id);
    RemoveKeepsTop(Buy, book.bids, id);
    RemoveKeepsTop(Sell, book.asks, id);
  }

  /** The book once an incoming order has been matched, before its remainder rests. */
  function AfterSweep(book: Book, ev: Event): Book
    requires ev.AddOrder?
  {
    var far := Opposite(ev.side);
    book.With(far, Sweep(ev.id, ev.side, ev.price, ev.qty, book.On(far)).rest)
  }

  function Remainder(book: Book, ev: Event): Order
    requires ev.AddOrder?
  {
    var left := Sweep(ev.id, ev.side, ev.price, ev.qty, book.On(Opposite(ev.side))).left;
    Order(ev.id, ev.side, ev.price, left)
  }

  /** Matching removes and reduces orders of one side only; nothing left crosses the remainder. */
  lemma AfterSweepOk(book: Book, ev: Event)
    requires BookOk(book) && ev.AddOrder? && EventOk(ev)
    ensures BookOk(AfterSweep(book, ev))
    ensures forall k :: InBook(AfterSweep(book, ev), k) ==> InBook(book, k)
    ensures 0 <= Remainder(book, ev).qty <= ev.qty
    ensures Remainder(book, ev).qty > 0 ==> NothingCrosses(AfterSweep(book, ev), Remainder(book, ev))
  {
    SweepRestOk(ev.id, ev.side, ev.price, ev.qty, book.On(Opposite(ev.side)));
  }

  /** No resting order of the other side is within the limit of `o`. */
  predicate NothingCrosses(book: Book, o: Order) {
    var far := book.On(Opposite(o.side));
    far != [] ==> !Crosses(o.side, o.price, far[0].price)
  }

  lemma RestOk(book: Book, o: Order)
    requires BookOk(book) && o.price >= 0 && (o.qty > 0 ==> NothingCrosses(book, o))
    ensures BookOk(Rest(book, o))
    ensures forall k :: InBook(Rest(book, o), k) ==> k == o.id || InBook(book, k)
  {
    if o.qty > 0 && !InBook(book, o.id) {
      InsertOk(o.side, book.On(o.side), o);
      InsertMembers(o.side, book.On(o.side), o);
    }
  }

  lemma StepOk(book: Book, ev: Event)
    requires BookOk(book) && EventOk(ev)
    ensures BookOk(Step(book, ev).book)
    ensures forall k :: InBook(Step(book, ev).book, k) ==> InBook(book, k) || (ev.AddOrder? && k == ev.id)
  {
    match ev
    case AddOrder(id, side, price, qty) =>
      AfterSweepOk(book, ev);
      RestOk(AfterSweep(book, ev), Remainder(book, ev));
    case CancelOrder(id) => CancelOk(book, id);
    case ModifyOrder(id, qty) =>
      if qty <= 0 {
        CancelOk(book, id);
      } else {
        SetQtyOk(Buy, book.bids, id, qty);
        SetQtyOk(Sell, book.asks, id, qty);
      }
  }

  lemma StreamPrefixOk(events: seq<Event>)
    requires StreamOk(events) && events != []
    ensures StreamOk(events[..|events| - 1]) && EventOk(events[|events| - 1])
  {
  }

  /** Safety over whole runs: every stream, ids reused or not, keeps the book sorted, free of
      duplicate and dead orders, and uncrossed. */
  lemma {:induction false} RunOk(book: Book, events: seq<Event>)
    requires BookOk(book) && StreamOk(events)
    ensures BookOk(Run(book, events).book)
  {
    if events == [] {
    } else {
      var n := |events| - 1;
      StreamPrefixOk(events);
      RunOk(book, events[..n]);
      StepOk(Run(book, events[..n]).book, events[n]);
    }
  }

  /** Only ids the stream added can rest. */
  lemma {:induction false} RunRestsAddedIds(events: seq<Event>, id: OrderId)
    requires StreamOk(events) && InBook(Run(EMPTY_BOOK, events).book, id)
    ensures id in AddedIds(events)
  {
    if events == [] {
    } else {
      var n := |events| - 1;
      StreamPrefixOk(events);
      RunOk(EMPTY_BOOK, events[..n]);
      StepOk(Run(EMPTY_BOOK, events[..n]).book, events[n]);
      if InBook(Run(EMPTY_BOOK, events[..n]).book, id) {
        RunRestsAddedIds(events[..n], id);
        var i :| 0 <= i < n && events[..n][i].AddOrder? && events[..n][i].id == id;
        assert events[i].id == id;
      } else {
        assert events[n].AddOrder? && events[n].id == id;
      }
    }
  }
}
