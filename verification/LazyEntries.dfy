/** What a run does to the queues: fronts are popped, ids of resting orders go to the back.
    Streams that add each id once therefore keep one entry per id. */
module LazyEntries {
  import opened Basics
  import opened OrderTypes
  import opened ReferenceBook
  import opened OrderBook
  import opened LazyEngine
  import opened LazyRefinement
  import opened LazyTheorems

  // ---------------------------------------------------------------- queues only lose fronts and gain backs

  lemma FillFrontSuffix(st: Lazy, side: Side, price: Price, traded: Qty, s: Side, p: Price) returns (j: nat)
    requires st.Entries(side, price) != [] && st.Entries(side, price)[0] in st.orders
    ensures j <= |st.Entries(s, p)| && FillFront(st, side, price, traded).Entries(s, p) == st.Entries(s, p)[j..]
  {
    var o := st.orders[st.Entries(side, price)[0]];
    j := 0;
    if traded == o.qty {
      EntriesWith(Drop(st, o.id), side, price, st.Entries(side, price)[1..], s, p);
      if s == side && p == price {
        j := 1;
      }
    }
  }

  /** Matching only pops fronts. */
  lemma {:induction false} MatchSuffix(st: Lazy, id: OrderId, side: Side, limit: Price, qty: Qty, s: Side, p: Price)
    returns (j: nat)
    requires LazyOk(st)
    ensures j <= |st.Entries(s, p)|
    ensures LazyMatch(st, id, side, limit, qty).state.Entries(s, p) == st.Entries(s, p)[j..]
    decreases if qty > 0 then qty else 0, |st.Entries(Opposite(side), BestOf(st.orders, Opposite(side)))|
  {
    hide FillFront, IsBestPrice, Queued, LevelsOk;
    var far := Opposite(side);
    var best := BestOf(st.orders, far);
    j := 0;
    if qty > 0 && best != NO_PRICE && Crosses(side, limit, best) {
      BestHasFront(st, far);
      var front := st.Entries(far, best)[0];
      if front !in st.orders {
        PopDeadOk(st, far, best);
        EntriesWith(st, far, best, st.Entries(far, best)[1..], far, best);
        EntriesWith(st, far, best, st.Entries(far, best)[1..], s, p);
        var popped := if s == far && p == best then 1 else 0;
        j := MatchSuffix(PopFront(st, far, best), id, side, limit, qty, s, p);
        j := j + popped;
      } else {
        var traded := Min(qty, st.orders[front].qty);
        FillFrontOk(st, far, best, traded);
        var i := FillFrontSuffix(st, far, best, traded, s, p);
        j := MatchSuffix(FillFront(st, far, best, traded), id, side, limit, qty - traded, s, p);
        j := j + i;
      }
    }
  }

  /** After an event each queue is a suffix of what it was, with the id of an add at the back
      of its own level if the add rested. */
  lemma StepEntries(st: Lazy, ev: Event, s: Side, p: Price) returns (j: nat, pushed: bool)
    requires LazyOk(st) && EventOk(ev)
    ensures j <= |st.Entries(s, p)|
    ensures pushed ==> ev.AddOrder? && s == ev.side && p == ev.price
    ensures LazyStep(st, ev).state.Entries(s, p) == st.Entries(s, p)[j..] + if pushed then [ev.id] else []
  {
    j, pushed := 0, false;
    if ev.AddOrder? {
      var m := LazyMatch(st, ev.id, ev.side, ev.price, ev.qty);
      j := MatchSuffix(st, ev.id, ev.side, ev.price, ev.qty, s, p);
      var o := Order(ev.id, ev.side, ev.price, m.left);
      if o.qty > 0 && o.id !in m.state.orders {
        pushed := s == ev.side && p == ev.price;
        EntriesWith(m.state.(orders := m.state.orders[o.id := o]), o.side, o.price,
                    m.state.Entries(o.side, o.price) + [o.id], s, p);
      }
    }
  }

  // ---------------------------------------------------------------- fresh ids

  /** A stream that adds each id once, and only ids that no queue mentions. */
  ghost predicate FreshStream(st: Lazy, events: seq<Event>) {
    StreamOk(events) && DistinctAdds(events) && forall k :: k in AddedIds(events) ==> NoEntry(st, k)
  }

  lemma FreshPrefix(st: Lazy, events: seq<Event>)
    requires FreshStream(st, events) && events != []
    ensures var n := |events| - 1;
            && FreshStream(st, events[..n])
            && AddedIds(events) == AddedIds(events[..n]) + (if events[n].AddOrder? then {events[n].id} else {})
            && (events[n].AddOrder? ==> events[n].id !in AddedIds(events[..n]) && NoEntry(st, events[n].id))
  {
    var n := |events| - 1;
    var init := events[..n];
    assert forall i :: 0 <= i < n ==> init[i] == events[i];
    forall k | k in AddedIds(init) ensures k in AddedIds(events) {
      var i :| 0 <= i < n && init[i].AddOrder? && init[i].id == k;
      assert events[i].id == k;
    }
    forall k | k in AddedIds(events) ensures k in AddedIds(init) || (events[n].AddOrder? && k == events[n].id) {
      var i :| 0 <= i <= n && events[i].AddOrder? && events[i].id == k;
      if i < n {
        assert init[i].id == k;
      }
    }
    if events[n].AddOrder? {
      assert events[n].id in AddedIds(events);
    }
  }

  /** Queues mention only what they mentioned before and what the stream added. */
  lemma {:induction false} RunEntries(st: Lazy, events: seq<Event>, k: OrderId)
    requires LazyOk(st) && FreshStream(st, events) && NoEntry(st, k) && k !in AddedIds(events)
    ensures NoEntry(LazyRun(st, events).state, k)
  {
    if events == [] {
    } else {
      hide LazyStep, LazyOk;
      var n := |events| - 1;
      FreshPrefix(st, events);
      RunEntries(st, events[..n], k);
      var before := LazyRun(st, events[..n]).state;
      forall s, p ensures k !in LazyStep(before, events[n]).state.Entries(s, p) {
        var j, pushed := StepEntries(before, events[n], s, p);
      }
    }
  }

  lemma CleanWhenFresh(st: Lazy, ev: Event)
    requires LazyOk(st) && EventOk(ev) && ev.AddOrder? && NoEntry(st, ev.id)
    ensures CleanAdd(st, ev)
  {
    var m := LazyMatch(st, ev.id, ev.side, ev.price, ev.qty);
    forall s, p ensures ev.id !in m.state.Entries(s, p) {
      var j := MatchSuffix(st, ev.id, ev.side, ev.price, ev.qty, s, p);
    }
    NoEntryIsClean(m.state, Order(ev.id, ev.side, ev.price, m.left));
  }

  /** Fresh ids always rest cleanly. */
  lemma {:induction false} FreshIsClean(st: Lazy, events: seq<Event>)
    requires LazyOk(st) && FreshStream(st, events)
    ensures CleanRun(st, events)
  {
    if events == [] {
    } else {
      hide LazyStep, LazyOk, CleanAdd;
      var n := |events| - 1;
      FreshPrefix(st, events);
      FreshIsClean(st, events[..n]);
      if events[n].AddOrder? {
        RunEntries(st, events[..n], events[n].id);
        CleanWhenFresh(LazyRun(st, events[..n]).state, events[n]);
      }
    }
  }

  /** Where no queue mentions anything, only distinctness is asked. */
  lemma FreshFromEmpty(events: seq<Event>)
    requires StreamOk(events) && DistinctAdds(events)
    ensures LazyOk(EMPTY_ENGINE) && FreshStream(EMPTY_ENGINE, events)
  {
  }

  // ---------------------------------------------------------------- one entry per id

  /** No id has two entries, in whatever queues. */
  ghost predicate OneEntry(st: Lazy) {
    forall s, p, i, t, q, j ::
      0 <= i < |st.Entries(s, p)| && 0 <= j < |st.Entries(t, q)| && st.Entries(s, p)[i] == st.Entries(t, q)[j]
      ==> s == t && p == q && i == j
  }

  lemma StepOneEntry(st: Lazy, ev: Event)
    requires LazyOk(st) && EventOk(ev) && OneEntry(st) && (ev.AddOrder? ==> NoEntry(st, ev.id))
    ensures OneEntry(LazyStep(st, ev).state)
  {
    hide LazyOk, LazyStep;
    var after := LazyStep(st, ev).state;
    forall s, p, i, t, q, j
      | 0 <= i < |after.Entries(s, p)| && 0 <= j < |after.Entries(t, q)|
        && after.Entries(s, p)[i] == after.Entries(t, q)[j]
      ensures s == t && p == q && i == j
    {
      var a, pushedS := StepEntries(st, ev, s, p);
      var b, pushedT := StepEntries(st, ev, t, q);
      var one, two := st.Entries(s, p), st.Entries(t, q);
      assert i < |one| - a ==> after.Entries(s, p)[i] == one[a + i];
      assert j < |two| - b ==> after.Entries(t, q)[j] == two[b + j];
      assert i >= |one| - a ==> pushedS && after.Entries(s, p)[i] == ev.id;
      assert j >= |two| - b ==> pushedT && after.Entries(t, q)[j] == ev.id;
      assert ev.AddOrder? ==> ev.id !in one && ev.id !in two;
    }
  }

  /** Over a stream that adds each id once, every id has at most one entry, and every live
      order has its entry in the queue of its own level. */
  lemma {:induction false} RunOneEntry(events: seq<Event>)
    requires StreamOk(events) && DistinctAdds(events)
    ensures LazyOk(EMPTY_ENGINE)
    ensures var st := LazyRun(EMPTY_ENGINE, events).state;
            OneEntry(st) && forall id :: id in st.orders ==> id in st.Entries(st.orders[id].side, st.orders[id].price)
  {
    if events == [] {
    } else {
      var n := |events| - 1;
      FreshFromEmpty(events);
      hide LazyStep, LazyOk, OneEntry;
      FreshPrefix(EMPTY_ENGINE, events);
      RunOneEntry(events[..n]);
      if events[n].AddOrder? {
        RunEntries(EMPTY_ENGINE, events[..n], events[n].id);
      }
      StepOneEntry(LazyRun(EMPTY_ENGINE, events[..n]).state, events[n]);
      QueuedWhenOk(LazyRun(EMPTY_ENGINE, events).state);
    }
  }

  lemma QueuedWhenOk(st: Lazy)
    requires LazyOk(st)
    ensures forall id :: id in st.orders ==> id in st.Entries(st.orders[id].side, st.orders[id].price)
  {
  }
}
