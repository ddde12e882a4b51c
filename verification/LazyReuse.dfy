/** A run on which the lazy engine and the eager one part. */
module LazyReuse {
  import opened Basics
  import opened OrderTypes
  import opened ReferenceBook
  import opened OrderBook
  import opened LazyEngine
  import opened LazyRefinement
  import opened LazyTheorems
  import opened LazyExactness

  const FIRST := Order(1, Sell, 100, 5)
  const SECOND := Order(2, Sell, 100, 5)
  const ADD_FIRST := AddOrder(1, Sell, 100, 5)
  const ADD_SECOND := AddOrder(2, Sell, 100, 5)
  const BUY_ONE := AddOrder(3, Buy, 100, 1)

  /** Sell 1 rests at 100 and is cancelled, sell 2 rests at 100, and id 1 rests there again. */
  const REUSE: seq<Event> := [ADD_FIRST, CancelOrder(1), ADD_SECOND, ADD_FIRST]

  // the lazy engine's state after each of the four events
  const ONE := Lazy(map[1 := FIRST], map[], map[100 := [1]])
  const NONE := Lazy(map[], map[], map[100 := [1]])
  const TWO := Lazy(map[2 := SECOND], map[], map[100 := [1, 2]])
  const REUSED := Lazy(map[2 := SECOND, 1 := FIRST], map[], map[100 := [1, 2, 1]])

  lemma AddToEmptySide(st: Lazy, o: Order, after: Lazy)
    requires LazyOk(st) && o.qty > 0 && o.price >= 0 && o.id !in st.orders
    requires forall id :: id in st.orders ==> st.orders[id].side == o.side
    requires after == st.(orders := st.orders[o.id := o])
                        .WithEntries(o.side, o.price, st.Entries(o.side, o.price) + [o.id])
    ensures LazyStep(st, AddOrder(o.id, o.side, o.price, o.qty)) == LazyOutcome(after, [])
    ensures LazyOk(after)
  {
    assert IsBestPrice(st.orders, Opposite(o.side), NO_PRICE);
    BestUnique(st.orders, Opposite(o.side), NO_PRICE, BestOf(st.orders, Opposite(o.side)));
  }

  lemma LazySteps()
    ensures LazyOk(EMPTY_ENGINE) && LazyStep(EMPTY_ENGINE, ADD_FIRST) == LazyOutcome(ONE, [])
    ensures LazyOk(ONE) && LazyStep(ONE, CancelOrder(1)) == LazyOutcome(NONE, [])
    ensures LazyOk(NONE) && LazyStep(NONE, ADD_SECOND) == LazyOutcome(TWO, [])
    ensures LazyOk(TWO) && LazyStep(TWO, ADD_FIRST) == LazyOutcome(REUSED, [])
  {
    assert LazyOk(EMPTY_ENGINE);
    hide LazyMatch, LazyRest, LazyOk;
    assert [1] == [] + [1] && [1, 2] == [1] + [2] && [1, 2, 1] == [1, 2] + [1];
    assert ONE.orders - {1} == map[];
    AddToEmptySide(EMPTY_ENGINE, FIRST, ONE);
    assert LazyStep(ONE, CancelOrder(1)) == LazyOutcome(NONE, []);
    AddToEmptySide(NONE, SECOND, TWO);
    AddToEmptySide(TWO, FIRST, REUSED);
  }

  lemma ReuseLazy()
    ensures LazyOk(EMPTY_ENGINE) && StreamOk(REUSE)
    ensures LazyRun(EMPTY_ENGINE, REUSE) == LazyOutcome(REUSED, [])
  {
    LazySteps();
    hide LazyOk, LazyStep;
    assert LazyRun(EMPTY_ENGINE, []) == LazyOutcome(EMPTY_ENGINE, []);
    hide LazyRun;
    assert LazyRun(EMPTY_ENGINE, REUSE[..1]) == LazyOutcome(ONE, []) by {
      LazySnoc(EMPTY_ENGINE, [], EMPTY_ENGINE, ADD_FIRST, ONE);
      assert REUSE[..1] == [] + [ADD_FIRST];
    }
    assert LazyRun(EMPTY_ENGINE, REUSE[..2]) == LazyOutcome(NONE, []) by {
      LazySnoc(EMPTY_ENGINE, REUSE[..1], ONE, CancelOrder(1), NONE);
      assert REUSE[..2] == REUSE[..1] + [CancelOrder(1)];
    }
    assert LazyRun(EMPTY_ENGINE, REUSE[..3]) == LazyOutcome(TWO, []) by {
      LazySnoc(EMPTY_ENGINE, REUSE[..2], NONE, ADD_SECOND, TWO);
      assert REUSE[..3] == REUSE[..2] + [ADD_SECOND];
    }
    LazySnoc(EMPTY_ENGINE, REUSE[..3], TWO, ADD_FIRST, REUSED);
    assert REUSE == REUSE[..3] + [ADD_FIRST];
  }

  lemma EagerSteps()
    ensures Step(EMPTY_BOOK, ADD_FIRST) == Outcome(Book([], [FIRST]), [])
    ensures Step(EMPTY_BOOK, ADD_SECOND) == Outcome(Book([], [SECOND]), [])
    ensures Step(Book([], [FIRST]), CancelOrder(1)) == Outcome(EMPTY_BOOK, [])
    ensures Step(Book([], [SECOND]), ADD_FIRST) == Outcome(Book([], [SECOND, FIRST]), [])
    ensures Step(Book([], [SECOND, FIRST]), BUY_ONE).fills == [Fill(3, 2, 100, 1)]
  {
    assert Insert(Sell, [SECOND], FIRST) == [SECOND] + Insert(Sell, [], FIRST);
    assert !InBook(Book([], [SECOND]), 1);
  }

  lemma ReuseEager()
    ensures Run(EMPTY_BOOK, REUSE) == Outcome(Book([], [SECOND, FIRST]), [])
  {
    EagerSteps();
    hide Step;
    assert Run(EMPTY_BOOK, REUSE[..1]) == Outcome(Book([], [FIRST]), []) by {
      EagerSnoc(EMPTY_BOOK, [], EMPTY_BOOK, ADD_FIRST, Book([], [FIRST]));
      assert REUSE[..1] == [] + [ADD_FIRST];
    }
    hide Run;
    assert Run(EMPTY_BOOK, REUSE[..2]) == Outcome(EMPTY_BOOK, []) by {
      EagerSnoc(EMPTY_BOOK, REUSE[..1], Book([], [FIRST]), CancelOrder(1), EMPTY_BOOK);
      assert REUSE[..2] == REUSE[..1] + [CancelOrder(1)];
    }
    assert Run(EMPTY_BOOK, REUSE[..3]) == Outcome(Book([], [SECOND]), []) by {
      EagerSnoc(EMPTY_BOOK, REUSE[..2], EMPTY_BOOK, ADD_SECOND, Book([], [SECOND]));
      assert REUSE[..3] == REUSE[..2] + [ADD_SECOND];
    }
    EagerSnoc(EMPTY_BOOK, REUSE[..3], Book([], [SECOND]), ADD_FIRST, Book([], [SECOND, FIRST]));
    assert REUSE == REUSE[..3] + [ADD_FIRST];
  }

  lemma BuyOneLazy()
    requires LazyOk(REUSED)
    ensures LazyStep(REUSED, BUY_ONE).fills == [Fill(3, 1, 100, 1)]
  {
    assert RestsAt(REUSED.orders, 1, Sell, 100);
    assert IsBestPrice(REUSED.orders, Sell, 100);
    BestUnique(REUSED.orders, Sell, 100, BestOf(REUSED.orders, Sell));
    assert REUSED.Entries(Sell, 100)[0] == 1;
    FillFrontOk(REUSED, Sell, 100, 1);
    var after := FillFront(REUSED, Sell, 100, 1);
    assert LazyMatch(after, 3, Buy, 100, 0).fills == [];
  }

  /** The entry left by the first life of id 1 stands ahead of sell 2, so the buy trades with 1
      although 2 arrived before it. */
  lemma ReusedIdJumpsTheQueue()
    ensures LazyOk(EMPTY_ENGINE) && StreamOk(REUSE + [BUY_ONE])
    ensures LazyRun(EMPTY_ENGINE, REUSE + [BUY_ONE]).fills == [Fill(3, 1, 100, 1)]
    ensures Run(EMPTY_BOOK, REUSE + [BUY_ONE]).fills == [Fill(3, 2, 100, 1)]
  {
    ReuseLazy();
    ReuseEager();
    hide LazyRun, LazyStep, LazyOk, Step;
    BuyOneLazy();
    EagerSteps();
    LazyRunSnoc(EMPTY_ENGINE, REUSE, BUY_ONE);
    assert [] + [Fill(3, 1, 100, 1)] == [Fill(3, 1, 100, 1)];
    assert (REUSE + [BUY_ONE])[..4] == REUSE;
  }
}
