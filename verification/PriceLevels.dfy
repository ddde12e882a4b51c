/** `PriceLevelBook`: aggregate quantity per price, one ordered map per side. */
module PriceLevels {
  import opened Basics
  import opened OrderTypes

  /** `top` is the price an ordered map of `levels` keeps at begin() for this side. */
  ghost predicate IsTop(side: Side, levels: map<Price, Qty>, top: Price) {
    top in levels && forall p :: p in levels ==> !Better(side, p, top)
  }

  lemma AnyOf<T>(s: set<T>) returns (x: T)
    requires s != {}
    ensures x in s
  {
    x :| x in s;
  }

  lemma {:induction false} TopOfSet(side: Side, prices: set<Price>) returns (top: Price)
    requires prices != {}
    ensures top in prices && forall p :: p in prices ==> !Better(side, p, top)
    decreases |prices|
  {
    top := AnyOf(prices);
    var rest := prices - {top};
    assert forall p :: p in prices ==> p == top || p in rest;
    if rest == {} {
    } else {
      var other := TopOfSet(side, rest);
      if Better(side, other, top) {
        top := other;
      }
    }
  }

  lemma TopExists(side: Side, levels: map<Price, Qty>)
    requires levels != map[]
    ensures exists top :: IsTop(side, levels, top)
  {
    var top := TopOfSet(side, levels.Keys);
    assert IsTop(side, levels, top);
  }

  /** begin()->first of the side's map, or -1 when the map is empty. */
  function TopPrice(side: Side, levels: map<Price, Qty>): (top: Price)
    ensures levels == map[] ==> top == NO_PRICE
    ensures levels != map[] ==> IsTop(side, levels, top)
  {
    if levels == map[] then NO_PRICE
    else
      TopExists(side, levels);
      var top :| top in levels && forall p :: p in levels ==> !Better(side, p, top);
      top
  }

  function LevelQty(levels: map<Price, Qty>, price: Price): Qty {
    if price in levels then levels[price] else 0
  }

  class PriceLevelBook {
    var bids: map<Price, Qty>
    var asks: map<Price, Qty>

    constructor ()
      ensures bids == map[] && asks == map[]
    {
      bids, asks := map[], map[];
    }

    function Levels(side: Side): map<Price, Qty>
      reads this
    {
      if side == Buy then bids else asks
    }

    /** Sets the quantity at (side, price); quantity 0 removes the level. */
    method Update(side: Side, price: Price, qty: Qty)
      modifies this
      ensures Levels(side) == if qty == 0 then old(Levels(side)) - {price} else old(Levels(side))[price := qty]
      ensures Levels(Opposite(side)) == old(Levels(Opposite(side)))
      ensures forall s, p :: LevelQty(Levels(s), p)
                             == if s == side && p == price then qty else LevelQty(old(Levels(s)), p)
    {
      if side == Buy {
        bids := if qty == 0 then bids - {price} else bids[price := qty];
      } else {
        asks := if qty == 0 then asks - {price} else asks[price := qty];
      }
    }

    function BestBid(): (p: Price)
      reads this
      ensures bids == map[] ==> p == NO_PRICE
      ensures bids != map[] ==> p in bids && forall q :: q in bids ==> q <= p
    {
      TopPrice(Buy, bids)
    }

    function BestAsk(): (p: Price)
      reads this
      ensures asks == map[] ==> p == NO_PRICE
      ensures asks != map[] ==> p in asks && forall q :: q in asks ==> p <= q
    {
      TopPrice(Sell, asks)
    }

    function QtyAt(side: Side, price: Price): Qty
      reads this
    {
      LevelQty(Levels(side), price)
    }

    /** best_ask - best_bid, or -1 when either side is empty. */
    function Spread(): (s: Price)
      reads this
      ensures bids == map[] || asks == map[] ==> s == -1
      ensures bids != map[] && asks != map[] ==>
                (forall b, a :: b in bids && a in asks ==> s <= a - b)
                && (exists b, a :: b in bids && a in asks && s == a - b)
    {
      if bids == map[] || asks == map[] then -1
      else
        assert BestBid() in bids && BestAsk() in asks;
        BestAsk() - BestBid()
    }
  }
}
