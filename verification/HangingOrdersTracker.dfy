/** The tracker object of hummingbot/strategy/hanging_orders_tracker.py: event
    handlers that overwrite its sets. */
module HangingOrdersTrackerModule {
  import opened Basics
  import opened HangingOrders

  class HangingOrdersTracker {
    var strategyCurrentHangingOrders: OrderSet
    var ordersBeingRenewed: OrderSet
    var ordersBeingCancelled: set<string>
    var currentCreatedPairsOfOrders: seq<PairOfOrders>
    var originalOrders: set<LimitOrder>
    var completedHangingOrders: OrderSet
    ghost const named: Catalog

    function View(): State
      reads this
    {
      State(strategyCurrentHangingOrders, ordersBeingRenewed, ordersBeingCancelled, currentCreatedPairsOfOrders,
            originalOrders, completedHangingOrders)
    }

    ghost predicate Valid()
      reads this
    {
      Named(named, View())
    }

    constructor (ghost named: Catalog)
      ensures this.named == named && View() == START && Valid()
    {
      this.named := named;
      strategyCurrentHangingOrders, ordersBeingRenewed, ordersBeingCancelled := map[], map[], {};
      currentCreatedPairsOfOrders, originalOrders, completedHangingOrders := [], {}, map[];
    }

    /** next((o for o in orders if o.order_id == id), None) */
    method FindOrder(orders: OrderSet, id: string) returns (found: Option<Key>)
      requires forall k :: k in orders ==> named(orders[k].id).key == k
      ensures found == Find(named, orders, id)
    {
      FindIsNext(named, orders, id);
      var rest := orders.Keys;
      while rest != {}
        invariant rest <= orders.Keys
        invariant forall k :: k in orders && k !in rest ==> orders[k].id != id
      {
        var k :| k in rest;
        if orders[k].id == id { return Some(k); }
        rest := rest - {k};
      }
      found := None;
    }

    method CancelMultipleOrders(ids: set<string>, strategy: Strategy)
      modifies `ordersBeingCancelled
      ensures View() == Cancel(old(View()), ids, strategy)
    {
      var rest := ids;
      while rest != {}
        invariant rest <= ids
        invariant ordersBeingCancelled == old(ordersBeingCancelled) + ((ids - rest) * ActiveIds(strategy.active))
      {
        var id :| id in rest;
        if exists o :: o in strategy.active && o.id == id { ordersBeingCancelled := ordersBeingCancelled + {id}; }
        rest := rest - {id};
      }
      assert ids - rest == ids;
    }

    /** Places the order for a renewed key: a positive amount only. */
    method ExecuteOrder(k: Key, strategy: Strategy, newId: string) returns (created: OrderSet)
      ensures created == if k.amount > 0.0 then map[k := HangingOrder(newId, k, strategy.now)] else map[]
    {
      created := map[];
      if k.amount > 0.0 { created := map[k := HangingOrder(newId, k, strategy.now)]; }
    }

    method ProcessCancelAsPartOfRenew(id: string, strategy: Strategy, newId: string) returns (raised: bool)
      requires Valid()
      modifies this
      ensures var r := RenewOnCancel(named, old(View()), id, strategy, newId);
        raised == r.None? && View() == if raised then old(View()) else r.value
    {
      var renewing := FindOrder(ordersBeingRenewed, id);
      if renewing.None? { return false; }
      var k := renewing.value;
      if k !in strategyCurrentHangingOrders { return true; }
      strategyCurrentHangingOrders := strategyCurrentHangingOrders - {k};
      ordersBeingRenewed := ordersBeingRenewed - {k};
      var executed := ExecuteOrder(k, strategy, newId);
      strategyCurrentHangingOrders := Union(strategyCurrentHangingOrders, executed);
      if k in executed {
        originalOrders := originalOrders + set o | o in strategy.active && o.id == newId;
      }
      raised := false;
    }

    /** A raise leaves everything as it was. */
    method DidCancelOrder(id: string, strategy: Strategy, newId: string) returns (raised: bool)
      requires Valid() && Legal(named, View(), CancelEvent(id, strategy, newId))
      modifies this
      ensures Valid()
      ensures var r := DidCancel(named, old(View()), id, strategy, newId);
        raised == r.None? && View() == if raised then old(View()) else r.value
    {
      CancelKeepsNames(named, View(), id, strategy, newId);
      hide RenewOnCancel;
      raised := ProcessCancelAsPartOfRenew(id, strategy, newId);
      if raised { return; }
      ordersBeingCancelled := ordersBeingCancelled - {id};
      var found := FindOrder(strategyCurrentHangingOrders, id);
      if found.Some? { strategyCurrentHangingOrders := strategyCurrentHangingOrders - {found.value}; }
      originalOrders := set o | o in originalOrders && o.id != id;
    }

    /** The loop over the pairs. */
    method MarkPairs(id: string, isBuy: bool)
      modifies `currentCreatedPairsOfOrders
      ensures |currentCreatedPairsOfOrders| == |old(currentCreatedPairsOfOrders)|
      ensures forall i :: 0 <= i < |currentCreatedPairsOfOrders| ==>
        currentCreatedPairsOfOrders[i] == MarkFilled(old(currentCreatedPairsOfOrders)[i], id, isBuy)
    {
      var pairs := currentCreatedPairsOfOrders;
      for i := 0 to |pairs|
        invariant |currentCreatedPairsOfOrders| == |pairs|
        invariant forall j :: 0 <= j < i ==> currentCreatedPairsOfOrders[j] == MarkFilled(pairs[j], id, isBuy)
        invariant forall j :: i <= j < |pairs| ==> currentCreatedPairsOfOrders[j] == pairs[j]
      {
        var p := pairs[i];
        if Contains(p, id) {
          p := p.(filledBuy := p.filledBuy || isBuy, filledSell := p.filledSell || !isBuy);
        }
        currentCreatedPairsOfOrders := currentCreatedPairsOfOrders[i := p];
      }
    }

    method DidCompleteOrder(id: string, isBuy: bool)
      requires Valid()
      modifies this
      ensures Valid() && View() == DidComplete(named, old(View()), id, isBuy)
    {
      CompleteKeeps(named, View(), id, isBuy, Ids(ordersBeingRenewed));
      var found := FindOrder(strategyCurrentHangingOrders, id);
      match found
      case Some(k) =>
        completedHangingOrders := Add(completedHangingOrders, strategyCurrentHangingOrders[k]);
        strategyCurrentHangingOrders := strategyCurrentHangingOrders - {k};
        originalOrders := set o | o in originalOrders && o.id != id;
      case None =>
        MarkPairs(id, isBuy);
    }

    method RenewHangingOrdersPastMaxOrderAge(strategy: Strategy)
      modifies `ordersBeingRenewed, `ordersBeingCancelled
      ensures View() == Renew(old(View()), strategy) && (old(Valid()) ==> Valid())
    {
      if Valid() { RenewKeeps(named, View(), strategy, Ids(ordersBeingRenewed)); }
      var toBeCancelled: OrderSet := map[];
      if strategy.maxAge.Some? && strategy.maxAge.value != 0.0 {
        var rest := strategyCurrentHangingOrders.Keys;
        while rest != {}
          invariant rest <= strategyCurrentHangingOrders.Keys
          invariant toBeCancelled == map k | k in TooOld(View(), strategy) && k !in rest :: strategyCurrentHangingOrders[k]
        {
          var k :| k in rest;
          if Age(strategyCurrentHangingOrders[k], strategy.now) > strategy.maxAge.value && k !in ordersBeingRenewed {
            toBeCancelled := toBeCancelled[k := strategyCurrentHangingOrders[k]];
          }
          rest := rest - {k};
        }
      }
      assert toBeCancelled == TooOld(View(), strategy);
      CancelMultipleOrders(Ids(toBeCancelled) - {""}, strategy);
      ordersBeingRenewed := Union(ordersBeingRenewed, toBeCancelled);
    }

    method RemoveOrdersFarFromPrice(strategy: Strategy) returns (raised: bool)
      modifies `ordersBeingCancelled
      ensures var r := RemoveFar(old(View()), strategy);
        raised == r.None? && View() == if raised then old(View()) else r.value
    {
      var ids: set<string> := {};
      var rest := originalOrders;
      while rest != {}
        invariant rest <= originalOrders
        invariant strategy.price == 0.0 ==> ids == {} && forall o :: o in originalOrders && o !in rest ==> o.id in ordersBeingCancelled
        invariant strategy.price != 0.0 ==> ids == FarIds(originalOrders - rest, ordersBeingCancelled, strategy)
      {
        var o :| o in rest;
        if o.id !in ordersBeingCancelled {
          if strategy.price == 0.0 { return true; }
          if IsFar(o, strategy) { ids := ids + {o.id}; }
        }
        rest := rest - {o};
      }
      assert originalOrders - rest == originalOrders;
      CancelMultipleOrders(ids, strategy);
      raised := false;
    }

    method ProcessTick(strategy: Strategy) returns (raised: bool)
      modifies `ordersBeingRenewed, `ordersBeingCancelled
      ensures var r := Tick(old(View()), strategy);
        raised == r.None? && View() == if raised then old(View()) else r.value
      ensures old(Valid()) ==> Valid()
    {
      raised := RemoveOrdersFarFromPrice(strategy);
      if !raised { RenewHangingOrdersPastMaxOrderAge(strategy); }
    }

    /** The unfilled halves of half-filled pairs become originals; the pairs go. */
    method AddHangingOrdersFromPairs(strategy: Strategy)
      modifies `originalOrders, `currentCreatedPairsOfOrders
      ensures View() == WithCandidates(old(View()), strategy)
    {
      var pairs := currentCreatedPairsOfOrders;
      for i := 0 to |pairs|
        invariant currentCreatedPairsOfOrders == pairs
        invariant originalOrders == old(originalOrders) + set p | p in pairs[..i] && Unfilled(p).Some? && Unfilled(p).value in strategy.active :: Unfilled(p).value
      {
        var unfilled := Unfilled(pairs[i]);
        assert pairs[..i + 1] == pairs[..i] + [pairs[i]];
        if unfilled.Some? && unfilled.value in strategy.active {
          originalOrders := originalOrders + {unfilled.value};
        }
      }
      assert pairs[..|pairs|] == pairs;
      currentCreatedPairsOfOrders := [];
    }

    /** The set of equivalent orders, an equal one keeping whichever came first. */
    method EquivalentOrders() returns (equivalent: OrderSet)
      ensures IsEquivalent(equivalent, originalOrders)
    {
      equivalent := map[];
      var rest := originalOrders;
      while rest != {}
        invariant rest <= originalOrders
        invariant IsEquivalent(equivalent, originalOrders - rest)
      {
        var o :| o in rest;
        ghost var seen := originalOrders - rest;
        equivalent := Add(equivalent, ToHanging(o));
        rest := rest - {o};
        OneMoreEquivalent(equivalent, seen, originalOrders - rest, o);
      }
      assert originalOrders - rest == originalOrders;
    }

    lemma OneMoreEquivalent(equivalent: OrderSet, seen: set<LimitOrder>, now: set<LimitOrder>, o: LimitOrder)
      requires now == seen + {o}
      requires exists before :: IsEquivalent(before, seen) && equivalent == Add(before, ToHanging(o))
      ensures IsEquivalent(equivalent, now)
    {
      var before :| IsEquivalent(before, seen) && equivalent == Add(before, ToHanging(o));
      forall k | k in equivalent ensures exists x :: x in now && x.key == k && equivalent[k] == ToHanging(x) {
        if k in before {
          var x :| x in seen && x.key == k && before[k] == ToHanging(x);
          assert x in now;
        }
      }
    }

    method UpdateStrategyOrders(strategy: Strategy) returns (ghost equivalent: OrderSet)
      modifies this
      ensures IsEquivalent(equivalent, WithCandidates(old(View()), strategy).originals)
      ensures View() == Update(old(View()), strategy, equivalent)
      ensures old(Valid()) && Listed(named, strategy.active) ==> Valid()
    {
      hide Update, Union, WithCandidates, Cancel;
      ghost var before := View();
      AddHangingOrdersFromPairs(strategy);
      var orders := EquivalentOrders();
      equivalent := orders;
      var toCreate := orders - strategyCurrentHangingOrders.Keys;
      var toCancel := strategyCurrentHangingOrders - orders.Keys;
      CancelMultipleOrders(Ids(toCancel), strategy);
      strategyCurrentHangingOrders := Union(strategyCurrentHangingOrders, toCreate);
      UpdateIs(before, strategy, orders);
      if Named(named, before) && Listed(named, strategy.active) {
        UpdateKeeps(named, before, strategy, orders, Ids(before.renewing));
      }
    }
  }
}
