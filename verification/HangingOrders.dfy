/** The hanging-order state machine of hummingbot/strategy/hanging_orders_tracker.py
    on values. Hanging orders are equal when pair, side, price and amount agree
    (data_types.py); a Python set of them is a map from that key to the one
    element kept, and adding an equal element keeps the old one. */
module HangingOrders {
  import opened Basics

  datatype Key = Key(tradingPair: string, isBuy: bool, price: real, amount: real)

  datatype HangingOrder = HangingOrder(id: string, key: Key, created: real)

  /** `created` is in microseconds. */
  datatype LimitOrder = LimitOrder(id: string, key: Key, created: int)

  datatype PairOfOrders = PairOfOrders(buy: Option<LimitOrder>, sell: Option<LimitOrder>, filledBuy: bool, filledSell: bool)

  type OrderSet = map<Key, HangingOrder>

  datatype State = State(
    current: OrderSet,               // strategy_current_hanging_orders
    renewing: OrderSet,              // orders_being_renewed
    cancelling: set<string>,         // orders_being_cancelled
    pairs: seq<PairOfOrders>,        // current_created_pairs_of_orders
    originals: set<LimitOrder>,      // original_orders
    completed: OrderSet)             // completed_hanging_orders

  /** What the strategy shows during one call. */
  datatype Strategy = Strategy(active: set<LimitOrder>, now: real, price: real, maxAge: Option<real>, cancelPct: real)

  /** Every order id names one order. */
  type Catalog = string -> LimitOrder

  // ---- sets under key equality ----------------------------------------------

  function Add(m: OrderSet, o: HangingOrder): OrderSet { if o.key in m then m else m[o.key := o] }

  /** Union keeps the left element of two equal ones. */
  function Union(m: OrderSet, n: OrderSet): OrderSet { n + m }

  /** `next(o for o in m if o.order_id == id)`, where ids name orders. */
  function Find(named: Catalog, m: OrderSet, id: string): Option<Key>
  {
    var k := named(id).key;
    if k in m && m[k].id == id then Some(k) else None
  }

  function ToHanging(o: LimitOrder): HangingOrder { HangingOrder(o.id, o.key, o.created as real * 0.000001) }

  function ActiveIds(active: set<LimitOrder>): set<string> { set o | o in active :: o.id }

  /** Cancel requests go out for active orders only and are remembered. */
  function Cancel(s: State, ids: set<string>, strategy: Strategy): State
  {
    s.(cancelling := s.cancelling + (ids * ActiveIds(strategy.active)))
  }

  // ---- handlers ---------------------------------------------------------------

  function RemoveOriginal(s: State, id: string): State
  {
    s.(originals := set o | o in s.originals && o.id != id)
  }

  /** _process_cancel_as_part_of_renew; `None` is the KeyError of its set removal. */
  function RenewOnCancel(named: Catalog, s: State, id: string, strategy: Strategy, newId: string): Option<State>
  {
    match Find(named, s.renewing, id)
    case None => Some(s)
    case Some(k) =>
      if k !in s.current then None
      else
        var created := if k.amount > 0.0 then map[k := HangingOrder(newId, k, strategy.now)] else map[];
        Some(s.(current := Union(s.current - {k}, created), renewing := s.renewing - {k},
                originals := if k.amount > 0.0 then s.originals + (set o | o in strategy.active && o.id == newId)
                             else s.originals))
  }

  /** _did_cancel_order */
  function DidCancel(named: Catalog, s: State, id: string, strategy: Strategy, newId: string): Option<State>
  {
    match RenewOnCancel(named, s, id, strategy, newId)
    case None => None
    case Some(s1) =>
      var s2 := s1.(cancelling := s1.cancelling - {id},
                    current := match Find(named, s1.current, id) case Some(k) => s1.current - {k} case None => s1.current);
      Some(RemoveOriginal(s2, id))
  }

  function Contains(p: PairOfOrders, id: string): bool
  {
    (p.buy.Some? && p.buy.value.id == id) || (p.sell.Some? && p.sell.value.id == id)
  }

  function MarkFilled(p: PairOfOrders, id: string, isBuy: bool): PairOfOrders
  {
    if Contains(p, id) then p.(filledBuy := p.filledBuy || isBuy, filledSell := p.filledSell || !isBuy) else p
  }

  /** _did_complete_order */
  function DidComplete(named: Catalog, s: State, id: string, isBuy: bool): State
  {
    match Find(named, s.current, id)
    case Some(k) =>
      RemoveOriginal(s.(completed := Add(s.completed, s.current[k]), current := s.current - {k}), id)
    case None =>
      s.(pairs := seq(|s.pairs|, i requires 0 <= i < |s.pairs| => MarkFilled(s.pairs[i], id, isBuy)))
  }

  function Age(o: HangingOrder, now: real): real { if o.created != 0.0 then now - o.created else -1.0 }

  /** The current orders that are too old and not being renewed yet. */
  function TooOld(s: State, strategy: Strategy): OrderSet
  {
    match strategy.maxAge
    case None => map[]
    case Some(max) =>
      if max == 0.0 then map[]
      else map k | k in s.current && Age(s.current[k], strategy.now) > max && k !in s.renewing :: s.current[k]
  }

  function Ids(m: OrderSet): set<string> { set k | k in m :: m[k].id }

  /** renew_hanging_orders_past_max_order_age */
  function Renew(s: State, strategy: Strategy): State
  {
    var aged := TooOld(s, strategy);
    Cancel(s, Ids(aged) - {""}, strategy).(renewing := Union(s.renewing, aged))
  }

  predicate IsFar(o: LimitOrder, strategy: Strategy)
    requires strategy.price != 0.0
  {
    Abs(o.key.price - strategy.price) / strategy.price > strategy.cancelPct
  }

  function FarIds(orders: set<LimitOrder>, cancelling: set<string>, strategy: Strategy): set<string>
    requires strategy.price != 0.0
  {
    set o | o in orders && o.id !in cancelling && IsFar(o, strategy) :: o.id
  }

  /** remove_orders_far_from_price; `None` is the division by a zero price, made
      for every original whose cancel has not been asked for. */
  function RemoveFar(s: State, strategy: Strategy): Option<State>
  {
    if strategy.price != 0.0 then
      Some(Cancel(s, FarIds(s.originals, s.cancelling, strategy), strategy))
    else if exists o :: o in s.originals && o.id !in s.cancelling then None
    else Some(s)
  }

  /** process_tick */
  function Tick(s: State, strategy: Strategy): Option<State>
  {
    match RemoveFar(s, strategy)
    case None => None
    case Some(s1) => Some(Renew(s1, strategy))
  }

  predicate PartiallyFilled(p: PairOfOrders) { p.filledBuy != p.filledSell }

  function Unfilled(p: PairOfOrders): Option<LimitOrder>
  {
    if !PartiallyFilled(p) then None else if !p.filledBuy then p.buy else p.sell
  }

  /** candidate_hanging_orders_from_pairs */
  function Candidates(s: State, strategy: Strategy): set<LimitOrder>
  {
    set p | p in s.pairs && Unfilled(p).Some? && Unfilled(p).value in strategy.active :: Unfilled(p).value
  }

  /** The equivalent orders: one hanging order per key among the originals. When
      several share a key the set keeps one of them. */
  ghost predicate IsEquivalent(equivalent: OrderSet, originals: set<LimitOrder>)
  {
    && (forall o :: o in originals ==> o.key in equivalent)
    && (forall k :: k in equivalent ==> exists o :: o in originals && o.key == k && equivalent[k] == ToHanging(o))
  }

  function WithCandidates(s: State, strategy: Strategy): State
  {
    s.(originals := s.originals + Candidates(s, strategy), pairs := [])
  }

  /** update_strategy_orders_with_equivalent_orders */
  function Update(s: State, strategy: Strategy, equivalent: OrderSet): State
  {
    var s1 := WithCandidates(s, strategy);
    Cancel(s1, Ids(s1.current - equivalent.Keys), strategy).(current := Union(s1.current, equivalent))
  }

  // ---- runs ------------------------------------------------------------------

  datatype Op =
    | AddOrder(o: LimitOrder)
    | AddAsHanging(o: LimitOrder)
    | RemoveOrder(o: LimitOrder)
    | RemoveSide(isBuy: bool)
    | AddPair(p: PairOfOrders)
    | CancelEvent(id: string, strategy: Strategy, newId: string)
    | CompleteEvent(id: string, isBuy: bool)
    | TickEvent(strategy: Strategy)
    | UpdateEvent(strategy: Strategy, equivalent: OrderSet)

  function Step(named: Catalog, s: State, op: Op): Option<State>
  {
    match op
    case AddOrder(o) => Some(s.(originals := s.originals + {o}))
    case AddAsHanging(o) => Some(s.(current := Add(s.current, ToHanging(o)), originals := s.originals + {o}))
    case RemoveOrder(o) => Some(s.(originals := s.originals - {o}))
    case RemoveSide(isBuy) => Some(s.(originals := set o | o in s.originals && o.key.isBuy != isBuy))
    case AddPair(p) => Some(s.(pairs := s.pairs + [p]))
    case CancelEvent(id, strategy, newId) => DidCancel(named, s, id, strategy, newId)
    case CompleteEvent(id, isBuy) => Some(DidComplete(named, s, id, isBuy))
    case TickEvent(strategy) => Tick(s, strategy)
    case UpdateEvent(strategy, equivalent) => Some(Update(s, strategy, equivalent))
  }

  ghost predicate Listed(named: Catalog, orders: set<LimitOrder>) { forall o :: o in orders ==> named(o.id) == o }

  function OrdersOf(p: PairOfOrders): set<LimitOrder>
  {
    (if p.buy.Some? then {p.buy.value} else {}) + (if p.sell.Some? then {p.sell.value} else {})
  }

  /** The state holds orders under their own keys and names. */
  ghost predicate Named(named: Catalog, s: State)
  {
    && (forall k :: k in s.current ==> s.current[k].key == k && named(s.current[k].id).key == k)
    && (forall k :: k in s.renewing ==> s.renewing[k].key == k && named(s.renewing[k].id).key == k)
    && Listed(named, s.originals)
    && (forall i :: 0 <= i < |s.pairs| ==> Listed(named, OrdersOf(s.pairs[i])))
  }

  /** What the environment owes: ids name orders, a new order gets the key it was
      placed with and an id not in use, and the equivalent set is a choice. */
  ghost predicate Legal(named: Catalog, s: State, op: Op)
  {
    match op
    case AddOrder(o) => named(o.id) == o
    case AddAsHanging(o) => named(o.id) == o
    case RemoveOrder(_) => true
    case RemoveSide(_) => true
    case AddPair(p) => Listed(named, OrdersOf(p))
    case CancelEvent(id, strategy, newId) =>
      && Listed(named, strategy.active) && newId != id
      && (Find(named, s.renewing, id).Some? ==> named(newId).key == Find(named, s.renewing, id).value)
    case CompleteEvent(_, _) => true
    case TickEvent(_) => true
    case UpdateEvent(strategy, equivalent) =>
      Listed(named, strategy.active) && IsEquivalent(equivalent, WithCandidates(s, strategy).originals)
  }

  /** An order being renewed and not completed is itself in the current set. */
  ghost predicate RenewingIsCurrent(s: State, done: set<string>)
  {
    forall k :: k in s.renewing ==> s.renewing[k].id in done || (k in s.current && s.current[k] == s.renewing[k])
  }

  const START := State(map[], map[], {}, [], {}, map[])

  /** A run: nothing is asked of the order in which events arrive. */
  ghost predicate LegalRun(named: Catalog, ops: seq<Op>)
  {
    ops == [] ||
      (var front, op := ops[..|ops| - 1], ops[|ops| - 1];
       LegalRun(named, front) && Legal(named, Exec(named, front), op))
  }

  /** The ids for which a completion has been reported. */
  ghost function Done(ops: seq<Op>): set<string>
  {
    set i | 0 <= i < |ops| && ops[i].CompleteEvent? :: ops[i].id
  }

  /** A handler that raises does so before it has changed anything. */
  function After(named: Catalog, s: State, op: Op): State
  {
    match Step(named, s, op)
    case None => s
    case Some(s') => s'
  }

  ghost function Exec(named: Catalog, ops: seq<Op>): State
  {
    if ops == [] then START else After(named, Exec(named, ops[..|ops| - 1]), ops[|ops| - 1])
  }

  lemma ExecSnoc(named: Catalog, front: seq<Op>, op: Op)
    ensures Exec(named, front + [op]) == After(named, Exec(named, front), op)
  {
    hide Step;
    assert (front + [op])[..|front|] == front;
  }

  lemma FindIsNext(named: Catalog, m: OrderSet, id: string)
    requires forall k :: k in m ==> named(m[k].id).key == k
    ensures Find(named, m, id).Some? <==> exists k :: k in m && m[k].id == id
    ensures forall k :: k in m && m[k].id == id ==> Find(named, m, id) == Some(k)
  {
  }

  /** The handler's set removal raises exactly when the order it finds being
      renewed has left the current set. */
  lemma CancelRaisesIff(named: Catalog, s: State, id: string, strategy: Strategy, newId: string)
    ensures DidCancel(named, s, id, strategy, newId) == None <==>
      var k := named(id).key; k in s.renewing && s.renewing[k].id == id && k !in s.current
  {
  }

  lemma StepKeeps(named: Catalog, s: State, op: Op, done: set<string>)
    requires Named(named, s) && RenewingIsCurrent(s, done) && Legal(named, s, op)
    ensures var s' := After(named, s, op);
      Named(named, s') && RenewingIsCurrent(s', if op.CompleteEvent? then done + {op.id} else done)
  {
    hide DidCancel, DidComplete, Tick, Update, WithCandidates, Find;
    match op
    case CancelEvent(id, strategy, newId) => CancelKeeps(named, s, id, strategy, newId, done);
    case CompleteEvent(id, isBuy) => CompleteKeeps(named, s, id, isBuy, done);
    case TickEvent(strategy) => TickKeeps(named, s, strategy, done);
    case UpdateEvent(strategy, equivalent) => UpdateKeeps(named, s, strategy, equivalent, done);
    case _ =>
  }

  lemma TickKeeps(named: Catalog, s: State, strategy: Strategy, done: set<string>)
    requires Named(named, s) && RenewingIsCurrent(s, done)
    ensures var r := Tick(s, strategy); r.Some? ==> Named(named, r.value) && RenewingIsCurrent(r.value, done)
  {
    hide IsFar, Renew, FarIds;
    var r := RemoveFar(s, strategy);
    if r.Some? {
      assert r.value == s.(cancelling := r.value.cancelling);
      RenewKeeps(named, r.value, strategy, done);
    }
  }

  lemma RenewKeeps(named: Catalog, s: State, strategy: Strategy, done: set<string>)
    requires Named(named, s) && RenewingIsCurrent(s, done)
    ensures Named(named, Renew(s, strategy)) && RenewingIsCurrent(Renew(s, strategy), done)
  {
    hide Age;
  }

  /** A cancel event, of a completed order too, keeps the invariant unless it
      raises, and it raises only for a completed order. */
  lemma CancelKeeps(named: Catalog, s: State, id: string, strategy: Strategy, newId: string, done: set<string>)
    requires Named(named, s) && RenewingIsCurrent(s, done) && Legal(named, s, CancelEvent(id, strategy, newId))
    ensures var r := DidCancel(named, s, id, strategy, newId);
      if r.None? then id in done else Named(named, r.value) && RenewingIsCurrent(r.value, done)
  {
  }

  /** Whatever was completed before, a cancel event keeps the names straight. */
  lemma CancelKeepsNames(named: Catalog, s: State, id: string, strategy: Strategy, newId: string)
    requires Named(named, s) && Legal(named, s, CancelEvent(id, strategy, newId))
    ensures var r := RenewOnCancel(named, s, id, strategy, newId); r.Some? ==> Named(named, r.value)
    ensures var r := DidCancel(named, s, id, strategy, newId); r.Some? ==> Named(named, r.value)
  {
  }

  lemma CompleteKeeps(named: Catalog, s: State, id: string, isBuy: bool, done: set<string>)
    requires Named(named, s) && RenewingIsCurrent(s, done)
    ensures var s' := DidComplete(named, s, id, isBuy); Named(named, s') && RenewingIsCurrent(s', done + {id})
  {
  }

  /** Only the equivalents without an equal current order are created. */
  lemma UpdateIs(s: State, strategy: Strategy, equivalent: OrderSet)
    ensures var s1 := WithCandidates(s, strategy);
      s1.current == s.current
      && Update(s, strategy, equivalent) == Cancel(s1, Ids(s.current - equivalent.Keys), strategy)
                                              .(current := Union(s.current, equivalent - s.current.Keys))
  {
    assert Union(s.current, equivalent - s.current.Keys) == Union(s.current, equivalent);
  }

  lemma CandidatesNamed(named: Catalog, s: State, strategy: Strategy)
    requires Named(named, s) && Listed(named, strategy.active)
    ensures var s1 := WithCandidates(s, strategy);
      Named(named, s1) && s1.current == s.current && s1.renewing == s.renewing
  {
    assert Listed(named, Candidates(s, strategy));
  }

  lemma UpdateFields(s: State, strategy: Strategy, equivalent: OrderSet)
    ensures var s1, s' := WithCandidates(s, strategy), Update(s, strategy, equivalent);
      && s'.current == Union(s1.current, equivalent) && s'.renewing == s1.renewing
      && s'.originals == s1.originals && s'.pairs == s1.pairs
  {
  }

  lemma UpdateKeeps(named: Catalog, s: State, strategy: Strategy, equivalent: OrderSet, done: set<string>)
    requires Named(named, s) && RenewingIsCurrent(s, done) && Legal(named, s, UpdateEvent(strategy, equivalent))
    ensures var s' := Update(s, strategy, equivalent); Named(named, s') && RenewingIsCurrent(s', done)
  {
    hide Update, WithCandidates, IsEquivalent, Listed, OrdersOf, Union;
    UpdateFields(s, strategy, equivalent);
    CandidatesNamed(named, s, strategy);
    EquivalentNamed(named, equivalent, WithCandidates(s, strategy).originals);
    UnionHas(s.current, equivalent);
  }

  lemma UnionHas(m: OrderSet, n: OrderSet)
    ensures forall k :: k in Union(m, n) <==> k in m || k in n
    ensures forall k :: k in Union(m, n) ==> Union(m, n)[k] == if k in m then m[k] else n[k]
  {
  }

  lemma EquivalentNamed(named: Catalog, equivalent: OrderSet, originals: set<LimitOrder>)
    requires IsEquivalent(equivalent, originals) && Listed(named, originals)
    ensures forall k :: k in equivalent ==> equivalent[k].key == k && named(equivalent[k].id).key == k
  {
    forall k | k in equivalent ensures equivalent[k].key == k && named(equivalent[k].id).key == k {
      var o :| o in originals && o.key == k && equivalent[k] == ToHanging(o);
    }
  }

  /** After every run an order being renewed and not yet completed is itself in
      the current set, whatever was cancelled or raised before. */
  lemma {:induction false} RenewingStaysCurrent(named: Catalog, ops: seq<Op>)
    requires LegalRun(named, ops)
    ensures Named(named, Exec(named, ops)) && RenewingIsCurrent(Exec(named, ops), Done(ops))
  {
    hide Step, After, Named, RenewingIsCurrent, Legal, Done;
    if ops == [] {
      StartKeeps(named);
    } else {
      var front, op := ops[..|ops| - 1], ops[|ops| - 1];
      RenewingStaysCurrent(named, front);
      StepKeeps(named, Exec(named, front), op, Done(front));
      DoneSnoc(front, op);
      assert ops == front + [op];
    }
  }

  lemma StartKeeps(named: Catalog)
    ensures Named(named, START) && RenewingIsCurrent(START, Done([]))
  {
  }

  /** After every run the cancel handler raises exactly for an order that is being
      renewed, has been reported complete, and whose key has left the current
      set. */
  lemma CancelRaisesOnlyAfterComplete(named: Catalog, ops: seq<Op>, id: string, strategy: Strategy, newId: string)
    requires LegalRun(named, ops) && Legal(named, Exec(named, ops), CancelEvent(id, strategy, newId))
    ensures var s := Exec(named, ops);
      DidCancel(named, s, id, strategy, newId) == None <==>
        exists k :: k in s.renewing && s.renewing[k].id == id && id in Done(ops) && k !in s.current
  {
    RenewingStaysCurrent(named, ops);
    hide Exec, LegalRun, Done;
    var s := Exec(named, ops);
    CancelRaisesIff(named, s, id, strategy, newId);
    if k :| k in s.renewing && s.renewing[k].id == id && k !in s.current { assert named(id).key == k; }
  }

  lemma DoneSnoc(front: seq<Op>, op: Op)
    ensures Done(front + [op]) == if op.CompleteEvent? then Done(front) + {op.id} else Done(front)
  {
    var ops := front + [op];
    forall id ensures id in Done(ops) <==> id in (if op.CompleteEvent? then Done(front) + {op.id} else Done(front)) {
      if id in Done(front) {
        var i :| 0 <= i < |front| && front[i].CompleteEvent? && front[i].id == id;
        assert ops[i] == front[i];
      }
      if id in Done(ops) {
        var i :| 0 <= i < |ops| && ops[i].CompleteEvent? && ops[i].id == id;
        assert i < |front| ==> front[i] == ops[i];
      }
      if op.CompleteEvent? && op.id == id { assert ops[|front|] == op; }
    }
  }

  /** After every run the cancel event of an order being renewed either raises,
      when the order was completed and its key is gone, or replaces the element
      of its key: the same key, a new id and time, every other element as it was.
      The key is lost exactly when the amount is not positive. */
  lemma RenewalReplacesId(named: Catalog, ops: seq<Op>, k: Key, strategy: Strategy, newId: string)
    requires LegalRun(named, ops) && k in Exec(named, ops).renewing
    requires Legal(named, Exec(named, ops), CancelEvent(Exec(named, ops).renewing[k].id, strategy, newId))
    ensures var s := Exec(named, ops);
      var id := s.renewing[k].id;
      var r := DidCancel(named, s, id, strategy, newId);
      && (r.None? <==> id in Done(ops) && k !in s.current)
      && (id !in Done(ops) ==> k in s.current && s.current[k] == s.renewing[k])
      && (r.Some? ==> IsRenewed(s, r.value, k, HangingOrder(newId, k, strategy.now)))
  {
    RenewingStaysCurrent(named, ops);
    hide Exec, LegalRun;
    Replaced(named, Exec(named, ops), k, strategy, newId);
  }

  /** From s to s' the element at k is renewed by `renewed`, or lost without amount. */
  predicate IsRenewed(s: State, s': State, k: Key, renewed: HangingOrder)
  {
    && s'.renewing == s.renewing - {k}
    && s'.current == (if k.amount > 0.0 then s.current[k := renewed] else s.current - {k})
    && (s'.current.Keys == s.current.Keys <==> k.amount > 0.0)
  }

  lemma Replaced(named: Catalog, s: State, k: Key, strategy: Strategy, newId: string)
    requires Named(named, s) && k in s.renewing && Legal(named, s, CancelEvent(s.renewing[k].id, strategy, newId))
    ensures var r := DidCancel(named, s, s.renewing[k].id, strategy, newId);
      && (r.None? <==> k !in s.current)
      && (r.Some? ==> IsRenewed(s, r.value, k, HangingOrder(newId, k, strategy.now)))
  {
    var id := s.renewing[k].id;
    assert Find(named, s.renewing, id) == Some(k);
    if k in s.current {
      var s1 := RenewOnCancel(named, s, id, strategy, newId).value;
      assert IsRenewed(s, s1, k, HangingOrder(newId, k, strategy.now));
      assert Find(named, s1.current, id) == None;
      hide RenewOnCancel, Find, Legal, Named;
      assert DidCancel(named, s, id, strategy, newId).value.current == s1.current;
    }
  }

  // ---- one event at a time ---------------------------------------------------

  ghost predicate HasId(m: OrderSet, id: string) { exists k :: k in m && m[k].id == id }

  /** A cancel event of an order that is not being renewed takes the hanging orders
      and the originals of that id away, and the request with them; nothing else
      changes. */
  lemma PlainCancel(named: Catalog, s: State, id: string, strategy: Strategy, newId: string)
    requires Named(named, s) && !HasId(s.renewing, id)
    ensures var r := DidCancel(named, s, id, strategy, newId);
      && r.Some?
      && (forall k :: k in r.value.current <==> k in s.current && s.current[k].id != id)
      && (forall k :: k in r.value.current ==> r.value.current[k] == s.current[k])
      && (forall o :: o in r.value.originals <==> o in s.originals && o.id != id)
      && (forall i :: i in r.value.cancelling <==> i in s.cancelling && i != id)
      && r.value.renewing == s.renewing && r.value.pairs == s.pairs && r.value.completed == s.completed
  {
    FindIsNext(named, s.renewing, id);
    FindIsNext(named, s.current, id);
    hide Find, Named;
  }

  /** A cancel event of an order being renewed makes the order placed for it an
      original, if it is active, in place of the old one. */
  lemma RenewalOriginals(named: Catalog, s: State, k: Key, strategy: Strategy, newId: string)
    requires Named(named, s) && k in s.renewing && k in s.current
    requires Legal(named, s, CancelEvent(s.renewing[k].id, strategy, newId))
    ensures var id := s.renewing[k].id;
      var s' := DidCancel(named, s, id, strategy, newId).value;
      && (forall o :: o in s'.originals <==>
           (o in s.originals && o.id != id) || (k.amount > 0.0 && o in strategy.active && o.id == newId))
      && (forall i :: i in s'.cancelling <==> i in s.cancelling && i != id)
      && s'.pairs == s.pairs && s'.completed == s.completed
  {
    var id := s.renewing[k].id;
    assert Find(named, s.renewing, id) == Some(k);
    Replaced(named, s, k, strategy, newId);
  }

  /** The completion of a hanging order moves it to the completed ones, unless an
      equal one is there, and takes its original away; that of any other order
      marks the pairs it belongs to. */
  lemma CompleteMoves(named: Catalog, s: State, id: string, isBuy: bool)
    requires Named(named, s)
    ensures var s' := DidComplete(named, s, id, isBuy);
      && (forall k :: k in s'.current <==> k in s.current && s.current[k].id != id)
      && (forall k :: k in s'.current ==> s'.current[k] == s.current[k])
      && (forall k :: k in s'.completed <==> k in s.completed || (k in s.current && s.current[k].id == id))
      && (forall k :: k in s'.completed ==> s'.completed[k] == if k in s.completed then s.completed[k] else s.current[k])
      && (forall o :: o in s'.originals <==> o in s.originals && (HasId(s.current, id) ==> o.id != id))
      && |s'.pairs| == |s.pairs|
      && (forall i :: 0 <= i < |s.pairs| ==>
           s'.pairs[i] == if HasId(s.current, id) then s.pairs[i] else MarkFilled(s.pairs[i], id, isBuy))
  {
    FindIsNext(named, s.current, id);
    hide Find, MarkFilled, Named;
  }

  /** An order created at a known time is renewed once the greatest age has passed;
      without such a time its age counts as -1. */
  ghost predicate PastAge(o: HangingOrder, strategy: Strategy)
  {
    strategy.maxAge.Some? && strategy.maxAge.value != 0.0
    && if o.created == 0.0 then strategy.maxAge.value < -1.0 else strategy.now > o.created + strategy.maxAge.value
  }

  /** An active order with this id is past its age and not being renewed yet. */
  ghost predicate AsksFor(s: State, strategy: Strategy, id: string)
  {
    && id != "" && id in ActiveIds(strategy.active)
    && exists k :: k in s.current && k !in s.renewing && PastAge(s.current[k], strategy) && s.current[k].id == id
  }

  /** Exactly which orders a tick starts to renew, and which cancels it asks for
      on that account. */
  lemma RenewalStarts(s: State, strategy: Strategy)
    ensures var s' := Renew(s, strategy);
      && (forall k :: k in s'.renewing <==> k in s.renewing || (k in s.current && PastAge(s.current[k], strategy)))
      && (forall k :: k in s'.renewing ==> s'.renewing[k] == if k in s.renewing then s.renewing[k] else s.current[k])
      && (forall id :: id in s'.cancelling <==> id in s.cancelling || AsksFor(s, strategy, id))
      && s'.current == s.current && s'.originals == s.originals && s'.pairs == s.pairs && s'.completed == s.completed
  {
    var aged := TooOld(s, strategy);
    forall k ensures k in aged <==> k in s.current && k !in s.renewing && PastAge(s.current[k], strategy) { }
    forall id ensures id in Ids(aged) <==>
        exists k :: k in s.current && k !in s.renewing && PastAge(s.current[k], strategy) && s.current[k].id == id
    {
      if k :| k in s.current && k !in s.renewing && PastAge(s.current[k], strategy) && s.current[k].id == id {
        assert k in aged && aged[k].id == id;
      }
      if id in Ids(aged) {
        var k :| k in aged && aged[k].id == id;
        assert k in s.current && k !in s.renewing && PastAge(s.current[k], strategy) && s.current[k].id == id;
      }
    }
    hide TooOld, PastAge;
  }

  /** A tick asks for the renewal of an order once: what it starts to renew is
      not picked again while the renewal lasts. */
  lemma RenewedOnce(s: State, strategy: Strategy, later: Strategy)
    ensures TooOld(s, strategy).Keys !! TooOld(Renew(s, strategy), later).Keys
    ensures Renew(s, strategy).renewing.Keys == s.renewing.Keys + TooOld(s, strategy).Keys
    ensures Renew(s, strategy).current == s.current
  {
  }

  /** An active current order with this id that no original order equals. */
  ghost predicate Unwanted(s: State, originals: set<LimitOrder>, active: set<LimitOrder>, id: string)
  {
    && id in ActiveIds(active)
    && exists k :: k in s.current && s.current[k].id == id && forall x :: x in originals ==> x.key != k
  }

  /** At a positive price a tick has asked for the cancel of every active original
      that is further from it than the allowed part of the price, and has asked
      for no other cancel but those of orders too old. */
  lemma TickCancelsFar(s: State, strategy: Strategy, o: LimitOrder, id: string)
    requires strategy.price > 0.0
    ensures Tick(s, strategy).Some?
    ensures var s' := Tick(s, strategy).value;
      && (o in s.originals && o in strategy.active && Abs(o.key.price - strategy.price) > strategy.cancelPct * strategy.price ==>
            o.id in s'.cancelling)
      && (id in s'.cancelling && id !in s.cancelling ==>
            || (exists k :: k in s.current && k !in s.renewing && s.current[k].id == id)
            || exists p :: p in s.originals && p.id == id && Abs(p.key.price - strategy.price) > strategy.cancelPct * strategy.price)
  {
    var s1, s' := RemoveFar(s, strategy).value, Tick(s, strategy).value;
    forall p: LimitOrder ensures IsFar(p, strategy) <==> Abs(p.key.price - strategy.price) > strategy.cancelPct * strategy.price {
      QuotientAbove(Abs(p.key.price - strategy.price), strategy.price, strategy.cancelPct);
    }
    hide IsFar;
    assert s.cancelling <= s1.cancelling <= s'.cancelling;
    if id in s'.cancelling && id !in s1.cancelling {
      assert id in Ids(TooOld(s1, strategy));
    }
  }

  lemma QuotientAbove(a: real, b: real, c: real)
    requires b > 0.0
    ensures a / b > c <==> a > c * b
  {
    var q := a / b;
    var d := q - c;
    assert a == q * b;
    assert d * b == a - c * b;
    if d > 0.0 { assert d * b > 0.0; } else { assert d * b <= 0.0; }
  }

  // ---- pairs over runs -------------------------------------------------------

  /** Among the events `after` a run, one reported `o` complete while `o` was not a
      hanging order. */
  ghost predicate Counted(named: Catalog, run: seq<Op>, after: seq<Op>, o: LimitOrder)
  {
    exists j :: 0 <= j < |after| && after[j].CompleteEvent? && after[j].id == o.id
      && Find(named, Exec(named, run + after[..j]).current, o.id) == None
  }

  lemma CountedSnoc(named: Catalog, run: seq<Op>, front: seq<Op>, op: Op, o: LimitOrder)
    ensures Counted(named, run, front + [op], o) <==>
      Counted(named, run, front, o)
      || (op.CompleteEvent? && op.id == o.id && Find(named, Exec(named, run + front).current, o.id) == None)
  {
    hide Exec, Find;
    var after := front + [op];
    assert after[..|front|] == front && after[|front|] == op;
    forall j | 0 <= j < |front| ensures after[..j] == front[..j] && after[j] == front[j] { }
    if Counted(named, run, front, o) {
      var j :| 0 <= j < |front| && front[j].CompleteEvent? && front[j].id == o.id
        && Find(named, Exec(named, run + front[..j]).current, o.id) == None;
      assert after[j].CompleteEvent? && Find(named, Exec(named, run + after[..j]).current, o.id) == None;
    }
  }

  /** Every event reports an order of the pair on its own side. */
  predicate Sided(p: PairOfOrders, op: Op)
  {
    op.CompleteEvent? ==>
      (p.buy.Some? && p.buy.value.id == op.id ==> op.isBuy) && (p.sell.Some? && p.sell.value.id == op.id ==> !op.isBuy)
  }

  /** One event other than an update leaves a pair in its place, marked if it
      reports one of its orders and that order is not hanging. */
  lemma PairStep(named: Catalog, s: State, op: Op, i: nat)
    requires i < |s.pairs| && !op.UpdateEvent?
    ensures var s' := After(named, s, op);
      i < |s'.pairs| && s'.pairs[i] == if op.CompleteEvent? && Find(named, s.current, op.id) == None
                                       then MarkFilled(s.pairs[i], op.id, op.isBuy) else s.pairs[i]
  {
  }

  /** From the moment a run holds a pair, through any further events but an update
      (which clears the pairs), its candidate is its other half exactly when one
      half has been reported complete outside the hanging orders and the other
      has not. */
  lemma {:induction false} UnfilledIsOtherHalf(named: Catalog, run: seq<Op>, after: seq<Op>, i: nat, p: PairOfOrders)
    requires i < |Exec(named, run).pairs| && Exec(named, run).pairs[i] == p
    requires p.buy.Some? && p.sell.Some? && p.buy.value.id != p.sell.value.id && !p.filledBuy && !p.filledSell
    requires forall op :: op in after ==> !op.UpdateEvent? && Sided(p, op)
    ensures var s := Exec(named, run + after);
      var bought, sold := Counted(named, run, after, p.buy.value), Counted(named, run, after, p.sell.value);
      && i < |s.pairs| && s.pairs[i] == p.(filledBuy := bought, filledSell := sold)
      && Unfilled(s.pairs[i]) == if bought && !sold then p.sell else if sold && !bought then p.buy else None
  {
    if after == [] {
      assert run + after == run;
    } else {
      hide Exec, Counted, Find, After;
      var front, op := after[..|after| - 1], after[|after| - 1];
      UnfilledIsOtherHalf(named, run, front, i, p);
      assert after == front + [op] && run + after == run + front + [op] && op in after;
      ExecSnoc(named, run + front, op);
      CountedSnoc(named, run, front, op, p.buy.value);
      CountedSnoc(named, run, front, op, p.sell.value);
      PairStep(named, Exec(named, run + front), op, i);
    }
  }

  /** After an update every original order has its hanging order, nothing hanging
      is dropped before its cancel is confirmed, and the cancel requests are those
      for active current orders that no original order equals. */
  lemma UpdateCovers(named: Catalog, s: State, strategy: Strategy, equivalent: OrderSet)
    requires Named(named, s) && Legal(named, s, UpdateEvent(strategy, equivalent))
    ensures var s' := Update(s, strategy, equivalent);
      && (forall k :: k in s'.current <==> k in s.current || exists o :: o in s'.originals && o.key == k)
      && (forall k :: k in s.current ==> s'.current[k] == s.current[k])
      && s'.cancelling == s.cancelling + set id | id in ActiveIds(strategy.active) && Unwanted(s, s'.originals, strategy.active, id)
  {
    var s' := Update(s, strategy, equivalent);
    forall id | id in ActiveIds(strategy.active)
      ensures id in Ids(s.current - equivalent.Keys) <==> Unwanted(s, s'.originals, strategy.active, id)
    {
      if id in Ids(s.current - equivalent.Keys) {
        var k :| k in s.current - equivalent.Keys && s.current[k].id == id;
        assert forall x :: x in s'.originals ==> x.key != k;
      }
      if Unwanted(s, s'.originals, strategy.active, id) {
        var k :| k in s.current && s.current[k].id == id && forall x :: x in s'.originals ==> x.key != k;
        assert k !in equivalent && k in s.current - equivalent.Keys && (s.current - equivalent.Keys)[k].id == id;
      }
    }
  }

  /** The half of a pair whose other half alone is marked. */
  predicate HalfLeft(p: PairOfOrders, o: LimitOrder)
  {
    (p.filledBuy && !p.filledSell && p.sell == Some(o)) || (p.filledSell && !p.filledBuy && p.buy == Some(o))
  }

  /** An update makes the active unfilled half of every half-filled pair an
      original, adds no other, and forgets the pairs. */
  lemma UpdateOriginals(s: State, strategy: Strategy, equivalent: OrderSet)
    ensures var s' := Update(s, strategy, equivalent);
      && (forall o :: o in s'.originals <==>
           o in s.originals || (o in strategy.active && exists p :: p in s.pairs && HalfLeft(p, o)))
      && s'.pairs == [] && s'.renewing == s.renewing && s'.completed == s.completed
  {
    forall o ensures o in Candidates(s, strategy) <==> o in strategy.active && exists p :: p in s.pairs && HalfLeft(p, o) {
      forall p ensures HalfLeft(p, o) <==> Unfilled(p) == Some(o) { }
    }
  }

  /** What an update adds to the current set is some original of that key, with
      its id and its creation time in seconds. */
  lemma UpdateAdds(named: Catalog, s: State, strategy: Strategy, equivalent: OrderSet, k: Key)
    requires Named(named, s) && Legal(named, s, UpdateEvent(strategy, equivalent))
    requires k in Update(s, strategy, equivalent).current && k !in s.current
    ensures var s' := Update(s, strategy, equivalent);
      exists o :: o in s'.originals && o.key == k && s'.current[k].key == k && s'.current[k].id == o.id
        && s'.current[k].created * 1000000.0 == o.created as real
  {
    var s' := Update(s, strategy, equivalent);
    assert k in equivalent && s'.current[k] == equivalent[k];
    var o :| o in s'.originals && o.key == k && equivalent[k] == ToHanging(o);
    assert s'.current[k].created * 1000000.0 == o.created as real;
  }

  /** Over runs: when one half of a pair has completed outside the hanging orders
      and the other is active, the next update gives the other a hanging order. */
  lemma HalfBecomesHanging(named: Catalog, run: seq<Op>, after: seq<Op>, i: nat, p: PairOfOrders, o: LimitOrder,
                           strategy: Strategy, equivalent: OrderSet)
    requires i < |Exec(named, run).pairs| && Exec(named, run).pairs[i] == p
    requires p.buy.Some? && p.sell.Some? && p.buy.value.id != p.sell.value.id && !p.filledBuy && !p.filledSell
    requires forall op :: op in after ==> !op.UpdateEvent? && Sided(p, op)
    requires Counted(named, run, after, p.buy.value) != Counted(named, run, after, p.sell.value)
    requires o == if Counted(named, run, after, p.buy.value) then p.sell.value else p.buy.value
    requires o in strategy.active && LegalRun(named, run + after)
    requires Legal(named, Exec(named, run + after), UpdateEvent(strategy, equivalent))
    ensures var s := Exec(named, run + after + [UpdateEvent(strategy, equivalent)]);
      o in s.originals && o.key in s.current
  {
    hide Exec, LegalRun, Counted, Sided, Update, WithCandidates;
    var s := Exec(named, run + after);
    UnfilledIsOtherHalf(named, run, after, i, p);
    assert s.pairs[i] in s.pairs && HalfLeft(s.pairs[i], o);
    UpdateOriginals(s, strategy, equivalent);
    RenewingStaysCurrent(named, run + after);
    UpdateCovers(named, s, strategy, equivalent);
    ExecSnoc(named, run + after, UpdateEvent(strategy, equivalent));
  }

  /** It does happen: an order that completes while it is being renewed, and whose
      cancel is confirmed afterwards, makes the handler raise. */
  lemma CancelAfterCompleteRaises(named: Catalog, o: LimitOrder, strategy: Strategy, newId: string)
    requires strategy.price != 0.0 && named(o.id) == o
    requires strategy.maxAge.Some? && strategy.maxAge.value > 0.0 && o.created != 0
    requires Age(ToHanging(o), strategy.now) > strategy.maxAge.value
    ensures var s := Exec(named, [AddAsHanging(o), TickEvent(strategy), CompleteEvent(o.id, o.key.isBuy)]);
      DidCancel(named, s, o.id, strategy, newId) == None
  {
    var a, b, c := AddAsHanging(o), TickEvent(strategy), CompleteEvent(o.id, o.key.isBuy);
    var s1 := After(named, START, a);
    var s2 := After(named, s1, b);
    var s3 := After(named, s2, c);
    assert o.key in s2.renewing && s2.renewing[o.key].id == o.id;
    assert o.key !in s3.current;
    CancelRaisesIff(named, s3, o.id, strategy, newId);
    hide After, DidCancel;
    ExecSnoc(named, [], a);
    ExecSnoc(named, [a], b);
    ExecSnoc(named, [a, b], c);
    assert [] + [a] == [a] && [a] + [b] == [a, b] && [a, b] + [c] == [a, b, c];
  }
}
