/** The metrics object of hummingbot/client/performance.py: loops that accumulate
    into fields, a pairing loop that empties two lists, and an aggregation that
    overwrites the first fill of every order. */
module PerformanceMetricsModule {
  import opened Basics
  import opened Performance

  datatype Outcome = Pass | IndexError

  class TradeFill {
    const id: string
    const side: Side
    const position: Position
    const stored: bool
    var price: real
    var amount: real

    constructor (id: string, side: Side, position: Position, stored: bool, price: real, amount: real)
      ensures View() == Fill(id, side, position, stored, price, amount)
    {
      this.id, this.side, this.position, this.stored := id, side, position, stored;
      this.price, this.amount := price, amount;
    }

    function View(): Fill
      reads this
    {
      Fill(id, side, position, stored, price, amount)
    }
  }

  function Views(fills: seq<TradeFill>): (views: seq<Fill>)
    reads fills
    ensures |views| == |fills| && forall i :: 0 <= i < |fills| ==> views[i] == fills[i].View()
  {
    seq(|fills|, i requires 0 <= i < |fills| reads fills => fills[i].View())
  }

  // ---- position_order and the pairing loop ----------------------------------

  class OrderList {
    var items: seq<TradeFill>

    constructor (items: seq<TradeFill>)
      ensures this.items == items
    {
      this.items := items;
    }
  }

  /** The objects in one position, in list order. */
  function At(orders: seq<TradeFill>, p: Position): (r: seq<TradeFill>)
    ensures forall x :: x in r ==> x in orders && x.position == p
  {
    if orders == [] then []
    else (if orders[0].position == p then [orders[0]] else []) + At(orders[1..], p)
  }

  /** The list without its first `opens` open orders and first `closes` close
      orders, everything else in place. */
  function Unpaired(orders: seq<TradeFill>, opens: nat, closes: nat): seq<TradeFill>
  {
    if orders == [] then []
    else if orders[0].position == OPEN && opens > 0 then Unpaired(orders[1..], opens - 1, closes)
    else if orders[0].position == CLOSE && closes > 0 then Unpaired(orders[1..], opens, closes - 1)
    else [orders[0]] + Unpaired(orders[1..], opens, closes)
  }

  /** The index of the first order in position `p`, or the length. */
  function FirstAt(orders: seq<TradeFill>, p: Position): (k: nat)
    ensures k <= |orders|
    ensures k < |orders| ==> orders[k].position == p
    ensures forall j :: 0 <= j < k ==> orders[j].position != p
  {
    if orders == [] || orders[0].position == p then 0 else 1 + FirstAt(orders[1..], p)
  }

  function RemoveFirst(orders: seq<TradeFill>, p: Position): seq<TradeFill>
  {
    if orders == [] then []
    else if orders[0].position == p then orders[1..]
    else [orders[0]] + RemoveFirst(orders[1..], p)
  }

  lemma {:induction false} NothingPaired(orders: seq<TradeFill>)
    ensures Unpaired(orders, 0, 0) == orders
  {
    if orders != [] { NothingPaired(orders[1..]); }
  }

  lemma AtCons(x: TradeFill, rest: seq<TradeFill>, p: Position)
    ensures At([x] + rest, p) == if x.position == p then [x] + At(rest, p) else At(rest, p)
  {
    assert ([x] + rest)[1..] == rest;
  }

  lemma DropCons<T>(x: T, rest: seq<T>, k: nat)
    ensures 0 < k <= |rest| + 1 ==> ([x] + rest)[k..] == rest[k - 1..]
  {
  }

  lemma UnpairedCons(x: TradeFill, rest: seq<TradeFill>, opens: nat, closes: nat)
    ensures Unpaired([x] + rest, opens, closes) ==
      if x.position == OPEN && opens > 0 then Unpaired(rest, opens - 1, closes)
      else if x.position == CLOSE && closes > 0 then Unpaired(rest, opens, closes - 1)
      else [x] + Unpaired(rest, opens, closes)
  {
    assert ([x] + rest)[1..] == rest;
  }

  lemma {:induction false} OpensOfUnpaired(orders: seq<TradeFill>, opens: nat, closes: nat)
    requires opens <= |At(orders, OPEN)|
    ensures At(Unpaired(orders, opens, closes), OPEN) == At(orders, OPEN)[opens..]
  {
    if orders != [] {
      hide At, Unpaired;
      var x, rest := orders[0], orders[1..];
      assert orders == [x] + rest;
      AtCons(x, rest, OPEN);
      UnpairedCons(x, rest, opens, closes);
      if x.position == OPEN && opens > 0 {
        OpensOfUnpaired(rest, opens - 1, closes);
        DropCons(x, At(rest, OPEN), opens);
      } else if x.position == CLOSE && closes > 0 {
        OpensOfUnpaired(rest, opens, closes - 1);
        DropCons(x, At(rest, OPEN), opens);
      } else {
        OpensOfUnpaired(rest, opens, closes);
        KeptHead(x, rest, Unpaired(rest, opens, closes), OPEN, opens);
      }
    }
  }

  lemma {:induction false} ClosesOfUnpaired(orders: seq<TradeFill>, opens: nat, closes: nat)
    requires closes <= |At(orders, CLOSE)|
    ensures At(Unpaired(orders, opens, closes), CLOSE) == At(orders, CLOSE)[closes..]
  {
    if orders != [] {
      hide At, Unpaired;
      var x, rest := orders[0], orders[1..];
      assert orders == [x] + rest;
      AtCons(x, rest, CLOSE);
      UnpairedCons(x, rest, opens, closes);
      if x.position == OPEN && opens > 0 {
        ClosesOfUnpaired(rest, opens - 1, closes);
        DropCons(x, At(rest, CLOSE), closes);
      } else if x.position == CLOSE && closes > 0 {
        ClosesOfUnpaired(rest, opens, closes - 1);
        DropCons(x, At(rest, CLOSE), closes);
      } else {
        ClosesOfUnpaired(rest, opens, closes);
        KeptHead(x, rest, Unpaired(rest, opens, closes), CLOSE, closes);
      }
    }
  }

  lemma AtOfUnpaired(orders: seq<TradeFill>, opens: nat, closes: nat)
    requires opens <= |At(orders, OPEN)| && closes <= |At(orders, CLOSE)|
    ensures At(Unpaired(orders, opens, closes), OPEN) == At(orders, OPEN)[opens..]
    ensures At(Unpaired(orders, opens, closes), CLOSE) == At(orders, CLOSE)[closes..]
  {
    hide At, Unpaired;
    OpensOfUnpaired(orders, opens, closes);
    ClosesOfUnpaired(orders, opens, closes);
  }

  lemma KeptHead(x: TradeFill, rest: seq<TradeFill>, left: seq<TradeFill>, p: Position, k: nat)
    requires k <= |At(rest, p)| && At(left, p) == At(rest, p)[k..] && (x.position == p ==> k == 0)
    ensures k <= |At([x] + rest, p)| && At([x] + left, p) == At([x] + rest, p)[k..]
  {
    AtCons(x, left, p);
    AtCons(x, rest, p);
    hide At;
  }

  lemma {:induction false} FirstAtIsHead(orders: seq<TradeFill>, p: Position)
    ensures FirstAt(orders, p) < |orders| <==> At(orders, p) != []
    ensures At(orders, p) != [] ==> At(orders, p)[0] == orders[FirstAt(orders, p)]
  {
    if orders != [] { FirstAtIsHead(orders[1..], p); }
  }

  lemma RemoveAtCons<T>(x: T, rest: seq<T>, k: nat)
    ensures k < |rest| ==> ([x] + rest)[..k + 1] + ([x] + rest)[k + 2..] == [x] + (rest[..k] + rest[k + 1..])
    ensures ([x] + rest)[..0] + ([x] + rest)[1..] == rest
  {
  }

  lemma {:induction false} RemoveFirstAt(orders: seq<TradeFill>, p: Position, k: nat)
    requires k < |orders| && orders[k].position == p && forall j :: 0 <= j < k ==> orders[j].position != p
    ensures orders[..k] + orders[k + 1..] == RemoveFirst(orders, p)
  {
    if k > 0 {
      assert orders[0].position != p;
      RemoveFirstAt(orders[1..], p, k - 1);
      RemoveAtCons(orders[0], orders[1..], k - 1);
      assert orders == [orders[0]] + orders[1..];
    }
  }

  /** Removing the next open order pairs one more. */
  lemma {:induction false} RemoveOpen(orders: seq<TradeFill>, opens: nat, closes: nat)
    requires opens < |At(orders, OPEN)|
    ensures RemoveFirst(Unpaired(orders, opens, closes), OPEN) == Unpaired(orders, opens + 1, closes)
  {
    var rest := orders[1..];
    if orders[0].position == OPEN && opens > 0 {
      RemoveOpen(rest, opens - 1, closes);
    } else if orders[0].position == CLOSE && closes > 0 {
      RemoveOpen(rest, opens, closes - 1);
    } else {
      assert Unpaired(orders, opens, closes)[1..] == Unpaired(rest, opens, closes);
      if orders[0].position != OPEN { RemoveOpen(rest, opens, closes); }
    }
  }

  lemma {:induction false} RemoveClose(orders: seq<TradeFill>, opens: nat, closes: nat)
    requires closes < |At(orders, CLOSE)|
    ensures RemoveFirst(Unpaired(orders, opens, closes), CLOSE) == Unpaired(orders, opens, closes + 1)
  {
    var rest := orders[1..];
    if orders[0].position == OPEN && opens > 0 {
      RemoveClose(rest, opens - 1, closes);
    } else if orders[0].position == CLOSE && closes > 0 {
      RemoveClose(rest, opens, closes - 1);
    } else {
      assert Unpaired(orders, opens, closes)[1..] == Unpaired(rest, opens, closes);
      if orders[0].position != CLOSE { RemoveClose(rest, opens, closes); }
    }
  }

  /** next(order for order in orders if order.position == p) */
  method FindFirst(orders: seq<TradeFill>, p: Position) returns (k: nat)
    ensures k == FirstAt(orders, p)
  {
    k := 0;
    while k < |orders| && orders[k].position != p
      invariant k <= |orders|
      invariant FirstAt(orders, p) == k + FirstAt(orders[k..], p)
    {
      assert orders[k..][1..] == orders[k + 1..];
      k := k + 1;
    }
  }

  /** Takes the first open order of one list and the first close order of the
      other out of their lists; with either missing, both lists stay. */
  method PositionOrder(open: OrderList, close: OrderList) returns (pair: Option<(TradeFill, TradeFill)>)
    requires open != close
    modifies open, close
    ensures var opens, closes := At(old(open.items), OPEN), At(old(close.items), CLOSE);
      if opens == [] || closes == [] then
        pair == None && open.items == old(open.items) && close.items == old(close.items)
      else
        && pair == Some((opens[0], closes[0]))
        && open.items == RemoveFirst(old(open.items), OPEN) && close.items == RemoveFirst(old(close.items), CLOSE)
  {
    FirstAtIsHead(open.items, OPEN);
    FirstAtIsHead(close.items, CLOSE);
    var i := FindFirst(open.items, OPEN);
    if i == |open.items| { return None; }
    var j := FindFirst(close.items, CLOSE);
    if j == |close.items| { return None; }
    RemoveFirstAt(open.items, OPEN, i);
    RemoveFirstAt(close.items, CLOSE, j);
    pair := Some((open.items[i], close.items[j]));
    open.items := open.items[..i] + open.items[i + 1..];
    close.items := close.items[..j] + close.items[j + 1..];
  }

  /** Where the two lists stand after `l` long and `s` short pairs are taken. */
  ghost predicate PairedUpTo(b0: seq<TradeFill>, s0: seq<TradeFill>, buys: seq<TradeFill>, sells: seq<TradeFill>,
                             long: seq<(TradeFill, TradeFill)>, short: seq<(TradeFill, TradeFill)>)
  {
    var l, s := |long|, |short|;
    && l <= Min(|At(b0, OPEN)|, |At(s0, CLOSE)|) && s <= Min(|At(s0, OPEN)|, |At(b0, CLOSE)|)
    && long == Zip(At(b0, OPEN), At(s0, CLOSE))[..l] && short == Zip(At(s0, OPEN), At(b0, CLOSE))[..s]
    && buys == Unpaired(b0, l, s) && sells == Unpaired(s0, s, l)
  }

  lemma ZipStep<T>(opens: seq<T>, closes: seq<T>, k: nat)
    ensures k < |opens| && k < |closes| ==>
      k < |Zip(opens, closes)| && Zip(opens, closes)[..k + 1] == Zip(opens, closes)[..k] + [(opens[k], closes[k])]
  {
  }

  lemma OneMoreLong(b0: seq<TradeFill>, s0: seq<TradeFill>, buys: seq<TradeFill>, sells: seq<TradeFill>,
                    long: seq<(TradeFill, TradeFill)>, short: seq<(TradeFill, TradeFill)>)
    requires PairedUpTo(b0, s0, buys, sells, long, short)
    ensures At(buys, OPEN) == At(b0, OPEN)[|long|..] && At(sells, CLOSE) == At(s0, CLOSE)[|long|..]
    ensures At(buys, OPEN) != [] && At(sells, CLOSE) != [] ==>
      PairedUpTo(b0, s0, RemoveFirst(buys, OPEN), RemoveFirst(sells, CLOSE),
                 long + [(At(buys, OPEN)[0], At(sells, CLOSE)[0])], short)
  {
    hide At, Unpaired, RemoveFirst, Zip;
    AtOfUnpaired(b0, |long|, |short|);
    AtOfUnpaired(s0, |short|, |long|);
    ZipStep(At(b0, OPEN), At(s0, CLOSE), |long|);
    if At(buys, OPEN) != [] && At(sells, CLOSE) != [] {
      RemoveOpen(b0, |long|, |short|);
      RemoveClose(s0, |short|, |long|);
    }
  }

  lemma OneMoreShort(b0: seq<TradeFill>, s0: seq<TradeFill>, buys: seq<TradeFill>, sells: seq<TradeFill>,
                     long: seq<(TradeFill, TradeFill)>, short: seq<(TradeFill, TradeFill)>)
    requires PairedUpTo(b0, s0, buys, sells, long, short)
    ensures At(sells, OPEN) == At(s0, OPEN)[|short|..] && At(buys, CLOSE) == At(b0, CLOSE)[|short|..]
    ensures At(sells, OPEN) != [] && At(buys, CLOSE) != [] ==>
      PairedUpTo(b0, s0, RemoveFirst(buys, CLOSE), RemoveFirst(sells, OPEN),
                 long, short + [(At(sells, OPEN)[0], At(buys, CLOSE)[0])])
  {
    OneMoreLong(s0, b0, sells, buys, short, long);
  }

  /** The pairing loop: it ends, the pairs are the open orders of one side zipped
      with the close orders of the other, and the rest of both lists is intact. */
  method PairOrders(buys: OrderList, sells: OrderList)
    returns (long: seq<(TradeFill, TradeFill)>, short: seq<(TradeFill, TradeFill)>)
    requires buys != sells
    modifies buys, sells
    ensures long == Zip(At(old(buys.items), OPEN), At(old(sells.items), CLOSE))
    ensures short == Zip(At(old(sells.items), OPEN), At(old(buys.items), CLOSE))
    ensures buys.items == Unpaired(old(buys.items), |long|, |short|)
    ensures sells.items == Unpaired(old(sells.items), |short|, |long|)
  {
    long, short := [], [];
    ghost var b0, s0 := buys.items, sells.items;
    NonePaired(b0, s0);
    hide At, Unpaired, RemoveFirst, Zip, PairedUpTo;
    ghost var total := Total(b0, s0);
    while true
      invariant PairedUpTo(b0, s0, buys.items, sells.items, long, short)
      decreases total - |long| - |short|
    {
      ghost var before := |long| + |short|;
      OneMoreLong(b0, s0, buys.items, sells.items, long, short);
      var lng := PositionOrder(buys, sells);
      if lng.Some? { long := long + [lng.value]; }
      OneMoreShort(b0, s0, buys.items, sells.items, long, short);
      var sht := PositionOrder(sells, buys);
      if sht.Some? { short := short + [sht.value]; }
      if lng.None? && sht.None? { break; }
      WithinTotal(b0, s0, buys.items, sells.items, long, short);
    }
    AllPaired(b0, s0, buys.items, sells.items, long, short);
  }

  ghost function Total(b0: seq<TradeFill>, s0: seq<TradeFill>): nat
  {
    Min(|At(b0, OPEN)|, |At(s0, CLOSE)|) + Min(|At(s0, OPEN)|, |At(b0, CLOSE)|)
  }

  lemma WithinTotal(b0: seq<TradeFill>, s0: seq<TradeFill>, buys: seq<TradeFill>, sells: seq<TradeFill>,
                    long: seq<(TradeFill, TradeFill)>, short: seq<(TradeFill, TradeFill)>)
    requires PairedUpTo(b0, s0, buys, sells, long, short)
    ensures |long| + |short| <= Total(b0, s0)
  {
  }

  lemma NonePaired(b0: seq<TradeFill>, s0: seq<TradeFill>)
    ensures PairedUpTo(b0, s0, b0, s0, [], [])
  {
    NothingPaired(b0);
    NothingPaired(s0);
  }

  lemma AllPaired(b0: seq<TradeFill>, s0: seq<TradeFill>, buys: seq<TradeFill>, sells: seq<TradeFill>,
                  long: seq<(TradeFill, TradeFill)>, short: seq<(TradeFill, TradeFill)>)
    requires PairedUpTo(b0, s0, buys, sells, long, short)
    requires At(buys, OPEN) == [] || At(sells, CLOSE) == []
    requires At(sells, OPEN) == [] || At(buys, CLOSE) == []
    ensures long == Zip(At(b0, OPEN), At(s0, CLOSE)) && short == Zip(At(s0, OPEN), At(b0, CLOSE))
    ensures buys == Unpaired(b0, |long|, |short|) && sells == Unpaired(s0, |short|, |long|)
  {
    hide At, Unpaired, Zip;
    AtOfUnpaired(b0, |long|, |short|);
    AtOfUnpaired(s0, |short|, |long|);
    ZipLength(At(b0, OPEN), At(s0, CLOSE));
    ZipLength(At(s0, OPEN), At(b0, CLOSE));
  }

  lemma ZipLength<T>(opens: seq<T>, closes: seq<T>)
    ensures |Zip(opens, closes)| == Min(|opens|, |closes|)
  {
  }

  // ---- aggregate_orders ------------------------------------------------------

  function IdsOf(orders: seq<TradeFill>): seq<string>
  {
    if orders == [] then []
    else
      var ids, id := IdsOf(orders[..|orders| - 1]), orders[|orders| - 1].id;
      if id in ids then ids else ids + [id]
  }

  function GroupOf(orders: seq<TradeFill>, id: string): (group: seq<TradeFill>)
    ensures forall x :: x in group ==> x in orders && x.id == id
  {
    if orders == [] then []
    else GroupOf(orders[..|orders| - 1], id) + (if orders[|orders| - 1].id == id then [orders[|orders| - 1]] else [])
  }

  lemma {:induction false} GroupViews(orders: seq<TradeFill>, id: string)
    ensures Views(GroupOf(orders, id)) == WithId(Views(orders), id)
  {
    if orders != [] {
      GroupViews(orders[..|orders| - 1], id);
      assert Views(orders)[..|orders| - 1] == Views(orders[..|orders| - 1]);
    }
  }

  lemma {:induction false} IdsViews(orders: seq<TradeFill>)
    ensures IdsOf(orders) == FirstIds(Views(orders))
  {
    if orders != [] {
      IdsViews(orders[..|orders| - 1]);
      assert Views(orders)[..|orders| - 1] == Views(orders[..|orders| - 1]);
    }
  }

  lemma GroupSnoc(front: seq<TradeFill>, last: TradeFill, id: string)
    ensures GroupOf(front + [last], id) == if last.id == id then GroupOf(front, id) + [last] else GroupOf(front, id)
    ensures IdsOf(front + [last]) == if last.id in IdsOf(front) then IdsOf(front) else IdsOf(front) + [last.id]
  {
    assert (front + [last])[..|front|] == front;
  }

  /** The keys are the ids in order of appearance; each maps to its fills. */
  ghost predicate IsTable(orders: seq<TradeFill>, keys: seq<string>, groups: map<string, seq<TradeFill>>)
  {
    && keys == IdsOf(orders)
    && (forall id :: id in groups <==> id in keys)
    && (forall id :: GroupOf(orders, id) == if id in groups then groups[id] else [])
  }

  lemma EmptyTable()
    ensures IsTable([], [], map[])
  {
  }

  lemma TableSnoc(front: seq<TradeFill>, order: TradeFill, keys: seq<string>, groups: map<string, seq<TradeFill>>)
    requires IsTable(front, keys, groups)
    ensures IsTable(front + [order], if order.id in keys then keys else keys + [order.id],
                    groups[order.id := (if order.id in groups then groups[order.id] else []) + [order]])
  {
    hide IdsOf, GroupOf;
    forall id { GroupSnoc(front, order, id); }
    GroupSnoc(front, order, order.id);
  }

  /** The dictionary of groups, with the order of its keys. */
  method GroupOrders(orders: seq<TradeFill>) returns (keys: seq<string>, groups: map<string, seq<TradeFill>>)
    ensures IsTable(orders, keys, groups)
  {
    keys, groups := [], map[];
    hide IsTable;
    EmptyTable();
    assert orders[..0] == [];
    for i := 0 to |orders|
      invariant IsTable(orders[..i], keys, groups)
    {
      var order := orders[i];
      TableSnoc(orders[..i], order, keys, groups);
      assert orders[..i + 1] == orders[..i] + [order];
      var group := if order.id in groups then groups[order.id] else [];
      if order.id !in keys { keys := keys + [order.id]; }
      groups := groups[order.id := group + [order]];
    }
    assert orders[..|orders|] == orders;
  }

  method SumGroup(group: seq<TradeFill>) returns (prices: real, amounts: real)
    ensures prices == SumPrice(Views(group)) && amounts == SumAmount(Views(group))
  {
    prices, amounts := 0.0, 0.0;
    for i := 0 to |group|
      invariant prices == SumPrice(Views(group)[..i]) && amounts == SumAmount(Views(group)[..i])
    {
      assert Views(group)[..i + 1][..i] == Views(group)[..i];
      prices := prices + group[i].price;
      amounts := amounts + group[i].amount;
    }
    assert Views(group)[..|group|] == Views(group);
  }

  /** Every fill but those in `done` still shows what it showed before. */
  ghost predicate Untouched(orders: seq<TradeFill>, done: seq<TradeFill>, before: map<TradeFill, Fill>)
    reads orders
  {
    forall x :: x in orders && x !in done ==> x in before && before[x] == x.View()
  }

  /** One order's fills become one: the first, changed in place. */
  method MergeGroup(orders: seq<TradeFill>, id: string, group: seq<TradeFill>, done: seq<TradeFill>,
                    ghost before: map<TradeFill, Fill>, ghost was: seq<Fill>) returns (first: TradeFill)
    requires group != [] && group == GroupOf(orders, id) && forall x :: x in done ==> x.id != id
    requires Untouched(orders, done, before)
    requires |was| == |group| && forall i :: 0 <= i < |group| ==> group[i] in before && was[i] == before[group[i]]
    modifies group[0]
    ensures first == group[0] && first in orders && first.id == id
    ensures first.View() == Merged(was)
    ensures Untouched(orders, done + [first], before)
  {
    hide GroupOf, Merged;
    assert Views(group) == was by {
      assert forall i :: 0 <= i < |group| ==> group[i] in group && group[i] !in done;
    }
    var prices, amounts := SumGroup(group);
    first := group[0];
    MergedIs(was);
    assert first in group;
    first.price := prices / |group| as real;
    first.amount := amounts;
  }

  lemma MergedIs(group: seq<Fill>)
    requires group != []
    ensures Merged(group) == group[0].(price := SumPrice(group) / |group| as real, amount := SumAmount(group))
  {
  }

  /** The table of groups lists every order once, with its fills as they were. */
  ghost predicate Grouped(orders: seq<TradeFill>, keys: seq<string>, groups: map<string, seq<TradeFill>>,
                          before: map<TradeFill, Fill>, parts: seq<seq<Fill>>, goal: seq<Fill>)
  {
    && |parts| == |keys| == |goal|
    && (forall i, j :: 0 <= i < j < |keys| ==> keys[i] != keys[j])
    && forall j :: 0 <= j < |keys| ==> GroupedAt(orders, keys[j], groups, before, parts[j], goal[j])
  }

  ghost predicate GroupedAt(orders: seq<TradeFill>, id: string, groups: map<string, seq<TradeFill>>,
                            before: map<TradeFill, Fill>, part: seq<Fill>, order: Fill)
  {
    && id in groups && groups[id] != [] && groups[id] == GroupOf(orders, id)
    && |part| == |groups[id]| && (forall i :: 0 <= i < |part| ==> groups[id][i] in before && part[i] == before[groups[id][i]])
    && order == Merged(part)
  }

  /** In place: the first fill of every order takes the order's mean price and
      total amount, and no other fill changes. */
  method AggregateOrders(orders: seq<TradeFill>) returns (aggregated: seq<TradeFill>)
    modifies orders
    ensures Views(aggregated) == Aggregate(old(Views(orders)))
    ensures forall x :: x in aggregated ==> x in orders
    ensures forall x :: x in orders && x !in aggregated ==> x.View() == old(x.View())
  {
    hide IdsOf, GroupOf, FirstIds, WithId, Merged;
    ghost var was := Views(orders);
    ghost var before := map x | x in orders :: x.View();
    var keys, groups := GroupOrders(orders);
    ghost var goal := Aggregate(was);
    ghost var parts := seq(|keys|, i requires 0 <= i < |keys| => WithId(was, keys[i]));
    GroupedBefore(orders, was, keys, groups, before, parts);
    aggregated := MergeGroups(orders, keys, groups, before, parts, goal);
    assert Views(aggregated) == goal;
  }

  method MergeGroups(orders: seq<TradeFill>, keys: seq<string>, groups: map<string, seq<TradeFill>>,
                     ghost before: map<TradeFill, Fill>, ghost parts: seq<seq<Fill>>, ghost goal: seq<Fill>)
    returns (aggregated: seq<TradeFill>)
    requires Grouped(orders, keys, groups, before, parts, goal) && Untouched(orders, [], before)
    modifies orders
    ensures |aggregated| == |keys| && Untouched(orders, aggregated, before) && Finished(orders, keys, goal, aggregated)
  {
    hide Grouped, Untouched, Finished;
    aggregated := [];
    NoneFinished(orders, keys, groups, before, parts, goal);
    for j := 0 to |keys|
      invariant |aggregated| == j && Untouched(orders, aggregated, before) && Finished(orders, keys, goal, aggregated)
    {
      aggregated := MergeNext(orders, keys, groups, before, parts, goal, aggregated);
    }
  }

  lemma NoneFinished(orders: seq<TradeFill>, keys: seq<string>, groups: map<string, seq<TradeFill>>,
                     before: map<TradeFill, Fill>, parts: seq<seq<Fill>>, goal: seq<Fill>)
    requires Grouped(orders, keys, groups, before, parts, goal)
    ensures Finished(orders, keys, goal, [])
  {
  }

  /** One group more. */
  method MergeNext(orders: seq<TradeFill>, keys: seq<string>, groups: map<string, seq<TradeFill>>,
                   ghost before: map<TradeFill, Fill>, ghost parts: seq<seq<Fill>>, ghost goal: seq<Fill>,
                   done: seq<TradeFill>) returns (aggregated: seq<TradeFill>)
    requires Grouped(orders, keys, groups, before, parts, goal) && |done| < |keys|
    requires Untouched(orders, done, before) && Finished(orders, keys, goal, done)
    modifies orders
    ensures |aggregated| == |done| + 1
    ensures Untouched(orders, aggregated, before) && Finished(orders, keys, goal, aggregated)
  {
    hide GroupOf, Merged, Untouched, GroupedAt, Grouped;
    var j := |done|;
    GroupIs(orders, keys, groups, before, parts, goal, j);
    FinishedIds(orders, keys, goal, done);
    var first := MergeGroup(orders, keys[j], groups[keys[j]], done, before, parts[j]);
    assert forall i :: 0 <= i < j ==> done[i] in done && done[i] != first;
    aggregated := done + [first];
  }

  /** The orders done so far are first fills of the orders listed, in that order. */
  ghost predicate Finished(orders: seq<TradeFill>, keys: seq<string>, goal: seq<Fill>, aggregated: seq<TradeFill>)
    reads orders
  {
    && |aggregated| <= |keys| == |goal|
    && forall i :: 0 <= i < |aggregated| ==>
         aggregated[i] in orders && aggregated[i].id == keys[i] && aggregated[i].View() == goal[i]
  }

  lemma GroupIs(orders: seq<TradeFill>, keys: seq<string>, groups: map<string, seq<TradeFill>>,
                before: map<TradeFill, Fill>, parts: seq<seq<Fill>>, goal: seq<Fill>, j: nat)
    requires Grouped(orders, keys, groups, before, parts, goal) && j < |keys|
    ensures |parts| == |keys| == |goal| && (forall i, k :: 0 <= i < k < |keys| ==> keys[i] != keys[k])
    ensures keys[j] in groups && groups[keys[j]] != [] && groups[keys[j]] == GroupOf(orders, keys[j])
    ensures groups[keys[j]][0] in orders
    ensures var group := groups[keys[j]];
      |parts[j]| == |group| && forall i :: 0 <= i < |group| ==> group[i] in before && parts[j][i] == before[group[i]]
    ensures goal[j] == Merged(parts[j])
  {
    assert GroupedAt(orders, keys[j], groups, before, parts[j], goal[j]);
  }

  lemma FinishedIds(orders: seq<TradeFill>, keys: seq<string>, goal: seq<Fill>, aggregated: seq<TradeFill>)
    requires Finished(orders, keys, goal, aggregated) && |aggregated| < |keys|
    requires forall i, j :: 0 <= i < j < |keys| ==> keys[i] != keys[j]
    ensures forall x :: x in aggregated ==> x.id != keys[|aggregated|]
  {
  }

  lemma GroupedBefore(orders: seq<TradeFill>, was: seq<Fill>, keys: seq<string>, groups: map<string, seq<TradeFill>>,
                      before: map<TradeFill, Fill>, parts: seq<seq<Fill>>)
    requires was == Views(orders) && before == map x | x in orders :: x.View()
    requires IsTable(orders, keys, groups)
    requires |parts| == |keys| && forall i :: 0 <= i < |keys| ==> parts[i] == WithId(was, keys[i])
    ensures Grouped(orders, keys, groups, before, parts, Aggregate(was))
  {
    hide IdsOf, GroupOf, FirstIds, WithId, Merged;
    IdsViews(orders);
    IdsAppear(was);
    GroupsBefore(orders, was, before);
    forall j | 0 <= j < |keys| ensures GroupedAt(orders, keys[j], groups, before, parts[j], Aggregate(was)[j]) {
      assert keys[j] in keys;
    }
  }

  lemma GroupsBefore(orders: seq<TradeFill>, was: seq<Fill>, before: map<TradeFill, Fill>)
    requires was == Views(orders) && before == map x | x in orders :: x.View()
    ensures forall id :: |GroupOf(orders, id)| == |WithId(was, id)|
    ensures forall id, i :: 0 <= i < |GroupOf(orders, id)| ==>
      GroupOf(orders, id)[i] in before && WithId(was, id)[i] == before[GroupOf(orders, id)[i]]
  {
    forall id
      ensures |GroupOf(orders, id)| == |WithId(was, id)|
      ensures forall i :: 0 <= i < |GroupOf(orders, id)| ==>
        GroupOf(orders, id)[i] in before && WithId(was, id)[i] == before[GroupOf(orders, id)[i]]
    {
      GroupViews(orders, id);
      assert forall i :: 0 <= i < |GroupOf(orders, id)| ==> GroupOf(orders, id)[i] in GroupOf(orders, id);
    }
  }

  // ---- derivative_pnl --------------------------------------------------------

  function ViewPairs(pairs: seq<(TradeFill, TradeFill)>): (views: seq<(Fill, Fill)>)
    reads set i | 0 <= i < |pairs| :: pairs[i].0, set i | 0 <= i < |pairs| :: pairs[i].1
    ensures |views| == |pairs|
    ensures forall i :: 0 <= i < |pairs| ==> views[i] == (pairs[i].0.View(), pairs[i].1.View())
  {
    seq(|pairs|, i requires 0 <= i < |pairs| 
      reads if 0 <= i < |pairs| then {pairs[i].0, pairs[i].1} else {} => (pairs[i].0.View(), pairs[i].1.View()))
  }

  /** One profit per closed position, long ones first. */
  method DerivativePnl(long: seq<(TradeFill, TradeFill)>, short: seq<(TradeFill, TradeFill)>) returns (pnls: seq<real>)
    ensures |pnls| == |long| + |short|
    ensures Sum(pnls) == SumLong(ViewPairs(long)) + SumShort(ViewPairs(short))
  {
    pnls := [];
    ghost var l, s := ViewPairs(long), ViewPairs(short);
    for i := 0 to |long|
      invariant |pnls| == i && Sum(pnls) == SumLong(l[..i])
    {
      ghost var before := pnls;
      pnls := pnls + [(long[i].1.price - long[i].0.price) * long[i].1.amount];
      assert pnls[..i] == before && l[..i + 1][..i] == l[..i];
    }
    assert l[..|long|] == l;
    for i := 0 to |short|
      invariant |pnls| == |long| + i && Sum(pnls) == SumLong(l) + SumShort(s[..i])
    {
      ghost var before := pnls;
      pnls := pnls + [(short[i].0.price - short[i].1.price) * short[i].1.amount];
      assert pnls[..|long| + i] == before && s[..i + 1][..i] == s[..i];
    }
    assert s[..|short|] == s;
  }

  method SumOf(values: seq<real>) returns (total: real)
    ensures total == Sum(values)
  {
    total := 0.0;
    for i := 0 to |values|
      invariant total == Sum(values[..i])
    {
      assert values[..i + 1][..i] == values[..i];
      total := total + values[i];
    }
    assert values[..|values|] == values;
  }

  lemma ViewsCons(x: TradeFill, rest: seq<TradeFill>)
    ensures Views([x] + rest) == [x.View()] + Views(rest)
    ensures Views(rest + [x]) == Views(rest) + [x.View()]
  {
  }

  lemma {:induction false} AtViews(orders: seq<TradeFill>, p: Position)
    ensures Views(At(orders, p)) == InPosition(Views(orders), p)
  {
    if orders != [] {
      hide At, InPosition;
      var x, rest := orders[0], orders[1..];
      AtViews(rest, p);
      AtCons(x, rest, p);
      InPositionCons(x.View(), Views(rest), p);
      assert orders == [x] + rest;
      ViewsCons(x, rest);
      ViewsCons(x, At(rest, p));
    }
  }

  lemma ZipViews(opens: seq<TradeFill>, closes: seq<TradeFill>)
    ensures ViewPairs(Zip(opens, closes)) == Zip(Views(opens), Views(closes))
  {
  }

  // ---- the metrics object ----------------------------------------------------

  method IsDerivativeList(trades: seq<TradeFill>) returns (yes: bool)
    ensures yes == AreDerivatives(Views(trades))
  {
    yes := trades != [] && trades[0].stored && forall t :: t in trades ==> t.position != NIL;
    assert forall i :: 0 <= i < |trades| ==> Views(trades)[i].position == trades[i].position && trades[i] in trades;
    assert forall f :: f in Views(trades) ==> exists i :: 0 <= i < |trades| && Views(trades)[i] == f;
  }

  lemma PairViews(opens: seq<TradeFill>, closes: seq<TradeFill>)
    ensures ViewPairs(Zip(At(opens, OPEN), At(closes, CLOSE)))
         == Zip(InPosition(Views(opens), OPEN), InPosition(Views(closes), CLOSE))
  {
    hide At, InPosition;
    AtViews(opens, OPEN);
    AtViews(closes, CLOSE);
    ZipViews(At(opens, OPEN), At(closes, CLOSE));
  }

  /** aggregate_position_order */
  method AggregatePositionOrder(buys: seq<TradeFill>, sells: seq<TradeFill>)
    returns (aggregatedBuys: seq<TradeFill>, aggregatedSells: seq<TradeFill>)
    requires (forall x :: x in buys ==> x.side == BUY) && (forall x :: x in sells ==> x.side == SELL)
    modifies buys, sells
    ensures Views(aggregatedBuys) == Aggregate(old(Views(buys)))
    ensures Views(aggregatedSells) == Aggregate(old(Views(sells)))
  {
    hide Aggregate;
    ghost var s := Views(sells);
    aggregatedBuys := AggregateOrders(buys);
    assert Views(sells) == s by { assert forall i :: 0 <= i < |sells| ==> sells[i] in sells && sells[i] !in buys; }
    ghost var b := Views(aggregatedBuys);
    aggregatedSells := AggregateOrders(sells);
    assert Views(aggregatedBuys) == b by {
      assert forall i :: 0 <= i < |aggregatedBuys| ==> aggregatedBuys[i] in aggregatedBuys && aggregatedBuys[i] !in sells;
    }
  }

  /** The profit of the positions that two lists of merged orders close. */
  method PositionProfit(buys: seq<TradeFill>, sells: seq<TradeFill>) returns (profit: real)
    ensures profit == PositionPnl(Views(buys), Views(sells))
  {
    hide At, Unpaired, Zip, InPosition, SumLong, SumShort;
    var buysCopy := new OrderList(buys);
    var sellsCopy := new OrderList(sells);
    var long, short := PairOrders(buysCopy, sellsCopy);
    PairViews(buys, sells);
    PairViews(sells, buys);
    var pnls := DerivativePnl(long, short);
    profit := SumOf(pnls);
  }

  class PerformanceMetrics {
    var numBuys: nat
    var numSells: nat
    var numTrades: nat
    var bVolBase: real
    var sVolBase: real
    var totVolBase: real
    var bVolQuote: real
    var sVolQuote: real
    var totVolQuote: real
    var startBaseBal: real
    var startQuoteBal: real
    var curBaseBal: real
    var curQuoteBal: real
    var startPrice: real
    var curPrice: real
    var holdValue: real
    var curValue: real
    var tradePnl: real
    var avgBPrice: real
    var avgSPrice: real
    var avgTotPrice: real
    var startBaseRatioPct: real
    var curBaseRatioPct: real

    constructor ()
      ensures bVolBase == sVolBase == bVolQuote == sVolQuote == 0.0
    {
      numBuys, numSells, numTrades := 0, 0, 0;
      bVolBase, sVolBase, totVolBase := 0.0, 0.0, 0.0;
      bVolQuote, sVolQuote, totVolQuote := 0.0, 0.0, 0.0;
      startBaseBal, startQuoteBal, curBaseBal, curQuoteBal := 0.0, 0.0, 0.0, 0.0;
      startPrice, curPrice, holdValue, curValue, tradePnl := 0.0, 0.0, 0.0, 0.0, 0.0;
      avgBPrice, avgSPrice, avgTotPrice, startBaseRatioPct, curBaseRatioPct := 0.0, 0.0, 0.0, 0.0, 0.0;
    }

    /** The volumes hold these buys and sells on top of what they held before. */
    ghost predicate Volumes(buys: seq<Fill>, sells: seq<Fill>, bBase: real, bQuote: real, sBase: real, sQuote: real)
      reads `bVolBase, `bVolQuote, `sVolBase, `sVolQuote
    {
      && bVolBase == bBase + SumAmount(buys) && bVolQuote == bQuote - SumValue(buys)
      && sVolBase == sBase - SumAmount(sells) && sVolQuote == sQuote + SumValue(sells)
    }

    /** One trade: what is bought adds base and costs quote, what is sold takes
        base and brings quote. */
    method Count(trade: TradeFill)
      modifies `bVolBase, `sVolBase, `bVolQuote, `sVolQuote
      ensures bVolBase == old(bVolBase) + (if trade.side == BUY then trade.amount else 0.0)
      ensures bVolQuote == old(bVolQuote) - (if trade.side == BUY then Value(trade.View()) else 0.0)
      ensures sVolBase == old(sVolBase) - (if trade.side == SELL then trade.amount else 0.0)
      ensures sVolQuote == old(sVolQuote) + (if trade.side == SELL then Value(trade.View()) else 0.0)
    {
      if trade.side == BUY {
        bVolBase := bVolBase + trade.amount;
        bVolQuote := bVolQuote + trade.amount * trade.price * -1.0;
      } else if trade.side == SELL {
        sVolBase := sVolBase + trade.amount * -1.0;
        sVolQuote := sVolQuote + trade.amount * trade.price;
      }
    }

    /** The loop: splits the trades by side and accumulates signed volumes. Trades
        on neither side are skipped. */
    method SplitBySide(trades: seq<TradeFill>) returns (buys: seq<TradeFill>, sells: seq<TradeFill>)
      modifies `bVolBase, `sVolBase, `bVolQuote, `sVolQuote
      ensures buys == Traded(trades, BUY) && sells == Traded(trades, SELL)
      ensures Volumes(OnSide(Views(trades), BUY), OnSide(Views(trades), SELL),
                      old(bVolBase), old(bVolQuote), old(sVolBase), old(sVolQuote))
    {
      hide OnSide, SumAmount, SumValue, Traded, Value;
      buys, sells := [], [];
      ghost var views := Views(trades);
      NoneYet();
      for i := 0 to |trades|
        invariant buys == Traded(trades[..i], BUY) && sells == Traded(trades[..i], SELL)
        invariant Volumes(OnSide(views[..i], BUY), OnSide(views[..i], SELL),
                          old(bVolBase), old(bVolQuote), old(sVolBase), old(sVolQuote))
      {
        var trade := trades[i];
        assert trades[..i + 1] == trades[..i] + [trade] && views[..i + 1] == views[..i] + [trade.View()];
        Snoc(views[..i], trade.View());
        Snoc(OnSide(views[..i], trade.side), trade.View());
        TradedSnoc(trades[..i], trade);
        Count(trade);
        if trade.side == BUY { buys := buys + [trade]; } else if trade.side == SELL { sells := sells + [trade]; }
      }
      assert trades[..|trades|] == trades && views[..|trades|] == views;
    }

    /** The average prices are those of these buys, these sells, and both. */
    ghost predicate Averages(buys: seq<Fill>, sells: seq<Fill>)
      reads `avgBPrice, `avgSPrice, `avgTotPrice
    {
      && avgBPrice == MeanPrice(buys) && avgSPrice == MeanPrice(sells)
      && avgTotPrice == TotalMeanPrice(buys, sells)
    }

    method PreprocessTrades(trades: seq<TradeFill>) returns (buys: seq<TradeFill>, sells: seq<TradeFill>)
      requires IsNew()
      modifies `bVolBase, `sVolBase, `totVolBase, `bVolQuote, `sVolQuote, `totVolQuote, `avgBPrice, `avgSPrice, `avgTotPrice
      ensures buys == Traded(trades, BUY) && sells == Traded(trades, SELL)
      ensures Volumes(OnSide(Views(trades), BUY), OnSide(Views(trades), SELL), 0.0, 0.0, 0.0, 0.0)
      ensures totVolBase == bVolBase + sVolBase && totVolQuote == bVolQuote + sVolQuote
      ensures Averages(OnSide(Views(trades), BUY), OnSide(Views(trades), SELL))
    {
      hide OnSide, SumAmount, SumValue, Traded, Divide;
      ghost var bought, sold := OnSide(Views(trades), BUY), OnSide(Views(trades), SELL);
      buys, sells := SplitBySide(trades);
      totVolBase := bVolBase + sVolBase;
      totVolQuote := bVolQuote + sVolQuote;
      MeanPriceOfVolumes(SumValue(bought), SumAmount(bought));
      MeanPriceOfVolumes(SumValue(sold), SumAmount(sold));
      avgBPrice := Divide(bVolQuote, bVolBase);
      avgSPrice := Divide(sVolQuote, sVolBase);
      avgTotPrice := Divide(Abs(bVolQuote) + Abs(sVolQuote), Abs(bVolBase) + Abs(sVolBase));
      avgBPrice := Abs(avgBPrice);
      avgSPrice := Abs(avgSPrice);
    }

    method CalculateTradePnl(buys: seq<TradeFill>, sells: seq<TradeFill>)
      requires (forall x :: x in buys ==> x.side == BUY) && (forall x :: x in sells ==> x.side == SELL)
      modifies `tradePnl, buys, sells
      ensures tradePnl == if AreDerivatives(old(Views(buys))) || AreDerivatives(old(Views(sells)))
                          then PositionPnl(Aggregate(old(Views(buys))), Aggregate(old(Views(sells))))
                          else curValue - holdValue
    {
      hide AreDerivatives, PositionPnl, Aggregate;
      tradePnl := curValue - holdValue;
      var derivativeBuys := IsDerivativeList(buys);
      var derivativeSells := IsDerivativeList(sells);
      if derivativeBuys || derivativeSells {
        var aggregatedBuys, aggregatedSells := AggregatePositionOrder(buys, sells);
        tradePnl := PositionProfit(aggregatedBuys, aggregatedSells);
      }
    }

    ghost predicate IsNew()
      reads this
    {
      bVolBase == sVolBase == bVolQuote == sVolQuote == 0.0
    }

    lemma TotalsOfNew(buys: seq<Fill>, sells: seq<Fill>)
      requires Volumes(buys, sells, 0.0, 0.0, 0.0, 0.0)
      requires totVolBase == bVolBase + sVolBase && totVolQuote == bVolQuote + sVolQuote
      ensures totVolBase == SumAmount(buys) - SumAmount(sells) && totVolQuote == SumValue(sells) - SumValue(buys)
    {
      hide SumAmount, SumValue;
    }

    /** The balances before and after, both valued at the current price. */
    method ValueBalances(baseBal: real, quoteBal: real, first: real, current: real)
      modifies `curBaseBal, `curQuoteBal, `startBaseBal, `startQuoteBal, `startPrice, `curPrice, `holdValue, `curValue
      modifies `startBaseRatioPct, `curBaseRatioPct
      ensures curPrice == current && startPrice == first
      ensures startBaseRatioPct == Share(baseBal - totVolBase, quoteBal - totVolQuote, first)
      ensures curBaseRatioPct == Share(baseBal, quoteBal, current)
      ensures curValue == Worth(baseBal, quoteBal, current)
      ensures holdValue == Worth(baseBal - totVolBase, quoteBal - totVolQuote, current)
    {
      curBaseBal, curQuoteBal := baseBal, quoteBal;
      startBaseBal := curBaseBal - totVolBase;
      startQuoteBal := curQuoteBal - totVolQuote;
      startPrice, curPrice := first, current;
      startBaseRatioPct := Divide(startBaseBal * startPrice, startBaseBal * startPrice + startQuoteBal);
      curBaseRatioPct := Divide(curBaseBal * curPrice, curBaseBal * curPrice + curQuoteBal);
      holdValue := startBaseBal * curPrice + startQuoteBal;
      curValue := curBaseBal * curPrice + curQuoteBal;
    }

    /** The parts held in base: before these trades at the first price, and now. */
    ghost predicate Ratios(buys: seq<Fill>, sells: seq<Fill>, baseBal: real, quoteBal: real, first: real)
      reads `startBaseRatioPct, `curBaseRatioPct, `curPrice
    {
      && curBaseRatioPct == Share(baseBal, quoteBal, curPrice)
      && startBaseRatioPct == Share(baseBal - (SumAmount(buys) - SumAmount(sells)), quoteBal - (SumValue(sells) - SumValue(buys)), first)
    }

    lemma RatiosAre(buys: seq<Fill>, sells: seq<Fill>, baseBal: real, quoteBal: real, first: real)
      requires totVolBase == SumAmount(buys) - SumAmount(sells) && totVolQuote == SumValue(sells) - SumValue(buys)
      requires startBaseRatioPct == Share(baseBal - totVolBase, quoteBal - totVolQuote, first)
      requires curBaseRatioPct == Share(baseBal, quoteBal, curPrice)
      ensures Ratios(buys, sells, baseBal, quoteBal, first)
    {
    }

    /** Everything before the profit is computed. */
    method Prepare(trades: seq<TradeFill>, baseBal: real, quoteBal: real, rate: Option<real>)
      returns (out: Outcome, buys: seq<TradeFill>, sells: seq<TradeFill>)
      requires IsNew()
      modifies this
      ensures out == if trades == [] then IndexError else Pass
      ensures buys == Traded(trades, BUY) && sells == Traded(trades, SELL)
      ensures numBuys == |buys| && numSells == |sells| && numTrades == numBuys + numSells
      ensures out.Pass? ==> curPrice == if rate.Some? then rate.value else trades[|trades| - 1].price
      ensures Averages(OnSide(Views(trades), BUY), OnSide(Views(trades), SELL))
      ensures out.Pass? ==> Ratios(OnSide(Views(trades), BUY), OnSide(Views(trades), SELL), baseBal, quoteBal, trades[0].price)
      ensures out.Pass? ==> curValue - holdValue == SpotGain(Views(trades), curPrice)
    {
      hide *;
      buys, sells := PreprocessTrades(trades);
      TotalsOfNew(OnSide(Views(trades), BUY), OnSide(Views(trades), SELL));
      numBuys, numSells := |buys|, |sells|;
      numTrades := numBuys + numSells;
      out := IndexError;
      if trades != [] {
        var current := if rate.Some? then rate.value else trades[|trades| - 1].price;
        SpotIdentity(Views(trades), baseBal, quoteBal, totVolBase, totVolQuote, current);
        ValueBalances(baseBal, quoteBal, trades[0].price, current);
        RatiosAre(OnSide(Views(trades), BUY), OnSide(Views(trades), SELL), baseBal, quoteBal, trades[0].price);
        out := Pass;
      }
    }

    /** The whole computation on a new object. `rate` is what the rate oracle
        answers for the pair. An empty trade list fails on its first trade. */
    method InitializeMetrics(trades: seq<TradeFill>, baseBal: real, quoteBal: real, rate: Option<real>) returns (out: Outcome)
      requires IsNew()
      modifies this, trades
      ensures out == if trades == [] then IndexError else Pass
      ensures numBuys == |OnSide(old(Views(trades)), BUY)| && numSells == |OnSide(old(Views(trades)), SELL)|
      ensures numTrades == numBuys + numSells
      ensures out.Pass? ==> curPrice == if rate.Some? then rate.value else old(trades[|trades| - 1].price)
      ensures out.Pass? ==> tradePnl == TradePnl(old(Views(trades)), curPrice)
      ensures Averages(OnSide(old(Views(trades)), BUY), OnSide(old(Views(trades)), SELL))
      ensures out.Pass? ==> Ratios(OnSide(old(Views(trades)), BUY), OnSide(old(Views(trades)), SELL), baseBal, quoteBal,
                                   old(trades[0].price))
    {
      hide OnSide, Aggregate, AreDerivatives, PositionPnl, SpotGain, IsNew, Traded, Averages, Ratios;
      var buys, sells;
      TradedViews(trades, BUY);
      TradedViews(trades, SELL);
      out, buys, sells := Prepare(trades, baseBal, quoteBal, rate);
      if out.Pass? { CalculateTradePnl(buys, sells); }
    }
  }

  /** The trades of one side, as objects. */
  function Traded(trades: seq<TradeFill>, side: Side): (r: seq<TradeFill>)
    ensures forall x :: x in r ==> x in trades && x.side == side
  {
    if trades == [] then []
    else Traded(trades[..|trades| - 1], side) + (if trades[|trades| - 1].side == side then [trades[|trades| - 1]] else [])
  }

  lemma TradedSnoc(front: seq<TradeFill>, last: TradeFill)
    ensures forall side ::
      Traded(front + [last], side) == if last.side == side then Traded(front, side) + [last] else Traded(front, side)
  {
    assert (front + [last])[..|front|] == front;
  }

  lemma {:induction false} TradedViews(trades: seq<TradeFill>, side: Side)
    ensures Views(Traded(trades, side)) == OnSide(Views(trades), side)
  {
    if trades != [] {
      hide Traded, OnSide;
      var front, last := trades[..|trades| - 1], trades[|trades| - 1];
      TradedViews(front, side);
      assert trades == front + [last];
      TradedSnoc(front, last);
      ViewsCons(last, front);
      ViewsCons(last, Traded(front, side));
      Snoc(Views(front), last.View());
    }
  }

  lemma NoneYet()
    ensures forall side :: OnSide([], side) == [] && Traded([], side) == []
    ensures SumAmount([]) == 0.0 && SumValue([]) == 0.0
  {
  }

  lemma Snoc(front: seq<Fill>, last: Fill)
    ensures SumAmount(front + [last]) == SumAmount(front) + last.amount
    ensures SumValue(front + [last]) == SumValue(front) + Value(last)
    ensures forall side ::
      OnSide(front + [last], side) == if last.side == side then OnSide(front, side) + [last] else OnSide(front, side)
  {
    assert (front + [last])[..|front|] == front;
  }
}
